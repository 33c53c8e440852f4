/** A business's private contacts, the services that edit them, and the migration that
    made `uniq_linked_business_per_business` hold for older rows. Ids are positions. */
module Contacts {
  import opened Sequences

  datatype Contact = Contact(business: nat, name: string, linked: Option<nat>, active: bool, createdAt: int)

  /** The acting member; `manages` is the `customers.manage` capability. */
  datatype Member = NoMember | Member(business: nat, manages: bool)

  datatype ContactError =
    | MissingRow | NotAllowed | WrongBusiness | NameTooShort | OwnBusiness | NotLinkable | AlreadyLinked

  /** `name` is the submitted name after stripping. */
  datatype Call =
    | Create(business: nat, member: Member, name: string, linked: Option<nat>, now: int)
    | Update(contact: nat, member: Member, name: string, linked: Option<nat>)
    | Archive(contact: nat, member: Member)
    | Restore(contact: nat, member: Member)

  predicate LinkedTo(c: Contact, business: nat, partner: nat) {
    c.business == business && c.linked == Some(partner)
  }

  /** Another contact of the business already carries the link. */
  predicate LinkTaken(cs: seq<Contact>, business: nat, partner: nat, except: nat) {
    exists i :: 0 <= i < |cs| && i != except && LinkedTo(cs[i], business, partner)
  }

  function LinkError(cs: seq<Contact>, business: nat, linked: Option<nat>, except: nat,
      active: set<nat>): Option<ContactError>
  {
    if linked.None? then None
    else if linked.value == business then Some(OwnBusiness)
    else if linked.value !in active then Some(NotLinkable)
    else if LinkTaken(cs, business, linked.value, except) then Some(AlreadyLinked)
    else None
  }

  function MemberError(m: Member, business: nat): Option<ContactError> {
    if !m.Member? || !m.manages then Some(NotAllowed)
    else if m.business != business then Some(WrongBusiness)
    else None
  }

  /** Which error a call raises, if any; `active` is the set of active businesses. */
  function Refusal(cs: seq<Contact>, call: Call, active: set<nat>): Option<ContactError> {
    match call
    case Create(business, member, name, linked, _) =>
      if MemberError(member, business).Some? then MemberError(member, business)
      else if |name| < 2 then Some(NameTooShort)
      else LinkError(cs, business, linked, |cs|, active)
    case Update(c, member, name, linked) =>
      if c >= |cs| then Some(MissingRow)
      else if MemberError(member, cs[c].business).Some? then MemberError(member, cs[c].business)
      else if |name| < 2 then Some(NameTooShort)
      else LinkError(cs, cs[c].business, linked, c, active)
    case Archive(c, member) => if c >= |cs| then Some(MissingRow) else MemberError(member, cs[c].business)
    case Restore(c, member) => if c >= |cs| then Some(MissingRow) else MemberError(member, cs[c].business)
  }

  function Step(cs: seq<Contact>, call: Call, active: set<nat>): seq<Contact> {
    if Refusal(cs, call, active).Some? then cs
    else
      match call
      case Create(business, _, name, linked, now) => cs + [Contact(business, name, linked, true, now)]
      case Update(c, _, name, linked) => cs[c := cs[c].(name := name, linked := linked)]
      case Archive(c, _) => cs[c := cs[c].(active := false)]
      case Restore(c, _) => cs[c := cs[c].(active := true)]
  }

  /** One partner, one ledger. */
  ghost predicate LinksUnique(cs: seq<Contact>) {
    forall i, j :: 0 <= i < j < |cs| && cs[i].linked.Some? ==>
                     cs[i].business != cs[j].business || cs[i].linked != cs[j].linked
  }

  /** Contacts are never removed, renumbered or moved to another business. */
  ghost predicate Extends(cs: seq<Contact>, ds: seq<Contact>) {
    && |cs| <= |ds|
    && forall i :: 0 <= i < |cs| ==> ds[i].business == cs[i].business && ds[i].createdAt == cs[i].createdAt
  }

  lemma StepKeeps(cs: seq<Contact>, call: Call, active: set<nat>)
    requires LinksUnique(cs)
    ensures LinksUnique(Step(cs, call, active)) && Extends(cs, Step(cs, call, active))
  {
    var ds := Step(cs, call, active);
    if Refusal(cs, call, active).None? && (call.Create? || call.Update?) && call.linked.Some? {
      var k := if call.Create? then |cs| else call.contact;
      assert forall i :: 0 <= i < |cs| && i != k ==> !LinkedTo(cs[i], ds[k].business, call.linked.value);
    }
  }

  /** Restoring undoes archiving, and archiving twice is archiving once: nothing about the
      contact or the rest of the book is lost on the way. */
  lemma RestoreUndoesArchive(cs: seq<Contact>, contact: nat, member: Member, active: set<nat>)
    requires contact < |cs| && cs[contact].active
    ensures var archived := Step(cs, Archive(contact, member), active);
            && Step(archived, Restore(contact, member), active) == cs
            && Step(archived, Archive(contact, member), active) == archived
            && (Refusal(cs, Archive(contact, member), active).None? ==> !archived[contact].active)
  {
    var archived := Step(cs, Archive(contact, member), active);
    assert Step(archived, Restore(contact, member), active) == cs;
  }

  /** After an accepted create or update the contact holds exactly the link asked for, no
      other contact of the business holds that link, and every other row is as it was. A new
      contact belongs to the business that made it and starts active. */
  lemma LinkIsHeldByOne(cs: seq<Contact>, call: Call, active: set<nat>, k: nat)
    requires LinksUnique(cs) && (call.Create? || call.Update?) && Refusal(cs, call, active).None?
    requires k == if call.Create? then |cs| else call.contact
    ensures var ds := Step(cs, call, active);
            && |ds| == (if call.Create? then |cs| + 1 else |cs|) && k < |ds|
            && ds[k] == (if call.Create? then Contact(call.business, call.name, call.linked, true, call.now)
                         else cs[k].(name := call.name, linked := call.linked))
            && (forall i :: 0 <= i < |cs| && i != k ==> ds[i] == cs[i])
            && (call.linked.Some? ==> forall i :: 0 <= i < |ds| && i != k ==>
                  ds[i].business != ds[k].business || ds[i].linked != call.linked)
  {
    if call.linked.Some? {
      var ds := Step(cs, call, active);
      forall i | 0 <= i < |ds| && i != k
        ensures ds[i].business != ds[k].business || ds[i].linked != call.linked
      {
        assert !LinkedTo(cs[i], ds[k].business, call.linked.value);
      }
    }
  }

  /** A colleague the business may link: another active business that no other contact of
      its own carries already. */
  predicate MayLink(cs: seq<Contact>, business: nat, partner: nat, except: nat, active: set<nat>) {
    && partner != business && partner in active
    && forall i :: 0 <= i < |cs| && i != except ==> cs[i].business != business || cs[i].linked != Some(partner)
  }

  lemma MayLinkIff(cs: seq<Contact>, business: nat, partner: nat, except: nat, active: set<nat>)
    ensures var error := LinkError(cs, business, Some(partner), except, active);
            && (error.None? <==> MayLink(cs, business, partner, except, active))
            && (error.Some? ==>
                  error.value == if partner == business then OwnBusiness
                                 else if partner !in active then NotLinkable else AlreadyLinked)
  {
    if LinkTaken(cs, business, partner, except) {
      var i :| 0 <= i < |cs| && i != except && LinkedTo(cs[i], business, partner);
      assert cs[i].business == business && cs[i].linked == Some(partner);
    } else {
      forall i | 0 <= i < |cs| && i != except
        ensures cs[i].business != business || cs[i].linked != Some(partner)
      {
        assert !LinkedTo(cs[i], business, partner);
      }
    }
  }

  /** Who may create a contact or edit one, with which name and link, and what the others
      are told; a refused call changes nothing. */
  lemma EditedIff(cs: seq<Contact>, call: Call, active: set<nat>)
    requires call.Create? || (call.Update? && call.contact < |cs|)
    ensures var business := if call.Create? then call.business else cs[call.contact].business;
            var except := if call.Create? then |cs| else call.contact;
            var error := Refusal(cs, call, active);
            && (error.None? <==>
                  (&& call.member == Member(business, true) && |call.name| >= 2
                   && (call.linked.Some? ==> MayLink(cs, business, call.linked.value, except, active))))
            && (error.Some? ==>
                  Step(cs, call, active) == cs
                  && error.value == if call.member.NoMember? || !call.member.manages then NotAllowed
                                    else if call.member.business != business then WrongBusiness
                                    else if |call.name| < 2 then NameTooShort
                                    else if call.linked == Some(business) then OwnBusiness
                                    else if call.linked.Some? && call.linked.value !in active then NotLinkable
                                    else AlreadyLinked)
  {
    if call.linked.Some? {
      var business := if call.Create? then call.business else cs[call.contact].business;
      MayLinkIff(cs, business, call.linked.value, if call.Create? then |cs| else call.contact, active);
    }
  }

  /** Who may archive or restore a contact, whatever else it holds; only the flag moves. */
  lemma ArchivedIff(cs: seq<Contact>, call: Call, active: set<nat>)
    requires (call.Archive? || call.Restore?) && call.contact < |cs|
    ensures var business, error := cs[call.contact].business, Refusal(cs, call, active);
            && (error.None? <==> call.member == Member(business, true))
            && (error.Some? ==>
                  error.value == if call.member.NoMember? || !call.member.manages then NotAllowed else WrongBusiness)
            && Step(cs, call, active) == if error.Some? then cs else
                   cs[call.contact := cs[call.contact].(active := call.Restore?)]
  {
  }

  lemma UnknownContactIsMissing(cs: seq<Contact>, call: Call, active: set<nat>)
    requires !call.Create? && call.contact >= |cs|
    ensures Refusal(cs, call, active) == Some(MissingRow) && Step(cs, call, active) == cs
  {
  }

  // ----- The migration -----

  predicate SamePair(c: Contact, d: Contact) {
    c.linked.Some? && c.business == d.business && c.linked == d.linked
  }

  predicate Older(cs: seq<Contact>, i: nat, j: nat)
    requires i < |cs| && j < |cs|
  {
    cs[i].createdAt < cs[j].createdAt || (cs[i].createdAt == cs[j].createdAt && i <= j)
  }

  /** The oldest contact of its pair: the one that keeps the link. */
  ghost predicate Oldest(cs: seq<Contact>, i: nat)
    requires i < |cs|
  {
    forall j :: 0 <= j < |cs| && SamePair(cs[i], cs[j]) ==> Older(cs, i, j)
  }

  /** `ORDER BY business_id, linked_business_id, created_at, id`. */
  predicate Before(cs: seq<Contact>, i: nat, j: nat)
    requires i < |cs| && j < |cs| && cs[i].linked.Some? && cs[j].linked.Some?
  {
    || cs[i].business < cs[j].business
    || (cs[i].business == cs[j].business &&
        (cs[i].linked.value < cs[j].linked.value || (cs[i].linked == cs[j].linked && !Older(cs, j, i))))
  }

  /** The query's rows: every linked contact once, in that order. */
  ghost predicate QueryRows(cs: seq<Contact>, rows: seq<nat>) {
    && (forall n :: 0 <= n < |rows| ==> rows[n] < |cs| && cs[rows[n]].linked.Some?)
    && (forall i :: 0 <= i < |cs| && cs[i].linked.Some? ==> i in rows)
    && (forall m, n :: 0 <= m < n < |rows| ==> Before(cs, rows[m], rows[n]))
  }

  function Key(c: Contact): (nat, Option<nat>) {
    (c.business, c.linked)
  }

  /** What the migration leaves of one contact. */
  ghost function Unlinked(cs: seq<Contact>, i: nat): Contact
    requires i < |cs|
  {
    if cs[i].linked.Some? && !Oldest(cs, i) then cs[i].(linked := None) else cs[i]
  }

  ghost function IsDuplicate(cs: seq<Contact>): nat -> bool {
    (i: nat) => i < |cs| && cs[i].linked.Some? && !Oldest(cs, i)
  }

  /** The pairs met among the first `n` rows. */
  function KeysUpTo(cs: seq<Contact>, rows: seq<nat>, n: nat): set<(nat, Option<nat>)>
    requires n <= |rows| && forall m :: 0 <= m < n ==> rows[m] < |cs|
  {
    if n == 0 then {} else KeysUpTo(cs, rows, n - 1) + {Key(cs[rows[n - 1]])}
  }

  lemma {:induction false} KeysUpToMembers(cs: seq<Contact>, rows: seq<nat>, n: nat, key: (nat, Option<nat>))
    requires n <= |rows| && forall m :: 0 <= m < n ==> rows[m] < |cs|
    ensures key in KeysUpTo(cs, rows, n) <==> exists m :: 0 <= m < n && Key(cs[rows[m]]) == key
  {
    if n > 0 {
      KeysUpToMembers(cs, rows, n - 1, key);
    }
  }

  lemma LaterIsNotOldest(cs: seq<Contact>, rows: seq<nat>, m: nat, n: nat)
    requires QueryRows(cs, rows) && m < n < |rows| && Key(cs[rows[m]]) == Key(cs[rows[n]])
    ensures !Oldest(cs, rows[n])
  {
    assert Before(cs, rows[m], rows[n]);
    assert SamePair(cs[rows[n]], cs[rows[m]]) && !Older(cs, rows[n], rows[m]);
  }

  lemma FirstIsOldest(cs: seq<Contact>, rows: seq<nat>, n: nat)
    requires QueryRows(cs, rows) && n < |rows|
    requires forall m :: 0 <= m < n ==> Key(cs[rows[m]]) != Key(cs[rows[n]])
    ensures Oldest(cs, rows[n])
  {
    forall j | 0 <= j < |cs| && SamePair(cs[rows[n]], cs[j])
      ensures Older(cs, rows[n], j)
    {
      assert j in rows;
      var m :| 0 <= m < |rows| && rows[m] == j;
      assert Key(cs[rows[m]]) == Key(cs[rows[n]]);
      assert m == n || Before(cs, rows[n], rows[m]);
    }
  }

  /** A row's pair was met before exactly when the row is not the oldest of its pair. */
  lemma SeenMeansDuplicate(cs: seq<Contact>, rows: seq<nat>, n: nat)
    requires QueryRows(cs, rows) && n < |rows|
    ensures Key(cs[rows[n]]) in KeysUpTo(cs, rows, n) <==> IsDuplicate(cs)(rows[n])
  {
    KeysUpToMembers(cs, rows, n, Key(cs[rows[n]]));
    if Key(cs[rows[n]]) in KeysUpTo(cs, rows, n) {
      var m :| 0 <= m < n && Key(cs[rows[m]]) == Key(cs[rows[n]]);
      LaterIsNotOldest(cs, rows, m, n);
    } else {
      FirstIsOldest(cs, rows, n);
    }
  }

  lemma CollectTurn(cs: seq<Contact>, rows: seq<nat>, n: nat, duplicates: seq<nat>)
    requires QueryRows(cs, rows) && n < |rows| && duplicates == Filter(rows[..n], IsDuplicate(cs))
    ensures rows[n] < |cs|
    ensures var key := Key(cs[rows[n]]);
            var seen := KeysUpTo(cs, rows, n);
            && KeysUpTo(cs, rows, n + 1) == seen + {key}
            && Filter(rows[..n + 1], IsDuplicate(cs)) == if key in seen then duplicates + [rows[n]] else duplicates
  {
    FilterTake(rows, n, IsDuplicate(cs));
    SeenMeansDuplicate(cs, rows, n);
  }

  /** The migration's loop: it collects the rows whose pair it has met before. */
  method CollectDuplicates(cs: seq<Contact>, rows: seq<nat>) returns (duplicates: seq<nat>)
    requires QueryRows(cs, rows)
    ensures duplicates == Filter(rows, IsDuplicate(cs))
  {
    var seen: set<(nat, Option<nat>)> := {};
    duplicates := [];
    var n := 0;
    while n < |rows|
      invariant 0 <= n <= |rows|
      invariant seen == KeysUpTo(cs, rows, n)
      invariant duplicates == Filter(rows[..n], IsDuplicate(cs))
    {
      CollectTurn(cs, rows, n, duplicates);
      var key := Key(cs[rows[n]]);
      if key in seen {
        duplicates := duplicates + [rows[n]];
      } else {
        seen := seen + {key};
      }
      n := n + 1;
    }
    assert rows[..n] == rows;
  }

  /** The migration on the rows its query returns: exactly the links of contacts that are
      not the oldest of their pair are cleared, and nothing else changes. */
  method UnlinkDuplicatePartnerLinks(cs: seq<Contact>, rows: seq<nat>) returns (ds: seq<Contact>)
    requires QueryRows(cs, rows)
    ensures |ds| == |cs|
    ensures forall i :: 0 <= i < |cs| ==> ds[i] == Unlinked(cs, i)
  {
    var duplicates := CollectDuplicates(cs, rows);
    FilterMembers(rows, IsDuplicate(cs));
    ds := seq(|cs|, i requires 0 <= i < |cs| => if i in duplicates then cs[i].(linked := None) else cs[i]);
  }

  /** What the migration leaves, on any rows: the constraint holds. */
  lemma MigrationEstablishesUniqueness(cs: seq<Contact>, ds: seq<Contact>)
    requires |ds| == |cs| && forall i :: 0 <= i < |cs| ==> ds[i] == Unlinked(cs, i)
    ensures LinksUnique(ds)
  {
    forall i, j | 0 <= i < j < |ds| && ds[i].linked.Some?
      ensures ds[i].business != ds[j].business || ds[i].linked != ds[j].linked
    {
      assert ds[i] == Unlinked(cs, i) && ds[j] == Unlinked(cs, j);
      assert SamePair(cs[i], cs[j]) <==> cs[j].linked.Some? && SamePair(cs[j], cs[i]);
    }
  }

  /** The oldest contact of the pair of `i` among the first `n`. */
  lemma {:induction false} OldestExists(cs: seq<Contact>, i: nat, n: nat) returns (keeper: nat)
    requires i < n <= |cs| && cs[i].linked.Some?
    ensures keeper < n && SamePair(cs[i], cs[keeper])
    ensures forall j :: 0 <= j < n && SamePair(cs[i], cs[j]) ==> Older(cs, keeper, j)
  {
    if n == i + 1 {
      keeper := i;
      for j := 0 to i
        invariant keeper <= i && SamePair(cs[i], cs[keeper]) && Older(cs, keeper, i)
        invariant forall m :: 0 <= m < j && SamePair(cs[i], cs[m]) ==> Older(cs, keeper, m)
      {
        if SamePair(cs[i], cs[j]) && !Older(cs, keeper, j) {
          keeper := j;
        }
      }
    } else {
      keeper := OldestExists(cs, i, n - 1);
      if SamePair(cs[i], cs[n - 1]) && !Older(cs, keeper, n - 1) {
        keeper := n - 1;
      }
    }
  }

  /** And no pair loses its link: its oldest contact, the one of lower id among equals,
      carries it as before, and no other contact does. */
  lemma MigrationKeepsEveryPair(cs: seq<Contact>, ds: seq<Contact>, i: nat)
    requires |ds| == |cs| && forall j :: 0 <= j < |cs| ==> ds[j] == Unlinked(cs, j)
    requires i < |cs| && cs[i].linked.Some?
    ensures exists keeper :: 0 <= keeper < |cs| && ds[keeper] == cs[keeper] && KeepsLink(cs, ds, i, keeper)
  {
    var keeper := OldestExists(cs, i, |cs|);
    forall j | 0 <= j < |cs| && SamePair(cs[keeper], cs[j])
      ensures Older(cs, keeper, j)
    {
      assert SamePair(cs[i], cs[j]);
    }
    assert Oldest(cs, keeper);
    forall j | 0 <= j < |cs| && j != keeper && cs[j].business == cs[i].business && cs[j].linked == cs[i].linked
      ensures cs[keeper].createdAt < cs[j].createdAt || (cs[keeper].createdAt == cs[j].createdAt && keeper < j)
      ensures ds[j] == cs[j].(linked := None)
    {
      assert SamePair(cs[i], cs[j]) && Older(cs, keeper, j);
      assert SamePair(cs[j], cs[keeper]) && !Older(cs, j, keeper);
      assert ds[j] == Unlinked(cs, j);
    }
  }

  /** `keeper` carries the link of contact `i`, being the oldest of those that did; the
      others have lost it, and nothing else. */
  ghost predicate KeepsLink(cs: seq<Contact>, ds: seq<Contact>, i: nat, keeper: nat)
    requires i < |cs| == |ds| && keeper < |cs|
  {
    && cs[keeper].business == cs[i].business && cs[keeper].linked == cs[i].linked
    && forall j :: 0 <= j < |cs| && j != keeper && cs[j].business == cs[i].business && cs[j].linked == cs[i].linked ==>
         && (cs[keeper].createdAt < cs[j].createdAt || (cs[keeper].createdAt == cs[j].createdAt && keeper < j))
         && ds[j] == cs[j].(linked := None)
  }

  lemma MigrationSparesUnlinkedContacts(cs: seq<Contact>, ds: seq<Contact>, i: nat)
    requires |ds| == |cs| && forall j :: 0 <= j < |cs| ==> ds[j] == Unlinked(cs, j)
    requires i < |cs| && cs[i].linked.None?
    ensures ds[i] == cs[i]
  {
    assert ds[i] == Unlinked(cs, i);
  }

  // ----- The services -----

  class ContactList {
    var rows: seq<Contact>

    ghost predicate Valid()
      reads this
    {
      LinksUnique(rows)
    }

    constructor ()
      ensures Valid() && rows == []
    {
      rows := [];
    }

    method ValidateLink(business: nat, linked: Option<nat>, except: nat, active: set<nat>)
        returns (err: Option<ContactError>)
      ensures err == LinkError(rows, business, linked, except, active)
    {
      if linked.None? { return None; }
      if linked.value == business { return Some(OwnBusiness); }
      if linked.value !in active { return Some(NotLinkable); }
      for i := 0 to |rows|
        invariant forall j :: 0 <= j < i && j != except ==> !LinkedTo(rows[j], business, linked.value)
      {
        if i != except && LinkedTo(rows[i], business, linked.value) { return Some(AlreadyLinked); }
      }
      return None;
    }

    method CreateContact(business: nat, member: Member, name: string, linked: Option<nat>, now: int, active: set<nat>)
      returns (err: Option<ContactError>)
      requires Valid()
      modifies this
      ensures Valid()
      ensures var call := Create(business, member, name, linked, now);
              err == Refusal(old(rows), call, active) && rows == Step(old(rows), call, active)
    {
      StepKeeps(rows, Create(business, member, name, linked, now), active);
      err := MemberError(member, business);
      if err.Some? { return; }
      if |name| < 2 { return Some(NameTooShort); }
      err := ValidateLink(business, linked, |rows|, active);
      if err.Some? { return; }
      rows := rows + [Contact(business, name, linked, true, now)];
    }

    method UpdateContact(contact: nat, member: Member, name: string, linked: Option<nat>, active: set<nat>)
      returns (err: Option<ContactError>)
      requires Valid()
      modifies this
      ensures Valid()
      ensures var call := Update(contact, member, name, linked);
              err == Refusal(old(rows), call, active) && rows == Step(old(rows), call, active)
    {
      StepKeeps(rows, Update(contact, member, name, linked), active);
      if contact >= |rows| { return Some(MissingRow); }
      err := MemberError(member, rows[contact].business);
      if err.Some? { return; }
      if |name| < 2 { return Some(NameTooShort); }
      err := ValidateLink(rows[contact].business, linked, contact, active);
      if err.Some? { return; }
      rows := rows[contact := rows[contact].(name := name, linked := linked)];
    }

    method ArchiveContact(contact: nat, member: Member, ghost active: set<nat>) returns (err: Option<ContactError>)
      requires Valid()
      modifies this
      ensures Valid()
      ensures err == Refusal(old(rows), Archive(contact, member), active)
      ensures rows == Step(old(rows), Archive(contact, member), active)
    {
      StepKeeps(rows, Archive(contact, member), active);
      if contact >= |rows| { return Some(MissingRow); }
      err := MemberError(member, rows[contact].business);
      if err.Some? || !rows[contact].active { return; }
      rows := rows[contact := rows[contact].(active := false)];
    }

    method RestoreContact(contact: nat, member: Member, ghost active: set<nat>) returns (err: Option<ContactError>)
      requires Valid()
      modifies this
      ensures Valid()
      ensures err == Refusal(old(rows), Restore(contact, member), active)
      ensures rows == Step(old(rows), Restore(contact, member), active)
    {
      StepKeeps(rows, Restore(contact, member), active);
      if contact >= |rows| { return Some(MissingRow); }
      err := MemberError(member, rows[contact].business);
      if err.Some? || rows[contact].active { return; }
      rows := rows[contact := rows[contact].(active := true)];
    }
  }
}
