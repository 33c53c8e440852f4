/** Replacing the lots of a custom catalog by the ids a form submitted. */
module Catalog {
  import opened Sequences

  /** A submitted id: nothing, text that is no id, or a spelling of a lot's id. Spelling 0
      is the canonical one, the only one a stored id turns back into; upper case, braces,
      missing hyphens or a number are others. Two spellings of one id are different text. */
  datatype RawId = Null | Malformed(text: nat) | Uuid(id: nat, spelling: nat)

  datatype Lot = Lot(business: nat, archived: bool)
  datatype Item = Item(lot: nat, sortOrder: nat)
  datatype Member = NoMember | Member(business: nat, managesCatalogs: bool)
  datatype CatalogError = NotAllowed | WrongBusiness | MalformedId | ForeignLot

  /** Owned by the business and not archived; an id nobody has is not. */
  predicate Attachable(lots: seq<Lot>, business: nat, id: nat) {
    id < |lots| && lots[id].business == business && !lots[id].archived
  }

  predicate NotNull(r: RawId) {
    !r.Null?
  }

  predicate Canonical(r: RawId) {
    r.Uuid? && r.spelling == 0
  }

  /** Every id is one of the business's lots. */
  predicate AllAttachable(lots: seq<Lot>, business: nat, raw: seq<RawId>) {
    forall r :: r in raw && r.Uuid? ==> Attachable(lots, business, r.id)
  }

  predicate WellFormed(raw: seq<RawId>) {
    forall r :: r in raw ==> !r.Malformed?
  }

  /** No lot is asked for in two spellings. */
  predicate OneSpelling(raw: seq<RawId>) {
    forall r, q :: r in raw && q in raw && r.Uuid? && q.Uuid? && r.id == q.id ==> r == q
  }

  // ----- First occurrences -----

  /** The ids without later repetitions. */
  function FirstOccurrences(s: seq<nat>): seq<nat> {
    if s == [] then []
    else
      var n := |s| - 1;
      if s[n] in s[..n] then FirstOccurrences(s[..n]) else FirstOccurrences(s[..n]) + [s[n]]
  }

  function FirstIndex<T(==)>(s: seq<T>, x: T): (k: nat)
    requires x in s
    ensures k < |s| && s[k] == x && forall i :: 0 <= i < k ==> s[i] != x
  {
    if s[0] == x then 0 else 1 + FirstIndex(s[1..], x)
  }

  lemma {:induction false} FirstOccurrencesAreTheMembers(s: seq<nat>)
    ensures Distinct(FirstOccurrences(s))
    ensures forall x :: x in FirstOccurrences(s) <==> x in s
  {
    if s != [] {
      FirstOccurrencesAreTheMembers(s[..|s| - 1]);
    }
  }

  lemma FirstIndexInPrefix<T>(s: seq<T>, n: nat, x: T)
    requires n <= |s| && x in s[..n]
    ensures FirstIndex(s[..n], x) == FirstIndex(s, x) < n
  {
    var k, l := FirstIndex(s[..n], x), FirstIndex(s, x);
    assert forall i :: 0 <= i < n ==> s[..n][i] == s[i];
    assert s[k] == x;
  }

  lemma LastIsFirst<T>(s: seq<T>)
    requires s != [] && s[|s| - 1] !in s[..|s| - 1]
    ensures FirstIndex(s, s[|s| - 1]) == |s| - 1
  {
    assert forall i :: 0 <= i < |s| - 1 ==> s[i] in s[..|s| - 1];
  }

  /** They come in the order in which each was asked for first. */
  lemma {:induction false} FirstOccurrencesKeepOrder(s: seq<nat>, i: nat, j: nat)
    requires i < j < |FirstOccurrences(s)|
    ensures FirstOccurrences(s)[i] in s && FirstOccurrences(s)[j] in s
    ensures FirstIndex(s, FirstOccurrences(s)[i]) < FirstIndex(s, FirstOccurrences(s)[j])
  {
    var n := |s| - 1;
    var all, r := FirstOccurrences(s), FirstOccurrences(s[..n]);
    FirstOccurrencesAreTheMembers(s);
    FirstOccurrencesAreTheMembers(s[..n]);
    assert all[i] == r[i] && r[i] in r && r[i] in s[..n];
    FirstIndexInPrefix(s, n, r[i]);
    if j < |r| {
      assert r[j] in r && r[j] in s[..n];
      FirstOccurrencesKeepOrder(s[..n], i, j);
      FirstIndexInPrefix(s, n, r[j]);
    } else {
      LastIsFirst(s);
    }
  }

  function CanonicalIds(raw: seq<RawId>): seq<nat> {
    if raw == [] then []
    else
      var r := raw[|raw| - 1];
      CanonicalIds(raw[..|raw| - 1]) + if Canonical(r) then [r.id] else []
  }

  lemma {:induction false} CanonicalIdsMembers(raw: seq<RawId>, id: nat)
    ensures id in CanonicalIds(raw) <==> Uuid(id, 0) in raw
  {
    if raw != [] {
      CanonicalIdsMembers(raw[..|raw| - 1], id);
    }
  }

  lemma {:induction false} CanonicalIgnoresNull(raw: seq<RawId>)
    ensures CanonicalIds(Filter(raw, NotNull)) == CanonicalIds(raw)
  {
    if raw != [] {
      var n := |raw| - 1;
      CanonicalIgnoresNull(raw[..n]);
      if NotNull(raw[n]) {
        var kept := Filter(raw[..n], NotNull);
        assert (kept + [raw[n]])[..|kept|] == kept;
      }
    }
  }

  lemma OneMoreId(requested: seq<RawId>, i: nat)
    requires i < |requested|
    ensures var before := CanonicalIds(requested[..i]);
            FirstOccurrences(CanonicalIds(requested[..i + 1]))
            == FirstOccurrences(before)
               + if Canonical(requested[i]) && requested[i] !in requested[..i] then [requested[i].id] else []
  {
    var r := requested[i];
    var before := CanonicalIds(requested[..i]);
    assert requested[..i + 1][..i] == requested[..i];
    if Canonical(r) {
      CanonicalIdsMembers(requested[..i], r.id);
      var after := before + [r.id];
      assert CanonicalIds(requested[..i + 1]) == after;
      assert after[..|before|] == before && after[|before|] == r.id;
      assert r == Uuid(r.id, 0);
    }
    assert before + [] == before && FirstOccurrences(before) + [] == FirstOccurrences(before);
  }

  /** The catalog after a successful call. */
  function Attached(raw: seq<RawId>): seq<Item> {
    var ids := FirstOccurrences(CanonicalIds(raw));
    seq(|ids|, i requires 0 <= i < |ids| => Item(ids[i], i))
  }

  // ----- The cardinality test -----

  ghost function IdsOf(keys: set<RawId>): set<nat> {
    set k | k in keys && k.Uuid? :: k.id
  }

  /** Different spellings can only be more than the ids they spell, and are as many exactly
      when no id is spelled twice. */
  lemma {:induction false} SpellingsOutnumberIds(keys: set<RawId>)
    requires forall k :: k in keys ==> k.Uuid?
    ensures |IdsOf(keys)| <= |keys|
    ensures |IdsOf(keys)| == |keys| <==> forall k, l :: k in keys && l in keys && k.id == l.id ==> k == l
  {
    if keys != {} {
      var k :| k in keys;
      var rest := keys - {k};
      SpellingsOutnumberIds(rest);
      assert keys == rest + {k};
      assert IdsOf(keys) == IdsOf(rest) + {k.id};
      if k.id in IdsOf(rest) {
        var l :| l in rest && l.id == k.id;
        assert IdsOf(keys) == IdsOf(rest);
      }
    }
  }

  /** So comparing the number of lots found with the number of texts submitted decides
      whether every text is a lot of the business and no lot was spelled in two ways. */
  lemma CardinalityTest(lots: seq<Lot>, business: nat, raw: seq<RawId>, keys: set<RawId>, owned: set<nat>)
    requires WellFormed(raw)
    requires keys == (set r | r in raw && NotNull(r))
    requires forall id :: id in owned <==> id in IdsOf(keys) && Attachable(lots, business, id)
    ensures |owned| == |keys| <==> AllAttachable(lots, business, raw) && OneSpelling(raw)
  {
    SpellingsOutnumberIds(keys);
    var ids := IdsOf(keys);
    assert owned <= ids;
    SubsetSize(owned, ids);
    if AllAttachable(lots, business, raw) {
      assert owned == ids;
    }
    if owned == ids {
      forall r | r in raw && r.Uuid?
        ensures Attachable(lots, business, r.id)
      {
        assert r in keys;
        assert r.id in ids;
      }
    }
  }

  lemma {:induction false} SubsetSize(a: set<nat>, b: set<nat>)
    requires a <= b
    ensures |a| <= |b| && (|a| == |b| ==> a == b)
  {
    assert b == a + (b - a);
  }

  // ----- What a call does and promises -----

  function Refusal(lots: seq<Lot>, business: nat, member: Member, raw: seq<RawId>): Option<CatalogError> {
    if !member.Member? || !member.managesCatalogs then Some(NotAllowed)
    else if member.business != business then Some(WrongBusiness)
    else if !WellFormed(raw) then Some(MalformedId)
    else if !AllAttachable(lots, business, raw) || !OneSpelling(raw) then Some(ForeignLot)
    else None
  }

  /** Which calls are accepted: those of a member who manages the business's catalogs that
      ask for unarchived lots of the business only, no lot in two spellings, and no text
      that is no id; and what the others are told. */
  lemma AcceptedIff(lots: seq<Lot>, business: nat, member: Member, raw: seq<RawId>)
    ensures var error := Refusal(lots, business, member, raw);
            var ids := forall i :: 0 <= i < |raw| ==> raw[i].Null? || raw[i].Uuid?;
            var own := forall i :: 0 <= i < |raw| && raw[i].Uuid? ==>
                                     raw[i].id < |lots| && lots[raw[i].id] == Lot(business, false);
            var once := forall i, j :: 0 <= i < |raw| && 0 <= j < |raw| && raw[i].Uuid? && raw[j].Uuid? ==>
                                         raw[i].id == raw[j].id ==> raw[i].spelling == raw[j].spelling;
            && (error.None? <==> member == Member(business, true) && ids && own && once)
            && (error.Some? ==>
                  error.value == if member.NoMember? || !member.managesCatalogs then NotAllowed
                                 else if member.business != business then WrongBusiness
                                 else if !ids then MalformedId else ForeignLot)
  {
    assert WellFormed(raw) <==> forall i :: 0 <= i < |raw| ==> !raw[i].Malformed?;
    forall i | 0 <= i < |raw| && raw[i].Uuid?
      ensures raw[i] in raw
      ensures Attachable(lots, business, raw[i].id) <==> raw[i].id < |lots| && lots[raw[i].id] == Lot(business, false)
    {
    }
  }

  /** The lots come in the order in which the request first names each of them, numbered
      from 0 on. */
  lemma {:induction false} AttachedInOrder(raw: seq<RawId>, i: nat, j: nat)
    requires i < j < |Attached(raw)|
    ensures Attached(raw)[i].sortOrder == i && Attached(raw)[j].sortOrder == j
    ensures var a, b := Uuid(Attached(raw)[i].lot, 0), Uuid(Attached(raw)[j].lot, 0);
            a in raw && b in raw && FirstIndex(raw, a) < FirstIndex(raw, b)
  {
    NamedInOrder(raw, i, j);
  }

  lemma {:induction false} NamedInOrder(raw: seq<RawId>, i: nat, j: nat)
    requires i < j < |FirstOccurrences(CanonicalIds(raw))|
    ensures var ids := FirstOccurrences(CanonicalIds(raw));
            var a, b := Uuid(ids[i], 0), Uuid(ids[j], 0);
            a in raw && b in raw && FirstIndex(raw, a) < FirstIndex(raw, b)
  {
    var n := |raw| - 1;
    assert raw[..n + 1] == raw;
    OneMoreId(raw, n);
    var ids, before := FirstOccurrences(CanonicalIds(raw)), FirstOccurrences(CanonicalIds(raw[..n]));
    NamedBefore(raw[..n], i);
    FirstIndexInPrefix(raw, n, Uuid(ids[i], 0));
    if j < |before| {
      NamedInOrder(raw[..n], i, j);
      FirstIndexInPrefix(raw, n, Uuid(ids[j], 0));
    } else {
      assert raw[n] == Uuid(ids[j], 0);
      LastIsFirst(raw);
    }
  }

  lemma NamedBefore(raw: seq<RawId>, i: nat)
    requires i < |FirstOccurrences(CanonicalIds(raw))|
    ensures Uuid(FirstOccurrences(CanonicalIds(raw))[i], 0) in raw
  {
    var ids := FirstOccurrences(CanonicalIds(raw));
    FirstOccurrencesAreTheMembers(CanonicalIds(raw));
    assert ids[i] in ids;
    CanonicalIdsMembers(raw, ids[i]);
  }

  /** For ids in their canonical spelling a permitted call succeeds exactly when every one
      is attachable, and attaches exactly those lots, each once. */
  lemma CanonicalIdsAreAttached(lots: seq<Lot>, business: nat, member: Member, raw: seq<RawId>)
    requires forall r :: r in raw && NotNull(r) ==> Canonical(r)
    requires member == Member(business, true)
    ensures Refusal(lots, business, member, raw).None? <==>
              (forall id: nat :: Uuid(id, 0) in raw ==> id < |lots| && lots[id] == Lot(business, false))
    ensures forall j, k :: 0 <= j < k < |Attached(raw)| ==> Attached(raw)[j].lot != Attached(raw)[k].lot
    ensures forall id: nat :: (exists k: nat :: k < |Attached(raw)| && Attached(raw)[k].lot == id)
              <==> Uuid(id, 0) in raw
  {
    if Refusal(lots, business, member, raw).Some? {
      var r :| r in raw && r.Uuid? && !Attachable(lots, business, r.id);
      assert r == Uuid(r.id, 0);
    }
    FirstOccurrencesAreTheMembers(CanonicalIds(raw));
    AttachedMembers(raw);
  }

  lemma AttachedMembers(raw: seq<RawId>)
    ensures forall id: nat :: (exists k: nat :: k < |Attached(raw)| && Attached(raw)[k].lot == id)
              <==> Uuid(id, 0) in raw
  {
    var ids := FirstOccurrences(CanonicalIds(raw));
    FirstOccurrencesAreTheMembers(CanonicalIds(raw));
    forall id: nat
      ensures (exists k: nat :: k < |Attached(raw)| && Attached(raw)[k].lot == id) <==> Uuid(id, 0) in raw
    {
      CanonicalIdsMembers(raw, id);
      if id in ids {
        var k :| 0 <= k < |ids| && ids[k] == id;
        assert Attached(raw)[k].lot == id;
      }
    }
  }

  /** A successful call attached every lot it was asked for exactly when all the ids were
      spelled canonically: the others are dropped without an error. */
  lemma NothingDroppedIff(lots: seq<Lot>, business: nat, member: Member, raw: seq<RawId>)
    requires Refusal(lots, business, member, raw).None?
    ensures (forall r :: r in raw && r.Uuid? ==> exists k: nat :: k < |Attached(raw)| && Attached(raw)[k].lot == r.id)
       <==> (forall r :: r in raw && NotNull(r) ==> Canonical(r))
  {
    AttachedMembers(raw);
    forall r | r in raw && r.Uuid?
      ensures (exists k: nat :: k < |Attached(raw)| && Attached(raw)[k].lot == r.id) <==> Canonical(r)
    {
      if Uuid(r.id, 0) in raw {
        assert r == Uuid(r.id, 0);
      }
    }
  }

  /** A crafted request can look as if it worked: one owned lot in upper case is accepted
      and leaves the catalog empty. */
  lemma AnAcceptedRequestCanAttachNothing()
    ensures var raw, lots := [Uuid(0, 1)], [Lot(7, false)];
            Refusal(lots, 7, Member(7, true), raw).None? && Attached(raw) == []
  {
    assert CanonicalIds([Uuid(0, 1)][..0]) == [];
  }

  class CustomCatalog {
    const business: nat
    var items: seq<Item>

    /** `uniq_lot_per_custom_catalog`, and positions without gaps. */
    ghost predicate Valid()
      reads this
    {
      && (forall i, j :: 0 <= i < j < |items| ==> items[i].lot != items[j].lot)
      && (forall i :: 0 <= i < |items| ==> items[i].sortOrder == i)
    }

    constructor (business: nat)
      ensures Valid() && this.business == business && items == []
    {
      this.business, items := business, [];
    }

    /** The loop that keeps the caller's order, since the query does not. */
    method KeepFirst(requested: seq<RawId>, owned: set<nat>) returns (validIds: seq<nat>)
      requires forall r :: r in requested && r.Uuid? ==> r.id in owned
      ensures validIds == FirstOccurrences(CanonicalIds(requested))
    {
      validIds := [];
      var seen: set<RawId> := {};
      for i := 0 to |requested|
        invariant validIds == FirstOccurrences(CanonicalIds(requested[..i]))
        invariant forall r :: r in seen <==> Canonical(r) && r in requested[..i]
      {
        var key := requested[i];
        OneMoreId(requested, i);
        if Canonical(key) && key.id in owned && key !in seen {
          seen := seen + {key};
          validIds := validIds + [key.id];
        }
      }
      assert requested[..|requested|] == requested;
    }

    method SetCatalogLots(lots: seq<Lot>, member: Member, raw: seq<RawId>) returns (err: Option<CatalogError>)
      requires Valid()
      modifies this`items
      ensures Valid()
      ensures err == Refusal(lots, business, member, raw)
      ensures items == if err.Some? then old(items) else Attached(raw)
    {
      if !member.Member? || !member.managesCatalogs { return Some(NotAllowed); }
      if member.business != business { return Some(WrongBusiness); }
      var requested := Filter(raw, NotNull);
      FilterMembers(raw, NotNull);
      if exists r :: r in requested && r.Malformed? { return Some(MalformedId); }
      assert WellFormed(raw);
      var owned := set r | r in requested && r.Uuid? && Attachable(lots, business, r.id) :: r.id;
      var keys := set r | r in requested;
      CardinalityTest(lots, business, raw, keys, owned);
      if |owned| != |keys| { return Some(ForeignLot); }
      var validIds := KeepFirst(requested, owned);
      CanonicalIgnoresNull(raw);
      FirstOccurrencesAreTheMembers(CanonicalIds(raw));
      items := seq(|validIds|, k requires 0 <= k < |validIds| => Item(validIds[k], k));
      return None;
    }
  }
}
