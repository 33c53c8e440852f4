/** What every run of the posting services keeps: exact running balances, reversals that
    pair up with their originals, and one live trade per offer and business. */
module LedgerInvariant {
  import opened Sequences
  import opened Money
  import opened Ledger
  import CT = Contacts
  import PR = PurchaseRequests

  /** Each running balance is the previous one on that account plus the row's delta. */
  ghost predicate Chained(es: seq<Entry>) {
    es == [] ||
    (var n := |es| - 1;
     && Chained(es[..n])
     && es[n].balanceAfter == LastBalance(es[..n], es[n].business, es[n].contact) + es[n].delta)
  }

  /** A row as the services write it: a positive magnitude moved in one direction, and a
      pointer to an original exactly on reversals. */
  predicate RowOk(e: Entry) {
    && 0 < e.amount < AMOUNT_LIMIT
    && (e.delta == e.amount || e.delta == -e.amount)
    && (if e.kind.Reversal? then e.reverses.Some? && e.reversedAt.None? && e.offer.None?
        else e.reverses.None? && e.delta == e.amount * Direction(e.kind).value)
  }

  /** The chain, row by row. */
  lemma {:induction false} ChainAt(es: seq<Entry>, i: nat)
    requires Chained(es) && i < |es|
    ensures es[i].balanceAfter == LastBalance(es[..i], es[i].business, es[i].contact) + es[i].delta
  {
    var n := |es| - 1;
    if i < n {
      ChainAt(es[..n], i);
      assert es[..n][..i] == es[..i];
    }
  }

  predicate Negates(r: Entry, o: Entry) {
    && r.reverses == Some(o.id) && !o.kind.Reversal?
    && r.business == o.business && r.contact == o.contact
    && r.amount == o.amount && r.delta == -o.delta
  }

  ghost predicate UniqueIds(es: seq<Entry>) {
    forall i, j :: 0 <= i < j < |es| ==> es[i].id != es[j].id
  }

  /** Every reversal points back at an original it negates. */
  ghost predicate PointersOk(es: seq<Entry>) {
    forall i {:trigger NegatesEarlier(es, i)} :: 0 <= i < |es| && es[i].reverses.Some? ==> NegatesEarlier(es, i)
  }

  /** No original is pointed at twice. */
  ghost predicate PointersDistinct(es: seq<Entry>) {
    forall i, j :: 0 <= i < j < |es| && es[i].reverses.Some? ==> es[i].reverses != es[j].reverses
  }

  /** The stamp marks exactly the rows that have a reversal. */
  ghost predicate StampsOk(es: seq<Entry>) {
    forall i {:trigger HasReversal(es, es[i].id)} ::
      0 <= i < |es| ==> (es[i].reversedAt.Some? <==> HasReversal(es, es[i].id))
  }

  /** Reversals are a partial matching of rows, and the stamp records it. */
  ghost predicate Matched(es: seq<Entry>) {
    PointersOk(es) && PointersDistinct(es) && StampsOk(es)
  }

  ghost predicate NegatesEarlier(es: seq<Entry>, i: nat)
    requires i < |es|
  {
    exists j :: 0 <= j < i && Negates(es[i], es[j])
  }

  predicate SameSlot(a: Entry, b: Entry) {
    && a.offer.Some? && a.offer == b.offer && a.business == b.business
    && IsTrade(a.kind) && IsTrade(b.kind) && a.reversedAt.None? && b.reversedAt.None?
  }

  ghost predicate OneLiveTrade(es: seq<Entry>) {
    forall i, j :: 0 <= i < j < |es| ==> !SameSlot(es[i], es[j])
  }

  ghost predicate RowsOk(es: seq<Entry>) {
    forall i :: 0 <= i < |es| ==> RowOk(es[i])
  }

  ghost predicate Sound(es: seq<Entry>) {
    && RowsOk(es)
    && UniqueIds(es)
    && Chained(es)
    && Matched(es)
    && OneLiveTrade(es)
  }

  // ----- The three ways of knowing a balance -----

  function DeltaOn(business: nat, contact: nat): Entry -> int {
    (e: Entry) => if OnAccount(e, business, contact) then e.delta else 0
  }

  predicate IsLive(e: Entry) {
    e.reversedAt.None? && !e.kind.Reversal?
  }

  function LiveDeltaOn(business: nat, contact: nat): Entry -> int {
    (e: Entry) => if OnAccount(e, business, contact) && IsLive(e) then e.delta else 0
  }

  /** The last running balance is the SQL sum of all deltas of the account. */
  lemma {:induction false} BalanceIsSum(es: seq<Entry>, business: nat, contact: nat)
    requires Chained(es)
    ensures LastBalance(es, business, contact) == Sum(es, DeltaOn(business, contact))
  {
    if es != [] {
      BalanceIsSum(es[..|es| - 1], business, contact);
    }
  }

  /** Un-posting the newest reversal: the original gets its stamp back off. */
  function Unreverse(es: seq<Entry>, j: nat): (r: seq<Entry>)
    requires j < |es| - 1
    ensures |r| == |es| - 1
  {
    es[..|es| - 1][j := es[j].(reversedAt := None)]
  }

  lemma UnreverseKeepsPointers(es: seq<Entry>, j: nat)
    requires j < |es| - 1 && PointersOk(es)
    ensures PointersOk(Unreverse(es, j))
  {
    var fs := Unreverse(es, j);
    forall i | 0 <= i < |fs| && fs[i].reverses.Some?
      ensures NegatesEarlier(fs, i)
    {
      assert NegatesEarlier(es, i);
      var m :| 0 <= m < i && Negates(es[i], es[m]);
      assert Negates(fs[i], fs[m]);
    }
  }

  lemma UnreverseKeepsStamp(es: seq<Entry>, j: nat, i: nat)
    requires j < |es| - 1 && i < |es| - 1 && i != j && StampsOk(es) && es[|es| - 1].reverses != Some(es[i].id)
    ensures Unreverse(es, j)[i].reversedAt.Some? <==> HasReversal(Unreverse(es, j), es[i].id)
  {
    var fs := Unreverse(es, j);
    assert forall m :: 0 <= m < |fs| ==> fs[m].reverses == es[m].reverses;
    assert es[i].reversedAt.Some? <==> HasReversal(es, es[i].id);
    if es[i].reversedAt.Some? {
      var m :| 0 <= m < |es| && es[m].reverses == Some(es[i].id);
      assert fs[m].reverses == Some(es[i].id);
    }
  }

  lemma UnreverseFreesOriginal(es: seq<Entry>, j: nat)
    requires j < |es| - 1 && PointersDistinct(es) && es[|es| - 1].reverses == Some(es[j].id)
    ensures !HasReversal(Unreverse(es, j), es[j].id)
  {
    var fs := Unreverse(es, j);
    forall m | 0 <= m < |fs|
      ensures fs[m].reverses != Some(es[j].id)
    {
      assert es[m].reverses.Some? ==> es[m].reverses != es[|es| - 1].reverses;
    }
  }

  lemma UnreverseKeepsMatched(es: seq<Entry>, j: nat)
    requires j < |es| - 1 && UniqueIds(es) && Matched(es) && Negates(es[|es| - 1], es[j])
    ensures UniqueIds(Unreverse(es, j)) && Matched(Unreverse(es, j))
  {
    var fs := Unreverse(es, j);
    UnreverseKeepsPointers(es, j);
    UnreverseFreesOriginal(es, j);
    forall i | 0 <= i < |fs|
      ensures fs[i].reversedAt.Some? <==> HasReversal(fs, fs[i].id)
    {
      if i != j {
        UnreverseKeepsStamp(es, j, i);
      }
    }
  }

  lemma DropPostKeepsMatched(es: seq<Entry>)
    requires es != [] && UniqueIds(es) && Matched(es) && es[|es| - 1].reverses.None?
    ensures UniqueIds(es[..|es| - 1]) && Matched(es[..|es| - 1])
    ensures es[|es| - 1].reversedAt.None?
  {
    var n := |es| - 1;
    assert !HasReversal(es, es[n].id) by {
      assert forall i :: 0 <= i < |es| && es[i].reverses.Some? ==> NegatesEarlier(es, i);
    }
    forall i | 0 <= i < n && es[i].reverses.Some?
      ensures NegatesEarlier(es[..n], i)
    {
      assert NegatesEarlier(es, i);
      var m :| 0 <= m < i && Negates(es[i], es[m]);
      assert Negates(es[..n][i], es[..n][m]);
    }
    forall i | 0 <= i < n
      ensures es[i].reversedAt.Some? <==> HasReversal(es[..n], es[i].id)
    {
      assert es[i].reversedAt.Some? <==> HasReversal(es, es[i].id);
      if es[i].reversedAt.Some? {
        var m :| 0 <= m < |es| && es[m].reverses == Some(es[i].id);
        assert es[..n][m].reverses == Some(es[i].id);
      }
    }
  }

  lemma UnreverseSums(es: seq<Entry>, j: nat, business: nat, contact: nat)
    requires j < |es| - 1 && Negates(es[|es| - 1], es[j]) && es[|es| - 1].kind.Reversal? && es[j].reversedAt.Some?
    ensures var money := DeltaOn(business, contact)(es[j]);
            && Sum(es, DeltaOn(business, contact)) == Sum(Unreverse(es, j), DeltaOn(business, contact)) - money
            && Sum(es, LiveDeltaOn(business, contact)) == Sum(Unreverse(es, j), LiveDeltaOn(business, contact)) - money
  {
    var n := |es| - 1;
    SumUpdate(es[..n], j, Unreverse(es, j)[j], LiveDeltaOn(business, contact));
    SumUpdate(es[..n], j, Unreverse(es, j)[j], DeltaOn(business, contact));
  }

  /** Dropping reversed rows and their reversals drops no money: the live deltas and all
      deltas of an account sum to the same balance. */
  lemma {:induction false} LiveSumIsSum(es: seq<Entry>, business: nat, contact: nat)
    requires UniqueIds(es) && Matched(es)
    requires forall i :: 0 <= i < |es| ==> (es[i].kind.Reversal? <==> es[i].reverses.Some?)
    ensures Sum(es, LiveDeltaOn(business, contact)) == Sum(es, DeltaOn(business, contact))
    decreases |es|
  {
    if es != [] {
      var n := |es| - 1;
      if es[n].reverses.None? {
        DropPostKeepsMatched(es);
        LiveSumIsSum(es[..n], business, contact);
      } else {
        assert NegatesEarlier(es, n);
        var j :| 0 <= j < n && Negates(es[n], es[j]);
        UnreverseKeepsMatched(es, j);
        assert HasReversal(es, es[j].id);
        UnreverseSums(es, j, business, contact);
        LiveSumIsSum(Unreverse(es, j), business, contact);
      }
    }
  }

  /** Last running balance, sum of all deltas and sum of live deltas agree. */
  lemma ThreeBalancesAgree(es: seq<Entry>, business: nat, contact: nat)
    requires Sound(es)
    ensures LastBalance(es, business, contact) == Sum(es, DeltaOn(business, contact))
    ensures LastBalance(es, business, contact) == Sum(es, LiveDeltaOn(business, contact))
  {
    BalanceIsSum(es, business, contact);
    forall i | 0 <= i < |es|
      ensures es[i].kind.Reversal? <==> es[i].reverses.Some?
    {
      assert RowOk(es[i]);
    }
    LiveSumIsSum(es, business, contact);
  }

  // ----- Posting keeps the books sound -----

  lemma {:induction false} AppendKeepsMatched(es: seq<Entry>, row: Entry)
    requires UniqueIds(es) && Matched(es) && !HasId(es, row.id) && row.reverses.None? && row.reversedAt.None?
    ensures UniqueIds(es + [row]) && Matched(es + [row])
  {
    var fs := es + [row];
    forall i | 0 <= i < |fs| && fs[i].reverses.Some?
      ensures NegatesEarlier(fs, i)
    {
      assert NegatesEarlier(es, i);
      var m :| 0 <= m < i && Negates(es[i], es[m]);
      assert Negates(fs[i], fs[m]);
    }
    forall i | 0 <= i < |fs|
      ensures fs[i].reversedAt.Some? <==> HasReversal(fs, fs[i].id)
    {
      if i < |es| {
        if HasReversal(es, es[i].id) {
          var m :| 0 <= m < |es| && es[m].reverses == Some(es[i].id);
          assert fs[m].reverses == Some(es[i].id);
        }
      }
    }
  }

  lemma AppendChains(es: seq<Entry>, row: Entry)
    requires Chained(es) && row.balanceAfter == LastBalance(es, row.business, row.contact) + row.delta
    ensures Chained(es + [row])
  {
    assert (es + [row])[..|es|] == es;
  }

  lemma PostKeepsSound(es: seq<Entry>, row: Entry)
    requires Sound(es) && RowOk(row) && !row.kind.Reversal? && row.reversedAt.None?
    requires row.balanceAfter == LastBalance(es, row.business, row.contact) + row.delta
    requires InsertError(es, row).None?
    ensures Sound(es + [row])
  {
    AppendKeepsMatched(es, row);
    AppendChains(es, row);
    var fs := es + [row];
    forall i, j | 0 <= i < j < |fs|
      ensures !SameSlot(fs[i], fs[j])
    {
      if j == |es| && SameSlot(fs[i], row) {
        assert Occupies(es[i], row.business, row.offer.value);
      }
    }
  }

  lemma {:induction false} StampKeepsBalances(es: seq<Entry>, k: nat, now: int, business: nat, contact: nat)
    requires k < |es|
    ensures LastBalance(Stamp(es, k, now), business, contact) == LastBalance(es, business, contact)
    ensures Chained(es) ==> Chained(Stamp(es, k, now))
  {
    var n := |es| - 1;
    var fs := Stamp(es, k, now);
    if k < n {
      assert fs[..n] == Stamp(es[..n], k, now);
      StampKeepsBalances(es[..n], k, now, business, contact);
      StampKeepsBalances(es[..n], k, now, es[n].business, es[n].contact);
    } else {
      assert fs[..n] == es[..n];
    }
  }

  lemma StampIds(es: seq<Entry>, k: nat, now: int, id: nat)
    requires k < |es|
    ensures HasId(Stamp(es, k, now), id) <==> HasId(es, id)
  {
    var fs := Stamp(es, k, now);
    assert forall i :: 0 <= i < |es| ==> fs[i].id == es[i].id;
    if HasId(es, id) {
      var i :| 0 <= i < |es| && es[i].id == id;
      assert fs[i].id == id;
    }
  }

  lemma ReverseKeepsPointers(es: seq<Entry>, k: nat, now: int, row: Entry)
    requires PointersOk(es) && PointersDistinct(es) && k < |es| && !HasReversal(es, es[k].id) && Negates(row, es[k])
    ensures PointersOk(Stamp(es, k, now) + [row]) && PointersDistinct(Stamp(es, k, now) + [row])
  {
    var fs := Stamp(es, k, now) + [row];
    forall i | 0 <= i < |fs| && fs[i].reverses.Some?
      ensures NegatesEarlier(fs, i)
    {
      if i < |es| {
        assert NegatesEarlier(es, i);
        var m :| 0 <= m < i && Negates(es[i], es[m]);
        assert Negates(fs[i], fs[m]);
      } else {
        assert Negates(fs[i], fs[k]);
      }
    }
  }

  lemma ReverseKeepsStamp(es: seq<Entry>, k: nat, now: int, row: Entry, i: nat)
    requires StampsOk(es) && k < |es| && i < |es| && i != k && row.reverses != Some(es[i].id)
    ensures var fs := Stamp(es, k, now) + [row];
            fs[i].reversedAt.Some? <==> HasReversal(fs, es[i].id)
  {
    var fs := Stamp(es, k, now) + [row];
    assert forall m :: 0 <= m < |es| ==> fs[m].reverses == es[m].reverses;
    if HasReversal(es, es[i].id) {
      var m :| 0 <= m < |es| && es[m].reverses == Some(es[i].id);
      assert fs[m].reverses == Some(es[i].id);
    }
  }

  lemma ReverseKeepsStamps(es: seq<Entry>, k: nat, now: int, row: Entry)
    requires UniqueIds(es) && PointersOk(es) && StampsOk(es) && k < |es| && !HasId(es, row.id)
    requires Negates(row, es[k]) && row.reversedAt.None?
    ensures StampsOk(Stamp(es, k, now) + [row])
  {
    var fs := Stamp(es, k, now) + [row];
    forall i | 0 <= i < |fs|
      ensures fs[i].reversedAt.Some? <==> HasReversal(fs, fs[i].id)
    {
      if i == k {
        assert fs[|es|].reverses == Some(fs[k].id);
      } else if i < |es| {
        ReverseKeepsStamp(es, k, now, row, i);
      } else {
        assert forall m :: 0 <= m < |es| && es[m].reverses.Some? ==> NegatesEarlier(es, m);
      }
    }
  }

  lemma ReverseKeepsMatched(es: seq<Entry>, k: nat, now: int, row: Entry)
    requires UniqueIds(es) && Matched(es) && k < |es| && !HasReversal(es, es[k].id) && !HasId(es, row.id)
    requires Negates(row, es[k]) && row.reversedAt.None?
    ensures UniqueIds(Stamp(es, k, now) + [row]) && Matched(Stamp(es, k, now) + [row])
  {
    ReverseKeepsPointers(es, k, now, row);
    ReverseKeepsStamps(es, k, now, row);
  }

  lemma ReverseKeepsRows(es: seq<Entry>, k: nat, now: int, row: Entry)
    requires RowsOk(es) && OneLiveTrade(es) && k < |es| && !es[k].kind.Reversal? && RowOk(row) && row.kind.Reversal?
    ensures RowsOk(Stamp(es, k, now) + [row]) && OneLiveTrade(Stamp(es, k, now) + [row])
  {
    var fs := Stamp(es, k, now) + [row];
    forall i | 0 <= i < |fs|
      ensures RowOk(fs[i])
    {
      assert i < |es| ==> RowOk(es[i]);
    }
    forall i, j | 0 <= i < j < |fs|
      ensures !SameSlot(fs[i], fs[j])
    {
      assert j < |es| ==> !SameSlot(es[i], es[j]);
    }
  }

  lemma ReverseKeepsChain(es: seq<Entry>, k: nat, now: int, row: Entry)
    requires Chained(es) && k < |es|
    requires row.balanceAfter == LastBalance(es, row.business, row.contact) + row.delta
    ensures Chained(Stamp(es, k, now) + [row])
  {
    StampKeepsBalances(es, k, now, row.business, row.contact);
    AppendChains(Stamp(es, k, now), row);
  }

  lemma ReverseKeepsSound(es: seq<Entry>, k: nat, now: int, row: Entry)
    requires Sound(es) && k < |es| && !HasReversal(es, es[k].id) && Negates(row, es[k])
    requires RowOk(row) && row.kind.Reversal? && !HasId(es, row.id)
    requires row.balanceAfter == LastBalance(es, row.business, row.contact) + row.delta
    ensures Sound(Stamp(es, k, now) + [row])
  {
    ReverseKeepsMatched(es, k, now, row);
    ReverseKeepsChain(es, k, now, row);
    ReverseKeepsRows(es, k, now, row);
  }

  lemma PostedRowFits(b: Books, p: Posting)
    requires PostEntry(b, p).Ok?
    ensures var row := PostEntry(b, p).value;
            && RowOk(row) && !row.kind.Reversal? && row.reversedAt.None? && InsertError(b.entries, row).None?
            && row.balanceAfter == LastBalance(b.entries, row.business, row.contact) + row.delta
  {
  }

  lemma ReversalRowFits(b: Books, r: Reversing)
    requires RowsOk(b.entries) && ReverseEntry(b, r).Ok?
    ensures var row := ReverseEntry(b, r).value;
            var k := IndexOf(b.entries, r.entry);
            && RowOk(row) && row.kind.Reversal? && !HasId(b.entries, row.id)
            && k < |b.entries| && Negates(row, b.entries[k]) && !HasReversal(b.entries, b.entries[k].id)
            && row.balanceAfter == LastBalance(b.entries, row.business, row.contact) + row.delta
  {
    var k := IndexOf(b.entries, r.entry);
    assert RowOk(b.entries[k]);
    assert forall i :: 0 <= i < |b.entries| ==> Stamp(b.entries, k, r.now)[i].id == b.entries[i].id;
  }

  /** An accepted verdict is a row the invariant lets in. */
  lemma AcceptedKeepsSound(b: Books, op: Op)
    requires Sound(b.entries) && Verdict(b, op).Ok?
    ensures Sound(Accepted(b.entries, op, Verdict(b, op).value))
  {
    var row := Verdict(b, op).value;
    match op
    case Post(p) =>
      PostedRowFits(b, p);
      PostKeepsSound(b.entries, row);
    case PostTrade(p) =>
      PostedRowFits(b, p);
      PostKeepsSound(b.entries, row);
    case Reverse(r) =>
      ReversalRowFits(b, r);
      ReverseKeepsSound(b.entries, IndexOf(b.entries, r.entry), r.now, row);
    case _ =>
  }

  /** Posted rows are immutable: later calls append rows, and an old row at most gains a
      stamp. No amount, delta, balance, date or owner of a posted row ever changes. */
  ghost predicate OnlyGrows(b: Books, c: Books) {
    && CT.Extends(b.contacts, c.contacts)
    && |b.entries| <= |c.entries|
    && (forall i :: 0 <= i < |b.entries| ==> SameButStamp(b.entries[i], c.entries[i]))
  }

  predicate SameButStamp(e: Entry, f: Entry) {
    f == e.(reversedAt := f.reversedAt) && (e.reversedAt.Some? ==> f == e)
  }

  /** Every row belongs to the business that owns its contact. */
  ghost predicate Owned(b: Books) {
    forall i :: 0 <= i < |b.entries| ==>
      b.entries[i].contact < |b.contacts| && b.contacts[b.entries[i].contact].business == b.entries[i].business
  }

  ghost predicate Valid(b: Books) {
    Sound(b.entries) && Owned(b) && CT.LinksUnique(b.contacts) && PR.Consistent(b.desk)
  }

  lemma AcceptedGrows(b: Books, op: Op)
    requires Owned(b) && Verdict(b, op).Ok?
    ensures Owned(b.(entries := Accepted(b.entries, op, Verdict(b, op).value)))
    ensures OnlyGrows(b, b.(entries := Accepted(b.entries, op, Verdict(b, op).value)))
  {
    var row := Verdict(b, op).value;
    var es := Accepted(b.entries, op, row);
    assert |es| == |b.entries| + 1 && es[|b.entries|] == row;
    forall i | 0 <= i < |b.entries|
      ensures SameButStamp(b.entries[i], es[i])
    {}
    match op
    case Reverse(r) => assert b.entries[IndexOf(b.entries, r.entry)].contact == row.contact;
    case _ =>
  }

  lemma PostingKeepsValid(b: Books, op: Op)
    requires Valid(b) && Verdict(b, op).Ok?
    ensures Valid(Apply(b, op)) && OnlyGrows(b, Apply(b, op))
  {
    AcceptedKeepsSound(b, op);
    AcceptedGrows(b, op);
  }

  lemma OfferCallKeepsValid(b: Books, call: PR.Call, businesses: set<nat>)
    requires Valid(b)
    ensures Valid(Apply(b, OfferCall(call, businesses))) && OnlyGrows(b, Apply(b, OfferCall(call, businesses)))
    ensures PR.Preserves(b.desk, Apply(b, OfferCall(call, businesses)).desk)
  {
    PR.StepKeeps(b.desk, call, businesses);
  }

  lemma ContactCallKeepsValid(b: Books, call: CT.Call, businesses: set<nat>)
    requires Valid(b)
    ensures Valid(Apply(b, ContactCall(call, businesses))) && OnlyGrows(b, Apply(b, ContactCall(call, businesses)))
  {
    CT.StepKeeps(b.contacts, call, businesses);
  }

  lemma StepKeepsValid(b: Books, op: Op)
    requires Valid(b)
    ensures Valid(Apply(b, op)) && OnlyGrows(b, Apply(b, op)) && PR.Preserves(b.desk, Apply(b, op).desk)
  {
    match op
    case OfferCall(call, businesses) => OfferCallKeepsValid(b, call, businesses);
    case ContactCall(call, businesses) => ContactCallKeepsValid(b, call, businesses);
    case _ =>
      if Verdict(b, op).Ok? {
        PostingKeepsValid(b, op);
      }
  }

  /** Every run from valid books ends in valid books, with history untouched. */
  lemma {:induction false} EveryRunIsValid(b: Books, ops: seq<Op>, c: Books)
    requires Valid(b) && Reaches(b, ops, c)
    ensures Valid(c) && OnlyGrows(b, c)
    decreases |ops|
  {
    if ops != [] {
      StepKeepsValid(b, ops[0]);
      var d := Apply(b, ops[0]);
      EveryRunIsValid(d, ops[1..], c);
      forall i | 0 <= i < |b.entries|
        ensures SameButStamp(b.entries[i], c.entries[i])
      {
        assert SameButStamp(b.entries[i], d.entries[i]) && SameButStamp(d.entries[i], c.entries[i]);
      }
    }
  }

  lemma EmptyBooksAreValid()
    ensures Valid(Books([], [], PR.Tables([], [])))
  {
  }

  // ----- The slot of an offer -----

  /** Reversing the live trade of an offer frees its slot: a corrected trade with a fresh
      id and a fitting balance is then accepted, on any contact of the business. */
  lemma ReversalFreesTheSlot(b: Books, r: Reversing, p: Posting)
    requires Valid(b) && ReverseEntry(b, r).Ok? && p.offer.Some?
    requires Occupies(b.entries[IndexOf(b.entries, r.entry)], p.business, p.offer.value)
    ensures var c := Apply(b, Reverse(r));
            && !SlotTaken(c.entries, p.business, p.offer.value)
            && (TradeRefusal(c, p).None? && PostRefusal(c, p).None? && !HasId(c.entries, p.id) ==>
                  var row := PostedRow(p, LastBalance(c.entries, p.business, p.contact));
                  (PostTradeEntry(c, p).Ok? <==>
                     (row.amount < AMOUNT_LIMIT && -BALANCE_LIMIT < row.balanceAfter < BALANCE_LIMIT)))
  {
    var c := Apply(b, Reverse(r));
    var k := IndexOf(b.entries, r.entry);
    forall i | 0 <= i < |c.entries|
      ensures !Occupies(c.entries[i], p.business, p.offer.value)
    {
      assert i < k ==> !SameSlot(b.entries[i], b.entries[k]);
      assert k < i < |b.entries| ==> !SameSlot(b.entries[k], b.entries[i]);
    }
  }

  /** A trade for an offer whose slot is taken is refused as a duplicate of the live
      trade, and the books stay as they were. */
  lemma DuplicateLeavesBooksUnchanged(b: Books, p: Posting)
    requires PR.References(b.desk) && TradeRefusal(b, p).None? && p.offer.Some?
    requires SlotTaken(b.entries, p.business, p.offer.value)
    ensures Apply(b, PostTrade(p)) == b
    ensures exists i :: && 0 <= i < |b.entries| && Occupies(b.entries[i], p.business, p.offer.value)
                        && PostTradeEntry(b, p) == Err(Duplicate(Some(b.entries[i].id)))
  {
    var k := TradeEntryForOffer(b.entries, p.business, p.offer.value);
    assert Occupies(b.entries[k], p.business, p.offer.value);
  }

  // ----- Digits -----

  function On(business: nat, contact: nat): Entry -> bool {
    (e: Entry) => OnAccount(e, business, contact)
  }

  /** An account with fewer than 10^4 rows, whatever the size of the table. */
  predicate IsSmall(es: seq<Entry>, business: nat, contact: nat) {
    |Filter(es, On(business, contact))| < 10_000
  }

  /** An account of fewer than 10^4 rows of column-sized amounts keeps its running balance
      inside 18 digits: the numeric overflow is never the reason a posting on it fails. */
  lemma BalancesFit(es: seq<Entry>, business: nat, contact: nat, delta: int)
    requires RowsOk(es) && Chained(es) && IsSmall(es, business, contact) && -AMOUNT_LIMIT < delta < AMOUNT_LIMIT
    ensures -BALANCE_LIMIT < LastBalance(es, business, contact) + delta < BALANCE_LIMIT
  {
    var rows := Filter(es, On(business, contact));
    var w := DeltaOn(business, contact);
    BalanceIsSum(es, business, contact);
    SumFilter(es, On(business, contact), w, w);
    FilterMembers(es, On(business, contact));
    forall i | 0 <= i < |rows|
      ensures 0 - (AMOUNT_LIMIT - 1) <= w(rows[i]) <= AMOUNT_LIMIT - 1
    {
      assert rows[i] in rows;
    }
    SumBounds(rows, w, AMOUNT_LIMIT - 1);
    assert |rows| * (AMOUNT_LIMIT - 1) <= 9_999 * (AMOUNT_LIMIT - 1);
  }

  lemma {:induction false} SameAccountRows(es: seq<Entry>, fs: seq<Entry>, business: nat, contact: nat)
    requires |es| <= |fs| && forall i :: 0 <= i < |es| ==> SameButStamp(es[i], fs[i])
    ensures |Filter(es, On(business, contact))| <= |Filter(fs, On(business, contact))|
    decreases |fs|
  {
    if |fs| > |es| {
      SameAccountRows(es, fs[..|fs| - 1], business, contact);
    } else if es != [] {
      assert SameButStamp(es[|es| - 1], fs[|es| - 1]);
      SameAccountRows(es[..|es| - 1], fs[..|es| - 1], business, contact);
    }
  }

  /** Accounts only grow: an account that ends small was small all along. */
  lemma SmallAllAlong(b: Books, c: Books, business: nat, contact: nat)
    requires OnlyGrows(b, c) && IsSmall(c.entries, business, contact)
    ensures IsSmall(b.entries, business, contact)
  {
    SameAccountRows(b.entries, c.entries, business, contact);
  }
}
