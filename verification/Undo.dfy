/** A reversal is a true undo: afterwards every report reads as if the entry had never
    been posted. "Never posted" is a history, not a formula: the run without the post. */
module Undo {
  import opened Sequences
  import opened Money
  import opened Ledger
  import opened Aging
  import opened Reports
  import PR = PurchaseRequests
  import Inv = LedgerInvariant

  // ----- The books without one of their rows -----

  /** A later row as it would read had `x` not been posted before it. */
  function Rebased(e: Entry, x: Entry): Entry {
    if OnAccount(e, x.business, x.contact) then e.(balanceAfter := e.balanceAfter - x.delta) else e
  }

  function Without(es: seq<Entry>, k: nat): (r: seq<Entry>)
    requires k < |es|
    ensures |r| == |es| - 1
  {
    var n := |es| - 1;
    if k == n then es[..n] else Without(es[..n], k) + [Rebased(es[n], es[k])]
  }

  lemma {:induction false} WithoutBalance(es: seq<Entry>, k: nat, business: nat, contact: nat)
    requires k < |es| && Inv.Chained(es)
    ensures LastBalance(Without(es, k), business, contact)
            == LastBalance(es, business, contact) - if OnAccount(es[k], business, contact) then es[k].delta else 0
  {
    var n := |es| - 1;
    if k < n {
      WithoutBalance(es[..n], k, business, contact);
      assert Without(es, k)[..n - 1] == Without(es[..n], k);
    }
  }

  lemma {:induction false} WithoutChained(es: seq<Entry>, k: nat)
    requires k < |es| && Inv.Chained(es)
    ensures Inv.Chained(Without(es, k))
  {
    var n := |es| - 1;
    if k < n {
      WithoutChained(es[..n], k);
      WithoutBalance(es[..n], k, es[n].business, es[n].contact);
      assert Without(es, k)[..n - 1] == Without(es[..n], k);
    }
  }

  /** Where a row of the smaller books sits in the full ones, and back. */
  function Up(i: nat, k: nat): nat {
    if i < k then i else i + 1
  }

  function Down(i: nat, k: nat): nat
    requires i != k
  {
    if i < k then i else i - 1
  }

  lemma {:induction false} WithoutAt(es: seq<Entry>, k: nat, u: nat)
    requires k < |es| && u < |es| && u != k
    ensures Without(es, k)[Down(u, k)] == if u < k then es[u] else Rebased(es[u], es[k])
  {
    var n := |es| - 1;
    if k < n && u < n {
      WithoutAt(es[..n], k, u);
    }
  }

  predicate SameButBalance(e: Entry, f: Entry) {
    f == e.(balanceAfter := f.balanceAfter)
  }

  /** Every row of the smaller books is a row of the full ones, running balance aside. */
  lemma WithoutFrom(es: seq<Entry>, k: nat, i: nat)
    requires k < |es| && i < |es| - 1
    ensures SameButBalance(es[Up(i, k)], Without(es, k)[i])
  {
    WithoutAt(es, k, Up(i, k));
  }

  lemma WithoutPointers(es: seq<Entry>, k: nat)
    requires k < |es| && Inv.PointersOk(es) && !HasReversal(es, es[k].id)
    ensures Inv.PointersOk(Without(es, k))
  {
    var fs := Without(es, k);
    forall i | 0 <= i < |fs| && fs[i].reverses.Some?
      ensures Inv.NegatesEarlier(fs, i)
    {
      var u := Up(i, k);
      WithoutFrom(es, k, i);
      assert Inv.NegatesEarlier(es, u);
      var m :| 0 <= m < u && Inv.Negates(es[u], es[m]);
      assert m != k;
      WithoutAt(es, k, m);
      assert Inv.Negates(fs[i], fs[Down(m, k)]);
    }
  }

  lemma WithoutReversal(es: seq<Entry>, k: nat, id: nat)
    requires k < |es| && es[k].reverses != Some(id)
    ensures HasReversal(es, id) <==> HasReversal(Without(es, k), id)
  {
    var fs := Without(es, k);
    if HasReversal(es, id) {
      var m :| 0 <= m < |es| && es[m].reverses == Some(id);
      WithoutAt(es, k, m);
      assert fs[Down(m, k)].reverses == Some(id);
    }
    if HasReversal(fs, id) {
      var m :| 0 <= m < |fs| && fs[m].reverses == Some(id);
      WithoutFrom(es, k, m);
      assert es[Up(m, k)].reverses == Some(id);
    }
  }

  lemma WithoutStamps(es: seq<Entry>, k: nat)
    requires k < |es| && Inv.StampsOk(es) && es[k].reverses.None?
    ensures Inv.StampsOk(Without(es, k))
  {
    var fs := Without(es, k);
    forall i | 0 <= i < |fs|
      ensures fs[i].reversedAt.Some? <==> HasReversal(fs, fs[i].id)
    {
      WithoutFrom(es, k, i);
      WithoutReversal(es, k, fs[i].id);
    }
  }

  lemma WithoutRows(es: seq<Entry>, k: nat)
    requires k < |es| && Inv.RowsOk(es) && Inv.UniqueIds(es) && Inv.PointersDistinct(es) && Inv.OneLiveTrade(es)
    ensures Inv.RowsOk(Without(es, k)) && Inv.UniqueIds(Without(es, k)) && Inv.PointersDistinct(Without(es, k))
    ensures Inv.OneLiveTrade(Without(es, k))
  {
    var fs := Without(es, k);
    forall i | 0 <= i < |fs|
      ensures Inv.RowOk(fs[i])
    {
      WithoutFrom(es, k, i);
      assert Inv.RowOk(es[Up(i, k)]);
    }
    forall i, j | 0 <= i < j < |fs|
      ensures fs[i].id != fs[j].id && !Inv.SameSlot(fs[i], fs[j])
                && (fs[i].reverses.Some? ==> fs[i].reverses != fs[j].reverses)
    {
      WithoutFrom(es, k, i);
      WithoutFrom(es, k, j);
      assert !Inv.SameSlot(es[Up(i, k)], es[Up(j, k)]);
    }
  }

  /** Taking out an original that was never reversed leaves sound books: exactly those
      the services would have built without it. */
  lemma WithoutIsSound(es: seq<Entry>, k: nat)
    requires k < |es| && Inv.Sound(es) && !es[k].kind.Reversal? && !HasReversal(es, es[k].id)
    ensures Inv.Sound(Without(es, k))
  {
    assert Inv.RowOk(es[k]);
    WithoutChained(es, k);
    WithoutPointers(es, k);
    WithoutStamps(es, k);
    WithoutRows(es, k);
  }

  // ----- Books with the same money -----

  /** A quantity a report adds up: it ignores running balances and dead rows. */
  ghost predicate LiveWeight(w: Entry -> int) {
    && (forall e: Entry, v: int :: w(e.(balanceAfter := v)) == w(e))
    && (forall e: Entry :: !Inv.IsLive(e) ==> w(e) == 0)
  }

  ghost predicate SameMoney(es: seq<Entry>, fs: seq<Entry>) {
    && (forall b, c :: LastBalance(es, b, c) == LastBalance(fs, b, c))
    && (forall w: Entry -> int :: LiveWeight(w) ==> Sum(es, w) == Sum(fs, w))
  }

  function Occupying(business: nat, offer: nat): Entry -> int {
    (e: Entry) => if Occupies(e, business, offer) then 1 else 0
  }

  lemma {:induction false} SlotTakenIsACount(es: seq<Entry>, business: nat, offer: nat)
    ensures Sum(es, Occupying(business, offer)) >= 0
    ensures SlotTaken(es, business, offer) <==> Sum(es, Occupying(business, offer)) > 0
  {
    if es != [] {
      var n := |es| - 1;
      SlotTakenIsACount(es[..n], business, offer);
      if SlotTaken(es, business, offer) && !Occupies(es[n], business, offer) {
        var i :| 0 <= i < |es| && Occupies(es[i], business, offer);
        assert Occupies(es[..n][i], business, offer);
      }
    }
  }

  lemma SameSums(es: seq<Entry>, fs: seq<Entry>, business: nat, contact: nat, w: Entry -> int)
    requires SameMoney(es, fs) && forall e: Entry, v: int :: w(e.(balanceAfter := v)) == w(e)
    ensures Sum(LiveEntriesOf(es, business, contact), w) == Sum(LiveEntriesOf(fs, business, contact), w)
  {
    LiveSum(es, business, contact, w);
    LiveSum(fs, business, contact, w);
    assert LiveWeight(OnLive(business, contact, w));
  }

  /** Books with the same money give the same reports: balance, every aging bucket, and
      which offers count as recorded. */
  lemma SameMoneySameReports(es: seq<Entry>, fs: seq<Entry>, business: nat, contact: nat, asOf: int, offer: nat)
    requires SameMoney(es, fs)
    ensures LastBalance(es, business, contact) == LastBalance(fs, business, contact)
    ensures AccountAging(es, business, contact, asOf) == AccountAging(fs, business, contact, asOf)
    ensures SlotTaken(es, business, offer) <==> SlotTaken(fs, business, offer)
  {
    SameSums(es, fs, business, contact, Credit());
    SameSums(es, fs, business, contact, Debit());
    SameSums(es, fs, business, contact, OlderDebit(asOf, 30));
    SameSums(es, fs, business, contact, OlderDebit(asOf, 60));
    SameSums(es, fs, business, contact, OlderDebit(asOf, 90));
    assert LiveWeight(Occupying(business, offer));
    SlotTakenIsACount(es, business, offer);
    SlotTakenIsACount(fs, business, offer);
  }

  lemma {:induction false} WithoutSum(es: seq<Entry>, k: nat, w: Entry -> int)
    requires k < |es| && LiveWeight(w)
    ensures Sum(Without(es, k), w) == Sum(es, w) - w(es[k])
  {
    var n := |es| - 1;
    if k < n {
      WithoutSum(es[..n], k, w);
      SumAppend(Without(es[..n], k), Rebased(es[n], es[k]), w);
    }
  }

  /** The books after reversing row `k` and the books without row `k` hold the same money. */
  lemma ReversedIsWithout(es: seq<Entry>, k: nat, now: int, row: Entry)
    requires k < |es| && Inv.Chained(es) && es[k].reversedAt.None?
    requires row.kind.Reversal? && OnAccount(row, es[k].business, es[k].contact)
    requires row.balanceAfter == LastBalance(es, row.business, row.contact) - es[k].delta
    ensures SameMoney(Stamp(es, k, now) + [row], Without(es, k))
  {
    var fs := Stamp(es, k, now) + [row];
    forall b, c
      ensures LastBalance(fs, b, c) == LastBalance(Without(es, k), b, c)
    {
      assert fs[..|es|] == Stamp(es, k, now);
      Inv.StampKeepsBalances(es, k, now, b, c);
      WithoutBalance(es, k, b, c);
    }
    forall w: Entry -> int | LiveWeight(w)
      ensures Sum(fs, w) == Sum(Without(es, k), w)
    {
      SumAppend(Stamp(es, k, now), row, w);
      SumUpdate(es, k, Stamp(es, k, now)[k], w);
      WithoutSum(es, k, w);
    }
  }

  // ----- Histories -----

  predicate IsLiveOriginal(es: seq<Entry>, x: nat) {
    IndexOf(es, x) < |es| && !es[IndexOf(es, x)].kind.Reversal? && !HasReversal(es, x)
  }

  function Erase(b: Books, x: nat): Books
    requires IndexOf(b.entries, x) < |b.entries|
  {
    b.(entries := Without(b.entries, IndexOf(b.entries, x)))
  }

  lemma IndexOfIs(es: seq<Entry>, x: nat, k: nat)
    requires Inv.UniqueIds(es) && k < |es| && es[k].id == x
    ensures IndexOf(es, x) == k
  {
    assert IndexOf(es, x) <= k;
    assert es[IndexOf(es, x)].id == x;
  }

  /** Posting an entry and erasing it again gives back the very books. */
  lemma ErasingTheNewest(b: Books, row: Entry)
    requires Inv.UniqueIds(b.entries + [row])
    ensures IndexOf(b.entries + [row], row.id) == |b.entries|
    ensures Erase(b.(entries := b.entries + [row]), row.id) == b
  {
    IndexOfIs(b.entries + [row], row.id, |b.entries|);
    assert Without(b.entries + [row], |b.entries|) == b.entries;
  }

  /** Reversing entry `x` gives the money of the books without it. */
  lemma ReversalErases(b: Books, r: Reversing)
    requires Inv.Valid(b) && ReverseEntry(b, r).Ok?
    ensures IsLiveOriginal(b.entries, r.entry)
    ensures SameMoney(Apply(b, Reverse(r)).entries, Erase(b, r.entry).entries)
    ensures Inv.Sound(Erase(b, r.entry).entries)
  {
    var k := IndexOf(b.entries, r.entry);
    ReversedIsWithout(b.entries, k, r.now, ReverseEntry(b, r).value);
    WithoutIsSound(b.entries, k);
  }

  /** Does the operation neither touch entry `x` nor end differently without it? */
  ghost predicate Indifferent(b: Books, op: Op, x: nat)
    requires IndexOf(b.entries, x) < |b.entries|
  {
    && !(op.Reverse? && op.r.entry == x)
    && (Verdict(b, op).Ok? <==> Verdict(Erase(b, x), op).Ok?)
  }

  lemma WithoutAppend(es: seq<Entry>, k: nat, row: Entry)
    requires k < |es|
    ensures Without(es + [row], k) == Without(es, k) + [Rebased(row, es[k])]
  {
    assert (es + [row])[..|es|] == es;
  }

  lemma {:induction false} WithoutStamp(es: seq<Entry>, k: nat, j: nat, now: int)
    requires k < |es| && j < |es| && j != k
    ensures Without(Stamp(es, j, now), k) == Stamp(Without(es, k), Down(j, k), now)
  {
    var n := |es| - 1;
    WithoutAt(es, k, j);
    if k == n {
      assert Stamp(es, j, now)[..n] == Stamp(es[..n], j, now);
    } else if j == n {
      assert Stamp(es, j, now)[..n] == es[..n];
    } else {
      WithoutStamp(es[..n], k, j, now);
      assert Stamp(es, j, now)[..n] == Stamp(es[..n], j, now);
    }
  }

  lemma PostVerdict(b: Books, op: Op)
    requires PR.References(b.desk) && (op.Post? || op.PostTrade?) && Verdict(b, op).Ok?
    ensures Direction(op.p.kind).Some? && Quantize(op.p.amount).Some?
    ensures Verdict(b, op).value == PostedRow(op.p, LastBalance(b.entries, op.p.business, op.p.contact))
    ensures Apply(b, op) == b.(entries := b.entries + [Verdict(b, op).value])
  {
  }

  lemma PostErases(b: Books, op: Op, x: nat)
    requires Inv.Valid(b) && IsLiveOriginal(b.entries, x) && (op.Post? || op.PostTrade?) && Verdict(b, op).Ok?
               && Verdict(Erase(b, x), op).Ok?
    ensures Apply(Erase(b, x), op).entries == Without(Apply(b, op).entries, IndexOf(b.entries, x))
  {
    PostVerdict(b, op);
    PostVerdict(Erase(b, x), op);
    PostRebases(b.entries, IndexOf(b.entries, x), op.p);
  }

  lemma PostRebases(es: seq<Entry>, k: nat, p: Posting)
    requires Inv.Chained(es) && k < |es| && Direction(p.kind).Some? && Quantize(p.amount).Some?
    ensures Without(es + [PostedRow(p, LastBalance(es, p.business, p.contact))], k)
         == Without(es, k) + [PostedRow(p, LastBalance(Without(es, k), p.business, p.contact))]
  {
    WithoutBalance(es, k, p.business, p.contact);
    WithoutAppend(es, k, PostedRow(p, LastBalance(es, p.business, p.contact)));
  }

  lemma WithoutIndexOf(es: seq<Entry>, k: nat, id: nat)
    requires k < |es| && Inv.UniqueIds(es) && Inv.UniqueIds(Without(es, k)) && IndexOf(es, id) < |es|
               && IndexOf(es, id) != k
    ensures IndexOf(Without(es, k), id) == Down(IndexOf(es, id), k)
  {
    WithoutAt(es, k, IndexOf(es, id));
    IndexOfIs(Without(es, k), id, Down(IndexOf(es, id), k));
  }

  lemma ReverseValue(b: Books, r: Reversing)
    requires ReverseEntry(b, r).Ok?
    ensures var k := IndexOf(b.entries, r.entry);
            && k < |b.entries|
            && ReverseEntry(b, r).value
               == ReversalRow(r, b.entries[k], LastBalance(b.entries, b.entries[k].business, b.entries[k].contact))
  {
  }

  lemma ReversalRowRebases(es: seq<Entry>, k: nat, j: nat, r: Reversing)
    requires Inv.Chained(es) && k < |es| && j < |es| && j != k
    ensures var o := Without(es, k)[Down(j, k)];
            ReversalRow(r, o, LastBalance(Without(es, k), o.business, o.contact))
            == Rebased(ReversalRow(r, es[j], LastBalance(es, es[j].business, es[j].contact)), es[k])
  {
    WithoutAt(es, k, j);
    WithoutBalance(es, k, es[j].business, es[j].contact);
  }

  /** The reversal of another entry posts the same row, on a balance without `x`. */
  lemma ReverseRebases(b: Books, r: Reversing, x: nat)
    requires Inv.Sound(b.entries) && IsLiveOriginal(b.entries, x) && r.entry != x
    requires ReverseEntry(b, r).Ok? && ReverseEntry(Erase(b, x), r).Ok?
    ensures var k := IndexOf(b.entries, x);
            && IndexOf(b.entries, r.entry) < |b.entries|
            && IndexOf(Without(b.entries, k), r.entry) == Down(IndexOf(b.entries, r.entry), k) < |b.entries| - 1
            && ReverseEntry(Erase(b, x), r).value == Rebased(ReverseEntry(b, r).value, b.entries[k])
  {
    var k := IndexOf(b.entries, x);
    ReverseValue(b, r);
    ReverseValue(Erase(b, x), r);
    WithoutRows(b.entries, k);
    WithoutIndexOf(b.entries, k, r.entry);
    ReversalRowRebases(b.entries, k, IndexOf(b.entries, r.entry), r);
  }

  lemma StampedRowErases(es: seq<Entry>, k: nat, j: nat, now: int, row: Entry)
    requires k < |es| && j < |es| && j != k
    ensures Without(Stamp(es, j, now) + [row], k) == Stamp(Without(es, k), Down(j, k), now) + [Rebased(row, es[k])]
  {
    WithoutStamp(es, k, j, now);
    WithoutAppend(Stamp(es, j, now), k, row);
  }

  lemma ReverseApplied(b: Books, r: Reversing)
    requires PR.References(b.desk) && ReverseEntry(b, r).Ok?
    ensures IndexOf(b.entries, r.entry) < |b.entries|
    ensures Apply(b, Reverse(r)).entries
            == Stamp(b.entries, IndexOf(b.entries, r.entry), r.now) + [ReverseEntry(b, r).value]
  {
  }

  lemma ReverseErases(b: Books, r: Reversing, x: nat)
    requires Inv.Valid(b) && IsLiveOriginal(b.entries, x) && r.entry != x
    requires ReverseEntry(b, r).Ok? && ReverseEntry(Erase(b, x), r).Ok?
    ensures Apply(Erase(b, x), Reverse(r)).entries == Without(Apply(b, Reverse(r)).entries, IndexOf(b.entries, x))
  {
    ReverseRebases(b, r, x);
    ReverseApplied(b, r);
    ReverseApplied(Erase(b, x), r);
    StampedRowErases(b.entries, IndexOf(b.entries, x), IndexOf(b.entries, r.entry), r.now, ReverseEntry(b, r).value);
  }

  /** One step: erasing commutes with any operation that is indifferent to the entry. */
  lemma StepErases(b: Books, op: Op, x: nat)
    requires Inv.Valid(b) && IsLiveOriginal(b.entries, x) && Indifferent(b, op, x)
    ensures IndexOf(Apply(b, op).entries, x) == IndexOf(b.entries, x)
    ensures IsLiveOriginal(Apply(b, op).entries, x)
    ensures Apply(Erase(b, x), op) == Erase(Apply(b, op), x)
  {
    var k := IndexOf(b.entries, x);
    Inv.StepKeepsValid(b, op);
    var c := Apply(b, op);
    assert Inv.SameButStamp(b.entries[k], c.entries[k]);
    IndexOfIs(c.entries, x, k);
    if (op.Post? || op.PostTrade?) && Verdict(b, op).Ok? {
      PostErases(b, op, x);
    } else if op.Reverse? && Verdict(b, op).Ok? {
      ReverseErases(b, op.r, x);
    }
    StillLive(b, op, x);
  }

  lemma StillLive(b: Books, op: Op, x: nat)
    requires Inv.Valid(b) && HasReversal(b.entries, x) == false && !(op.Reverse? && op.r.entry == x)
    ensures !HasReversal(Apply(b, op).entries, x)
  {
    var c := Apply(b, op);
    forall i | 0 <= i < |c.entries|
      ensures c.entries[i].reverses != Some(x)
    {
      assert i < |b.entries| ==> b.entries[i].reverses != Some(x) && c.entries[i].reverses == b.entries[i].reverses;
    }
  }

  ghost predicate AllIndifferent(b: Books, ops: seq<Op>, x: nat)
    decreases |ops|
  {
    ops == [] ||
    (&& PR.References(b.desk) && IndexOf(b.entries, x) < |b.entries|
     && Indifferent(b, ops[0], x) && AllIndifferent(Apply(b, ops[0]), ops[1..], x))
  }

  /** Whole runs: the same operations without the entry lead to the same books without it. */
  lemma {:induction false} RunErases(b: Books, ops: seq<Op>, c: Books, x: nat)
    requires Inv.Valid(b) && IsLiveOriginal(b.entries, x) && AllIndifferent(b, ops, x) && Reaches(b, ops, c)
    ensures IsLiveOriginal(c.entries, x) && Inv.Valid(c) && Reaches(Erase(b, x), ops, Erase(c, x))
    decreases |ops|
  {
    if ops != [] {
      StepErases(b, ops[0], x);
      Inv.StepKeepsValid(b, ops[0]);
      RunErases(Apply(b, ops[0]), ops[1..], c, x);
    }
  }

  lemma FreshIsUnreversed(b: Books, row: Entry)
    requires Inv.Sound(b.entries + [row]) && row.reversedAt.None?
    ensures !HasReversal(b.entries + [row], row.id)
  {
    assert (b.entries + [row])[|b.entries|] == row;
  }

  /** The entry of `p` stands in the books, unreversed. */
  predicate Stands(es: seq<Entry>, p: Posting) {
    && IsLiveOriginal(es, p.id)
    && var e := es[IndexOf(es, p.id)];
       e.business == p.business && e.contact == p.contact && e.offer == p.offer && e.kind == p.kind
  }

  lemma PostedStands(b: Books, p: Posting)
    requires Inv.Valid(b) && PostEntry(b, p).Ok?
    ensures Inv.Valid(Apply(b, Post(p))) && Stands(Apply(b, Post(p)).entries, p)
    ensures |Apply(b, Post(p)).entries| == |b.entries| + 1 && Erase(Apply(b, Post(p)), p.id) == b
  {
    Inv.StepKeepsValid(b, Post(p));
    ErasingTheNewest(b, PostEntry(b, p).value);
    FreshIsUnreversed(b, PostEntry(b, p).value);
  }

  /** Post an entry, let any indifferent history follow, reverse it: balances, aging and
      recorded trades are those of the same history without the post. */
  lemma PostedAndReversedIsNeverPosted(b: Books, p: Posting, ops: seq<Op>, c: Books, r: Reversing)
    requires Inv.Valid(b) && PostEntry(b, p).Ok? && r.entry == p.id
    requires Reaches(Apply(b, Post(p)), ops, c) && AllIndifferent(Apply(b, Post(p)), ops, p.id)
    requires ReverseEntry(c, r).Ok?
    ensures PR.References(c.desk)
    ensures exists d :: Reaches(b, ops, d) && SameMoney(Apply(c, Reverse(r)).entries, d.entries)
  {
    PostedStands(b, p);
    RunErases(Apply(b, Post(p)), ops, c, p.id);
    ReversalErases(c, r);
    assert Reaches(b, ops, Erase(c, p.id));
  }

  predicate Fits(balance: int) {
    -BALANCE_LIMIT < balance < BALANCE_LIMIT
  }

  /** Whether a row goes in does not depend on a row outside its slot, as long as its two
      balances fit alike. */
  lemma InsertIgnores(es: seq<Entry>, k: nat, row: Entry, other: Entry)
    requires k < |es| && row.id != es[k].id && other == row.(balanceAfter := other.balanceAfter)
    requires row.offer.Some? && IsTrade(row.kind) ==> !Occupies(es[k], row.business, row.offer.value)
    requires row.amount < AMOUNT_LIMIT ==> (Fits(row.balanceAfter) <==> Fits(other.balanceAfter))
    ensures InsertError(es, row).None? <==> InsertError(Without(es, k), other).None?
  {
    WithoutHasId(es, k, row.id);
    if row.offer.Some? && IsTrade(row.kind) {
      WithoutSlot(es, k, row.business, row.offer.value);
    }
  }

  lemma {:induction false} WithoutIsSmaller(es: seq<Entry>, k: nat, business: nat, contact: nat)
    requires k < |es|
    ensures |Filter(Without(es, k), Inv.On(business, contact))| <= |Filter(es, Inv.On(business, contact))|
  {
    var n := |es| - 1;
    if k < n {
      WithoutIsSmaller(es[..n], k, business, contact);
      FilterAppend(Without(es[..n], k), Rebased(es[n], es[k]), Inv.On(business, contact));
    }
  }

  /** Any column-sized amount may still be added to the balance or taken from it. */
  predicate Roomy(balance: int) {
    Fits(balance + (AMOUNT_LIMIT - 1)) && Fits(balance - (AMOUNT_LIMIT - 1))
  }

  /** What comes next overflows either both balances or neither. */
  predicate Alike(v: int, w: int) {
    v == w || (Roomy(v) && Roomy(w))
  }

  /** With and without a row the balances of every account are alike, provided the row's own
      account is small: on it both are roomy, and on any other they are the same. */
  lemma BalancesAlike(es: seq<Entry>, k: nat, business: nat, contact: nat)
    requires k < |es| && Inv.IsSmall(es, es[k].business, es[k].contact)
    requires Inv.RowsOk(es) && Inv.Chained(es) && Inv.RowsOk(Without(es, k)) && Inv.Chained(Without(es, k))
    ensures Alike(LastBalance(es, business, contact), LastBalance(Without(es, k), business, contact))
  {
    WithoutBalance(es, k, business, contact);
    if OnAccount(es[k], business, contact) {
      WithoutIsSmaller(es, k, business, contact);
      SmallIsRoomy(es, business, contact);
      SmallIsRoomy(Without(es, k), business, contact);
    }
  }

  lemma SmallIsRoomy(es: seq<Entry>, business: nat, contact: nat)
    requires Inv.RowsOk(es) && Inv.Chained(es) && Inv.IsSmall(es, business, contact)
    ensures Roomy(LastBalance(es, business, contact))
  {
    Inv.BalancesFit(es, business, contact, AMOUNT_LIMIT - 1);
    Inv.BalancesFit(es, business, contact, 1 - AMOUNT_LIMIT);
  }

  /** Whether a posting goes in, on the books with and without a row outside its slot. */
  lemma PostedAlike(es: seq<Entry>, k: nat, p: Posting, v: int, w: int)
    requires k < |es| && es[k].id != p.id && Alike(v, w)
    requires Direction(p.kind).Some? && Quantize(p.amount).Some? && Quantize(p.amount).value > 0
    requires p.offer.Some? && IsTrade(p.kind) ==> !Occupies(es[k], p.business, p.offer.value)
    ensures InsertError(es, PostedRow(p, v)).None? <==> InsertError(Without(es, k), PostedRow(p, w)).None?
  {
    InsertIgnores(es, k, PostedRow(p, v), PostedRow(p, w));
  }

  lemma PermittedPosting(b: Books, p: Posting)
    requires PostRefusal(b, p).None?
    ensures Direction(p.kind).Some? && Quantize(p.amount).Some? && Quantize(p.amount).value > 0
    ensures PostEntry(b, p).Ok? <==>
              InsertError(b.entries, PostedRow(p, LastBalance(b.entries, p.business, p.contact))).None?
  {
  }

  lemma RefusalReadsNoEntries(b: Books, fs: seq<Entry>, p: Posting)
    ensures PostRefusal(b.(entries := fs), p) == PostRefusal(b, p)
    ensures PostRefusal(b, p).Some? ==> PostEntry(b, p).Err? && PostEntry(b.(entries := fs), p).Err?
  {
  }

  lemma PostIgnores(b: Books, p: Posting, k: nat)
    requires k < |b.entries| && b.entries[k].id != p.id
    requires Alike(LastBalance(b.entries, p.business, p.contact),
                   LastBalance(Without(b.entries, k), p.business, p.contact))
    requires p.offer.Some? && IsTrade(p.kind) ==> !Occupies(b.entries[k], p.business, p.offer.value)
    ensures PostEntry(b, p).Ok? <==> PostEntry(b.(entries := Without(b.entries, k)), p).Ok?
  {
    RefusalReadsNoEntries(b, Without(b.entries, k), p);
    if PostRefusal(b, p).None? {
      PermittedPosting(b, p);
      PermittedPosting(b.(entries := Without(b.entries, k)), p);
      PostedAlike(b.entries, k, p, LastBalance(b.entries, p.business, p.contact),
                  LastBalance(Without(b.entries, k), p.business, p.contact));
    }
  }

  lemma TradeIgnores(b: Books, p: Posting, k: nat)
    requires k < |b.entries|
    requires p.offer.Some? && IsTrade(p.kind) ==> !Occupies(b.entries[k], p.business, p.offer.value)
    requires PostEntry(b, p).Ok? <==> PostEntry(b.(entries := Without(b.entries, k)), p).Ok?
    ensures PostTradeEntry(b, p).Ok? <==> PostTradeEntry(b.(entries := Without(b.entries, k)), p).Ok?
  {
    if p.offer.Some? && IsTrade(p.kind) {
      WithoutSlot(b.entries, k, p.business, p.offer.value);
    }
  }

  /** When is a posting indifferent? When it does not compete for the entry's slot and draws
      its own id, while the entry's account is small enough for its balance to fit. */
  lemma UnrelatedIsIndifferent(b: Books, p: Posting, x: nat)
    requires Inv.Valid(b) && IsLiveOriginal(b.entries, x) && p.id != x && OnSmallAccount(b.entries, x)
    requires p.offer.Some? && IsTrade(p.kind) ==>
               !Occupies(b.entries[IndexOf(b.entries, x)], p.business, p.offer.value)
    ensures Indifferent(b, Post(p), x) && Indifferent(b, PostTrade(p), x)
  {
    var k := IndexOf(b.entries, x);
    WithoutIsSound(b.entries, k);
    BalancesAlike(b.entries, k, p.business, p.contact);
    PostIgnores(b, p, k);
    TradeIgnores(b, p, k);
  }

  /** The account of this entry is small. */
  predicate OnSmallAccount(es: seq<Entry>, x: nat)
    requires IndexOf(es, x) < |es|
  {
    var e := es[IndexOf(es, x)];
    Inv.IsSmall(es, e.business, e.contact)
  }

  /** The balance after reversing the entry, if there is one, fits its column. */
  predicate ReversalFits(es: seq<Entry>, id: nat) {
    IndexOf(es, id) < |es| ==>
      var o := es[IndexOf(es, id)];
      Fits(LastBalance(es, o.business, o.contact) + -o.delta)
  }

  /** What decides a reversal: the checks, its drawn id, and the width of the balance. */
  lemma ReversalSucceedsIff(b: Books, r: Reversing)
    requires Inv.RowsOk(b.entries)
    ensures ReverseEntry(b, r).Ok? <==>
              ReverseRefusal(b, r).None? && !HasReversal(b.entries, r.entry) && !HasId(b.entries, r.id)
              && ReversalFits(b.entries, r.entry)
  {
    if ReverseRefusal(b, r).None? && !HasReversal(b.entries, r.entry) {
      var k := IndexOf(b.entries, r.entry);
      assert Inv.RowOk(b.entries[k]);
      Inv.StampIds(b.entries, k, r.now, r.id);
    }
  }

  /** Another entry is found without row `k` as it is with it, but for its balance. */
  lemma OtherEntryStays(es: seq<Entry>, k: nat, id: nat)
    requires k < |es| && es[k].id != id && Inv.UniqueIds(es) && Inv.UniqueIds(Without(es, k))
    ensures IndexOf(es, id) < |es| <==> IndexOf(Without(es, k), id) < |es| - 1
    ensures IndexOf(es, id) < |es| ==> SameButBalance(es[IndexOf(es, id)], Without(es, k)[IndexOf(Without(es, k), id)])
  {
    WithoutHasId(es, k, id);
    var j := IndexOf(es, id);
    if j < |es| {
      assert HasId(es, id);
      WithoutIndexOf(es, k, id);
      WithoutAt(es, k, j);
    }
  }

  lemma ReversalFitsAlike(es: seq<Entry>, fs: seq<Entry>, id: nat)
    requires IndexOf(es, id) < |es| && IndexOf(fs, id) < |fs|
    requires SameButBalance(es[IndexOf(es, id)], fs[IndexOf(fs, id)])
    requires var o := es[IndexOf(es, id)];
             Inv.RowOk(o) && Alike(LastBalance(es, o.business, o.contact), LastBalance(fs, o.business, o.contact))
    ensures ReversalFits(es, id) <==> ReversalFits(fs, id)
  {
  }

  lemma RefusalIgnores(b: Books, r: Reversing, k: nat)
    requires k < |b.entries| && Inv.UniqueIds(b.entries) && Inv.UniqueIds(Without(b.entries, k))
               && b.entries[k].id != r.entry
    ensures ReverseRefusal(b, r) == ReverseRefusal(b.(entries := Without(b.entries, k)), r)
  {
    var es := b.entries;
    WithoutHasId(es, k, r.entry);
    var j := IndexOf(es, r.entry);
    if j < |es| {
      WithoutIndexOf(es, k, r.entry);
      WithoutAt(es, k, j);
    }
  }

  lemma ReverseIgnores(b: Books, r: Reversing, x: nat)
    requires Inv.Valid(b) && IsLiveOriginal(b.entries, x) && r.entry != x && r.id != x && OnSmallAccount(b.entries, x)
    ensures ReverseEntry(b, r).Ok? <==> ReverseEntry(Erase(b, x), r).Ok?
  {
    var es, k := b.entries, IndexOf(b.entries, x);
    assert Inv.RowOk(es[k]);
    WithoutIsSound(es, k);
    RefusalIgnores(b, r, k);
    OtherEntryStays(es, k, r.entry);
    if IndexOf(es, r.entry) < |es| {
      var o := es[IndexOf(es, r.entry)];
      BalancesAlike(es, k, o.business, o.contact);
      ReversalFitsAlike(es, Without(es, k), r.entry);
    }
    ReversalSucceedsIff(b, r);
    ReversalSucceedsIff(Erase(b, x), r);
    WithoutReversal(es, k, r.entry);
    WithoutHasId(es, k, r.id);
  }

  /** Two postings of one business compete when both record a trade for the same offer. */
  predicate Competes(p: Posting, q: Posting) {
    IsTrade(p.kind) && IsTrade(q.kind) && p.offer.Some? && p.offer == q.offer && p.business == q.business
  }

  /** What a caller can see of an operation: it is not about the entry posted by `p`. */
  predicate Unrelated(op: Op, p: Posting) {
    match op
    case Post(q) => q.id != p.id && !Competes(p, q)
    case PostTrade(q) => q.id != p.id && !Competes(p, q)
    case Reverse(r) => r.entry != p.id && r.id != p.id
    case _ => true
  }

  lemma UnrelatedOpIsIndifferent(b: Books, op: Op, p: Posting)
    requires Inv.Valid(b) && Stands(b.entries, p) && Unrelated(op, p) && Inv.IsSmall(b.entries, p.business, p.contact)
    ensures Indifferent(b, op, p.id)
  {
    match op
    case Post(q) => UnrelatedIsIndifferent(b, q, p.id);
    case PostTrade(q) => UnrelatedIsIndifferent(b, q, p.id);
    case Reverse(r) => ReverseIgnores(b, r, p.id);
    case _ =>
  }

  lemma StandsOn(b: Books, op: Op, p: Posting)
    requires Inv.Valid(b) && Stands(b.entries, p) && Indifferent(b, op, p.id)
    ensures Stands(Apply(b, op).entries, p)
  {
    StepErases(b, op, p.id);
    Inv.StepKeepsValid(b, op);
    assert Inv.SameButStamp(b.entries[IndexOf(b.entries, p.id)], Apply(b, op).entries[IndexOf(b.entries, p.id)]);
  }

  lemma SmallOnTheWay(b: Books, ops: seq<Op>, c: Books, business: nat, contact: nat)
    requires Inv.Valid(b) && Reaches(b, ops, c) && Inv.IsSmall(c.entries, business, contact)
    ensures Inv.IsSmall(b.entries, business, contact)
  {
    Inv.EveryRunIsValid(b, ops, c);
    Inv.SmallAllAlong(b, c, business, contact);
  }

  lemma {:induction false} UnrelatedRunIsIndifferent(b: Books, ops: seq<Op>, c: Books, p: Posting)
    requires Inv.Valid(b) && Stands(b.entries, p) && Reaches(b, ops, c)
    requires Inv.IsSmall(c.entries, p.business, p.contact)
    requires forall op :: op in ops ==> Unrelated(op, p)
    ensures AllIndifferent(b, ops, p.id)
    decreases |ops|
  {
    if ops != [] {
      SmallOnTheWay(b, ops, c, p.business, p.contact);
      UnrelatedOpIsIndifferent(b, ops[0], p);
      StandsOn(b, ops[0], p);
      Inv.StepKeepsValid(b, ops[0]);
      UnrelatedRunIsIndifferent(Apply(b, ops[0]), ops[1..], c, p);
    }
  }

  /** The same calls without the posting lead to the same books without its row. */
  lemma ErasedHistory(b: Books, p: Posting, ops: seq<Op>, c: Books)
    requires Inv.Valid(b) && PostEntry(b, p).Ok? && Inv.IsSmall(c.entries, p.business, p.contact)
    requires Reaches(Apply(b, Post(p)), ops, c) && forall op :: op in ops ==> Unrelated(op, p)
    ensures Inv.Valid(c) && IsLiveOriginal(c.entries, p.id) && Reaches(b, ops, Erase(c, p.id))
  {
    PostedStands(b, p);
    UnrelatedRunIsIndifferent(Apply(b, Post(p)), ops, c, p);
    RunErases(Apply(b, Post(p)), ops, c, p.id);
  }

  /** Post an entry; let contacts, offers, other postings and other reversals follow in any
      number, on accounts of any size but the entry's own, which stays below 10^4 rows;
      then reverse it. Every report is that of the same calls without the post. */
  lemma ReversedLaterIsNeverPosted(b: Books, p: Posting, ops: seq<Op>, c: Books, r: Reversing)
    requires Inv.Valid(b) && PostEntry(b, p).Ok? && r.entry == p.id && Inv.IsSmall(c.entries, p.business, p.contact)
    requires Reaches(Apply(b, Post(p)), ops, c) && forall op :: op in ops ==> Unrelated(op, p)
    requires ReverseEntry(c, r).Ok?
    ensures PR.References(c.desk)
    ensures exists d :: Reaches(b, ops, d) && SameMoney(Apply(c, Reverse(r)).entries, d.entries)
  {
    ErasedHistory(b, p, ops, c);
    ReversalErases(c, r);
  }

  lemma WithoutHasId(es: seq<Entry>, k: nat, id: nat)
    requires k < |es| && es[k].id != id
    ensures HasId(es, id) <==> HasId(Without(es, k), id)
  {
    var fs := Without(es, k);
    if HasId(es, id) {
      var i :| 0 <= i < |es| && es[i].id == id;
      WithoutAt(es, k, i);
      assert fs[Down(i, k)].id == id;
    }
    if HasId(fs, id) {
      var i :| 0 <= i < |fs| && fs[i].id == id;
      WithoutFrom(es, k, i);
      assert es[Up(i, k)].id == id;
    }
  }

  lemma WithoutSlot(es: seq<Entry>, k: nat, business: nat, offer: nat)
    requires k < |es| && !Occupies(es[k], business, offer)
    ensures SlotTaken(es, business, offer) <==> SlotTaken(Without(es, k), business, offer)
  {
    var fs := Without(es, k);
    if SlotTaken(es, business, offer) {
      var i :| 0 <= i < |es| && Occupies(es[i], business, offer);
      WithoutAt(es, k, i);
      assert Occupies(fs[Down(i, k)], business, offer);
    }
    if SlotTaken(fs, business, offer) {
      var i :| 0 <= i < |fs| && Occupies(fs[i], business, offer);
      WithoutFrom(es, k, i);
      assert Occupies(es[Up(i, k)], business, offer);
    }
  }
}
