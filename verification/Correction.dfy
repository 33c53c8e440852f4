/** After a reversal the books answer every further call exactly as if the reversed entry
    had never been posted. So correcting a trade is posting the right one. */
module Correction {
  import opened Sequences
  import opened Ledger
  import opened Undo
  import PR = PurchaseRequests
  import Inv = LedgerInvariant

  // ----- Books that differ by a dead pair -----

  predicate SameButBalance(e: Entry, f: Entry) {
    e == f.(balanceAfter := e.balanceAfter)
  }

  /** A row of the pair: no longer live, and reversing nothing but the entry `x`. */
  predicate IsDead(e: Entry, x: nat) {
    !Inv.IsLive(e) && (e.reverses.None? || e.reverses == Some(x))
  }

  /** `es` holds the rows of `fs`, in their order and with their stamps, and besides them
      only dead rows with the ids `x` and `y`. */
  ghost predicate Twin(es: seq<Entry>, fs: seq<Entry>, x: nat, y: nat) {
    if es == [] then fs == []
    else
      var n := |es| - 1;
      if es[n].id == x || es[n].id == y then IsDead(es[n], x) && Twin(es[..n], fs, x, y)
      else fs != [] && SameButBalance(es[n], fs[|fs| - 1]) && Twin(es[..n], fs[..|fs| - 1], x, y)
  }

  lemma TwinAppend(es: seq<Entry>, fs: seq<Entry>, x: nat, y: nat, row: Entry)
    requires Twin(es, fs, x, y) && row.id != x && row.id != y
    ensures Twin(es + [row], fs + [row], x, y)
  {
    assert (es + [row])[..|es|] == es && (fs + [row])[..|fs|] == fs;
  }

  lemma {:induction false} TwinId(es: seq<Entry>, fs: seq<Entry>, x: nat, y: nat, id: nat)
    requires Twin(es, fs, x, y) && id != x && id != y
    ensures HasId(es, id) <==> HasId(fs, id)
    ensures IndexOf(es, id) < |es| <==> IndexOf(fs, id) < |fs|
    ensures IndexOf(es, id) < |es| ==> SameButBalance(es[IndexOf(es, id)], fs[IndexOf(fs, id)])
  {
    if es != [] {
      var n := |es| - 1;
      if es[n].id == x || es[n].id == y {
        TwinId(es[..n], fs, x, y, id);
      } else {
        TwinId(es[..n], fs[..|fs| - 1], x, y, id);
      }
      HasIdIsIndexOf(es, id);
      HasIdIsIndexOf(fs, id);
      HasIdIsIndexOf(es[..n], id);
    }
    HasIdIsIndexOf(es, id);
    HasIdIsIndexOf(fs, id);
  }

  lemma HasIdIsIndexOf(es: seq<Entry>, id: nat)
    ensures HasId(es, id) <==> IndexOf(es, id) < |es|
  {
    if IndexOf(es, id) < |es| {
      assert es[IndexOf(es, id)].id == id;
    }
  }

  lemma {:induction false} TwinReversal(es: seq<Entry>, fs: seq<Entry>, x: nat, y: nat, id: nat)
    requires Twin(es, fs, x, y) && id != x
    ensures HasReversal(es, id) <==> HasReversal(fs, id)
  {
    if es != [] {
      var n := |es| - 1;
      LastReversal(es, id);
      if es[n].id == x || es[n].id == y {
        TwinReversal(es[..n], fs, x, y, id);
      } else {
        LastReversal(fs, id);
        TwinReversal(es[..n], fs[..|fs| - 1], x, y, id);
      }
    }
  }

  lemma LastReversal(es: seq<Entry>, id: nat)
    requires es != []
    ensures HasReversal(es, id) <==> HasReversal(es[..|es| - 1], id) || es[|es| - 1].reverses == Some(id)
  {
    var n := |es| - 1;
    if HasReversal(es[..n], id) {
      var i :| 0 <= i < n && es[..n][i].reverses == Some(id);
      assert es[i].reverses == Some(id);
    }
    if HasReversal(es, id) {
      var i :| 0 <= i < |es| && es[i].reverses == Some(id);
      assert i < n ==> es[..n][i].reverses == Some(id);
    }
  }

  /** Both see the same live trade of an offer, or none. */
  lemma {:induction false} TwinSlot(es: seq<Entry>, fs: seq<Entry>, x: nat, y: nat, business: nat, offer: nat)
    requires Twin(es, fs, x, y)
    ensures SlotTaken(es, business, offer) <==> SlotTaken(fs, business, offer)
    ensures SlotTaken(es, business, offer) ==>
              es[TradeEntryForOffer(es, business, offer)].id == fs[TradeEntryForOffer(fs, business, offer)].id
  {
    if es != [] {
      var n := |es| - 1;
      if es[n].id == x || es[n].id == y {
        TwinSlot(es[..n], fs, x, y, business, offer);
      } else {
        TwinSlot(es[..n], fs[..|fs| - 1], x, y, business, offer);
      }
      SlotIsFound(es, business, offer);
      SlotIsFound(fs, business, offer);
    }
  }

  lemma SlotIsFound(es: seq<Entry>, business: nat, offer: nat)
    ensures SlotTaken(es, business, offer) <==> TradeEntryForOffer(es, business, offer) < |es|
  {
  }

  lemma {:induction false} TwinStamp(es: seq<Entry>, fs: seq<Entry>, x: nat, y: nat, id: nat, now: int)
    requires Twin(es, fs, x, y) && id != x && id != y && IndexOf(es, id) < |es| && IndexOf(fs, id) < |fs|
    ensures Twin(Stamp(es, IndexOf(es, id), now), Stamp(fs, IndexOf(fs, id), now), x, y)
  {
    var n := |es| - 1;
    var j := IndexOf(es, id);
    if es[n].id == x || es[n].id == y {
      TwinStamp(es[..n], fs, x, y, id, now);
      assert Stamp(es, j, now)[..n] == Stamp(es[..n], j, now);
    } else {
      var m := |fs| - 1;
      var i := IndexOf(fs, id);
      TwinId(es[..n], fs[..m], x, y, id);
      if j < n {
        TwinStamp(es[..n], fs[..m], x, y, id, now);
        assert Stamp(es, j, now)[..n] == Stamp(es[..n], j, now);
        assert Stamp(fs, i, now)[..m] == Stamp(fs[..m], i, now);
      } else {
        assert Stamp(es, j, now)[..n] == es[..n] && Stamp(fs, i, now)[..m] == fs[..m];
      }
    }
  }

  lemma {:induction false} TwinSum(es: seq<Entry>, fs: seq<Entry>, x: nat, y: nat, w: Entry -> int)
    requires Twin(es, fs, x, y) && LiveWeight(w)
    ensures Sum(es, w) == Sum(fs, w)
  {
    if es != [] {
      var n := |es| - 1;
      if es[n].id == x || es[n].id == y {
        TwinSum(es[..n], fs, x, y, w);
      } else {
        TwinSum(es[..n], fs[..|fs| - 1], x, y, w);
      }
    }
  }

  // ----- The same calls on both -----

  ghost predicate SameBalances(es: seq<Entry>, fs: seq<Entry>) {
    forall business, contact :: LastBalance(es, business, contact) == LastBalance(fs, business, contact)
  }

  /** Same contacts, same offers, same balances, and ledgers that differ by the dead pair. */
  ghost predicate TwinBooks(c: Books, d: Books, x: nat, y: nat) {
    && c.contacts == d.contacts && c.desk == d.desk
    && Twin(c.entries, d.entries, x, y) && SameBalances(c.entries, d.entries)
    && |c.entries| == |d.entries| + 2
  }

  /** What a caller can see of an operation: it neither names nor draws one of two ids. */
  predicate Spares(op: Op, x: nat, y: nat) {
    match op
    case Post(p) => p.id != x && p.id != y
    case PostTrade(p) => p.id != x && p.id != y
    case Reverse(r) => r.entry != x && r.entry != y && r.id != x && r.id != y
    case _ => true
  }

  lemma TwinInsert(es: seq<Entry>, fs: seq<Entry>, x: nat, y: nat, row: Entry)
    requires Twin(es, fs, x, y) && row.id != x && row.id != y
    ensures InsertError(es, row) == InsertError(fs, row)
  {
    TwinId(es, fs, x, y, row.id);
    if row.offer.Some? {
      TwinSlot(es, fs, x, y, row.business, row.offer.value);
    }
  }

  lemma SamePost(c: Books, d: Books, x: nat, y: nat, p: Posting)
    requires TwinBooks(c, d, x, y) && p.id != x && p.id != y
    ensures PostEntry(c, p) == PostEntry(d, p)
  {
    if PostRefusal(c, p).None? {
      assert LastBalance(c.entries, p.business, p.contact) == LastBalance(d.entries, p.business, p.contact);
      TwinInsert(c.entries, d.entries, x, y, PostedRow(p, LastBalance(c.entries, p.business, p.contact)));
    }
  }

  lemma SameTrade(c: Books, d: Books, x: nat, y: nat, p: Posting)
    requires TwinBooks(c, d, x, y) && p.id != x && p.id != y
    ensures PostTradeEntry(c, p) == PostTradeEntry(d, p)
  {
    SamePost(c, d, x, y, p);
    if p.offer.Some? {
      TwinSlot(c.entries, d.entries, x, y, p.business, p.offer.value);
    }
  }

  lemma SameRefusal(c: Books, d: Books, x: nat, y: nat, r: Reversing)
    requires Twin(c.entries, d.entries, x, y) && r.entry != x && r.entry != y
    ensures ReverseRefusal(c, r) == ReverseRefusal(d, r)
  {
    TwinId(c.entries, d.entries, x, y, r.entry);
  }

  /** A reversal sees the same original in both books and posts the same row for it. */
  lemma SameReversalRow(es: seq<Entry>, fs: seq<Entry>, x: nat, y: nat, r: Reversing)
    requires Twin(es, fs, x, y) && SameBalances(es, fs) && Spares(Reverse(r), x, y) && IndexOf(es, r.entry) < |es|
    ensures IndexOf(fs, r.entry) < |fs|
    ensures var o, p := es[IndexOf(es, r.entry)], fs[IndexOf(fs, r.entry)];
            ReversalRow(r, o, LastBalance(es, o.business, o.contact))
                == ReversalRow(r, p, LastBalance(fs, p.business, p.contact))
  {
    TwinId(es, fs, x, y, r.entry);
  }

  lemma SameReversalInsert(es: seq<Entry>, fs: seq<Entry>, x: nat, y: nat, r: Reversing, row: Entry)
    requires Twin(es, fs, x, y) && Spares(Reverse(r), x, y) && IndexOf(es, r.entry) < |es| && row.id == r.id
    ensures IndexOf(fs, r.entry) < |fs|
    ensures var es1, fs1 := Stamp(es, IndexOf(es, r.entry), r.now), Stamp(fs, IndexOf(fs, r.entry), r.now);
            Twin(es1, fs1, x, y) && InsertError(es1, row) == InsertError(fs1, row)
  {
    TwinId(es, fs, x, y, r.entry);
    TwinStamp(es, fs, x, y, r.entry, r.now);
    TwinInsert(Stamp(es, IndexOf(es, r.entry), r.now), Stamp(fs, IndexOf(fs, r.entry), r.now), x, y, row);
  }

  lemma SameReversal(c: Books, d: Books, x: nat, y: nat, r: Reversing)
    requires TwinBooks(c, d, x, y) && Spares(Reverse(r), x, y)
    ensures ReverseEntry(c, r) == ReverseEntry(d, r)
  {
    SameRefusal(c, d, x, y, r);
    TwinReversal(c.entries, d.entries, x, y, r.entry);
    if ReverseRefusal(c, r).None? {
      var o := c.entries[IndexOf(c.entries, r.entry)];
      SameReversalRow(c.entries, d.entries, x, y, r);
      SameReversalInsert(c.entries, d.entries, x, y, r,
        ReversalRow(r, o, LastBalance(c.entries, o.business, o.contact)));
    }
  }

  lemma SameVerdict(c: Books, d: Books, x: nat, y: nat, op: Op)
    requires TwinBooks(c, d, x, y) && Spares(op, x, y)
    ensures Verdict(c, op) == Verdict(d, op)
  {
    match op
    case Post(p) => SamePost(c, d, x, y, p);
    case PostTrade(p) => SameTrade(c, d, x, y, p);
    case Reverse(r) => SameReversal(c, d, x, y, r);
    case _ =>
  }

  lemma AppendBalances(es: seq<Entry>, fs: seq<Entry>, row: Entry)
    requires SameBalances(es, fs)
    ensures SameBalances(es + [row], fs + [row])
  {
    assert (es + [row])[..|es|] == es && (fs + [row])[..|fs|] == fs;
  }

  lemma StampBalances(es: seq<Entry>, fs: seq<Entry>, k: nat, m: nat, now: int)
    requires SameBalances(es, fs) && k < |es| && m < |fs|
    ensures SameBalances(Stamp(es, k, now), Stamp(fs, m, now))
  {
    forall business, contact
      ensures LastBalance(Stamp(es, k, now), business, contact) == LastBalance(Stamp(fs, m, now), business, contact)
    {
      Inv.StampKeepsBalances(es, k, now, business, contact);
      Inv.StampKeepsBalances(fs, m, now, business, contact);
    }
  }

  lemma PostingRow(b: Books, op: Op)
    requires (op.Post? || op.PostTrade?) && Verdict(b, op).Ok?
    ensures Verdict(b, op).value.id == op.p.id
  {
  }

  lemma AcceptedTwin(c: Books, d: Books, x: nat, y: nat, op: Op)
    requires TwinBooks(c, d, x, y) && Spares(op, x, y) && Verdict(c, op).Ok?
    ensures var row := Verdict(c, op).value;
            Twin(Accepted(c.entries, op, row), Accepted(d.entries, op, row), x, y)
            && SameBalances(Accepted(c.entries, op, row), Accepted(d.entries, op, row))
  {
    var es, fs, row := c.entries, d.entries, Verdict(c, op).value;
    if op.Reverse? {
      var k, m := IndexOf(es, op.r.entry), IndexOf(fs, op.r.entry);
      SameReversalInsert(es, fs, x, y, op.r, row);
      StampBalances(es, fs, k, m, op.r.now);
      TwinAppend(Stamp(es, k, op.r.now), Stamp(fs, m, op.r.now), x, y, row);
      AppendBalances(Stamp(es, k, op.r.now), Stamp(fs, m, op.r.now), row);
    } else {
      PostingRow(c, op);
      TwinAppend(es, fs, x, y, row);
      AppendBalances(es, fs, row);
    }
  }

  /** One call: both books answer it alike, and stay twins. */
  lemma TwinStep(c: Books, d: Books, x: nat, y: nat, op: Op)
    requires TwinBooks(c, d, x, y) && Spares(op, x, y) && PR.References(c.desk)
    ensures Verdict(c, op) == Verdict(d, op) && TwinBooks(Apply(c, op), Apply(d, op), x, y)
  {
    SameVerdict(c, d, x, y, op);
    if Verdict(c, op).Ok? {
      AcceptedTwin(c, d, x, y, op);
    }
  }

  lemma {:induction false} TwinRun(c: Books, d: Books, x: nat, y: nat, ops: seq<Op>, e: Books) returns (f: Books)
    requires TwinBooks(c, d, x, y) && Reaches(c, ops, e) && forall op :: op in ops ==> Spares(op, x, y)
    ensures Reaches(d, ops, f) && TwinBooks(e, f, x, y)
    decreases |ops|
  {
    if ops == [] {
      f := d;
    } else {
      TwinStep(c, d, x, y, ops[0]);
      f := TwinRun(Apply(c, ops[0]), Apply(d, ops[0]), x, y, ops[1..], e);
    }
  }

  lemma TwinsHaveTheSameMoney(c: Books, d: Books, x: nat, y: nat)
    requires TwinBooks(c, d, x, y)
    ensures SameMoney(c.entries, d.entries)
  {
    forall w: Entry -> int | LiveWeight(w)
      ensures Sum(c.entries, w) == Sum(d.entries, w)
    {
      TwinSum(c.entries, d.entries, x, y, w);
    }
  }

  // ----- A reversal makes twins -----

  lemma {:induction false} TwinOfItself(es: seq<Entry>, x: nat, y: nat)
    requires forall i :: 0 <= i < |es| ==> es[i].id != x && es[i].id != y
    ensures Twin(es, es, x, y)
  {
    if es != [] {
      TwinOfItself(es[..|es| - 1], x, y);
    }
  }

  lemma {:induction false} StampedTwin(es: seq<Entry>, k: nat, now: int, y: nat)
    requires k < |es| && es[k].reverses.None?
    requires forall i :: 0 <= i < |es| && i != k ==> es[i].id != es[k].id && es[i].id != y
    ensures Twin(Stamp(es, k, now), Without(es, k), es[k].id, y)
  {
    var n := |es| - 1;
    if k == n {
      TwinOfItself(es[..n], es[k].id, y);
      assert Stamp(es, k, now)[..n] == es[..n];
    } else {
      StampedTwin(es[..n], k, now, y);
      assert Stamp(es, k, now)[..n] == Stamp(es[..n], k, now);
      var w := Without(es, k);
      assert w[..|w| - 1] == Without(es[..n], k);
    }
  }

  lemma ReversalDraws(b: Books, r: Reversing)
    requires ReverseEntry(b, r).Ok?
    ensures IndexOf(b.entries, r.entry) < |b.entries| && !HasId(b.entries, r.id)
    ensures var row := ReverseEntry(b, r).value;
            row.id == r.id && row.kind.Reversal? && row.reverses == Some(r.entry)
  {
    Inv.StampIds(b.entries, IndexOf(b.entries, r.entry), r.now, r.id);
  }

  lemma PairIsTwin(es: seq<Entry>, k: nat, now: int, row: Entry)
    requires Inv.UniqueIds(es) && k < |es| && es[k].reverses.None? && !HasId(es, row.id)
    requires row.kind.Reversal? && row.reverses == Some(es[k].id)
    ensures Twin(Stamp(es, k, now) + [row], Without(es, k), es[k].id, row.id)
  {
    StampedTwin(es, k, now, row.id);
    assert (Stamp(es, k, now) + [row])[..|es|] == Stamp(es, k, now);
  }

  /** The books after a reversal are twins of the books without the reversed entry. */
  lemma ReversalMakesTwins(b: Books, r: Reversing)
    requires Inv.Valid(b) && ReverseEntry(b, r).Ok?
    ensures IndexOf(b.entries, r.entry) < |b.entries|
    ensures TwinBooks(Apply(b, Reverse(r)), Erase(b, r.entry), r.entry, r.id)
  {
    var k := IndexOf(b.entries, r.entry);
    ReversalDraws(b, r);
    ReversalErases(b, r);
    ReverseApplied(b, r);
    assert Inv.RowOk(b.entries[k]);
    PairIsTwin(b.entries, k, r.now, ReverseEntry(b, r).value);
  }

  // ----- Correcting -----

  /** From `b`, an accepted posting, then calls unrelated to it up to `c`, then its
      reversal, then calls that spare both ids up to `e`. The posting's own account stays
      below 10^4 rows until the reversal; all others may be of any size. */
  ghost predicate PostedAndReversed(b: Books, first: Op, ops: seq<Op>, c: Books, r: Reversing, later: seq<Op>,
      e: Books)
  {
    && Inv.Valid(b) && (first.Post? || first.PostTrade?) && Verdict(b, first).Ok? && r.entry == first.p.id
    && Reaches(Apply(b, first), ops, c) && Inv.IsSmall(c.entries, first.p.business, first.p.contact)
    && (forall op :: op in ops ==> Unrelated(op, first.p))
    && PR.References(c.desk) && ReverseEntry(c, r).Ok?
    && Reaches(Apply(c, Reverse(r)), later, e)
    && (forall op :: op in later ==> Spares(op, first.p.id, r.id))
  }

  /** Recording a trade is posting it, once it is accepted. */
  lemma TradeIsPost(b: Books, p: Posting)
    requires PR.References(b.desk) && PostTradeEntry(b, p).Ok?
    ensures PostEntry(b, p).Ok? && Apply(b, PostTrade(p)) == Apply(b, Post(p))
  {
  }

  /** Once a posting has been reversed, the books go on as if it had never been made: every
      later call that spares the two ids is answered alike, through any run, and the
      ledger holds the same money and two rows more than by the same calls without the
      posting, which lead from `b` over `d` to `f`. */
  lemma ReversalIsForgotten(b: Books, first: Op, ops: seq<Op>, c: Books, r: Reversing, later: seq<Op>, e: Books)
    returns (d: Books, f: Books)
    requires PostedAndReversed(b, first, ops, c, r, later, e)
    ensures Reaches(b, ops, d) && Reaches(d, later, f)
    ensures TwinBooks(e, f, first.p.id, r.id) && SameMoney(e.entries, f.entries)
  {
    if first.PostTrade? {
      TradeIsPost(b, first.p);
    }
    ErasedHistory(b, first.p, ops, c);
    ReversalMakesTwins(c, r);
    d := Erase(c, first.p.id);
    f := TwinRun(Apply(c, Reverse(r)), d, first.p.id, r.id, later, e);
    TwinsHaveTheSameMoney(e, f, first.p.id, r.id);
  }

  /** Record the wrong amount, go on with other business, reverse it, go on again, record
      the right amount: the right trade is answered as in the history in which the wrong
      one was never recorded, with the very same row when it is accepted, and afterwards
      the money is the same. */
  lemma CorrectionEqualsPostingRight(b: Books, wrong: Op, ops: seq<Op>, c: Books, r: Reversing, later: seq<Op>,
      e: Books, right: Posting)
    returns (d: Books, f: Books)
    requires PostedAndReversed(b, wrong, ops, c, r, later, e) && right.id != wrong.p.id && right.id != r.id
    requires PR.References(e.desk)
    ensures Reaches(b, ops, d) && Reaches(d, later, f) && PR.References(f.desk)
    ensures PostTradeEntry(e, right) == PostTradeEntry(f, right)
    ensures SameMoney(Apply(e, PostTrade(right)).entries, Apply(f, PostTrade(right)).entries)
    ensures |Apply(e, PostTrade(right)).entries| == |Apply(f, PostTrade(right)).entries| + 2
  {
    d, f := ReversalIsForgotten(b, wrong, ops, c, r, later, e);
    TwinStep(e, f, wrong.p.id, r.id, PostTrade(right));
    TwinsHaveTheSameMoney(Apply(e, PostTrade(right)), Apply(f, PostTrade(right)), wrong.p.id, r.id);
  }
}
