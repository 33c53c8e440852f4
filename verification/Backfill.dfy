/** The data migration that stamped entries reversed before the stamp existed. */
module Backfill {
  import opened Sequences
  import opened Ledger
  import Inv = LedgerInvariant

  /** The position of the first of the first `n` rows that reverses `id`, or `n`. */
  function FirstReversal(es: seq<Entry>, id: nat, n: nat): (k: nat)
    requires n <= |es|
    ensures k <= n
    ensures k < n ==> es[k].reverses == Some(id)
    ensures forall i :: 0 <= i < k ==> es[i].reverses != Some(id)
  {
    if n == 0 then 0
    else
      var k := FirstReversal(es, id, n - 1);
      if k < n - 1 || es[n - 1].reverses == Some(id) then k else k + 1
  }

  /** A row once the first `n` rows have been looked at: the creation time of its reversal
      becomes its stamp, unless it carries one already. */
  function Backfilled(es: seq<Entry>, createdAt: seq<int>, i: nat, n: nat): Entry
    requires |createdAt| == |es| && i < |es| && n <= |es|
  {
    var k := FirstReversal(es, es[i].id, n);
    if es[i].reversedAt.None? && k < n then es[i].(reversedAt := Some(createdAt[k])) else es[i]
  }

  /** One more row looked at: only the entry it reverses can gain a stamp from it. */
  lemma BackfillOneMore(es: seq<Entry>, createdAt: seq<int>, i: nat, n: nat)
    requires |createdAt| == |es| && i < |es| && n < |es|
    ensures var before := Backfilled(es, createdAt, i, n);
            Backfilled(es, createdAt, i, n + 1)
            == if es[n].reverses == Some(es[i].id) && before.reversedAt.None?
               then es[i].(reversedAt := Some(createdAt[n])) else before
  {
  }

  function BackfilledRows(es: seq<Entry>, createdAt: seq<int>, n: nat): seq<Entry>
    requires |createdAt| == |es| && n <= |es|
  {
    seq(|es|, i requires 0 <= i < |es| => Backfilled(es, createdAt, i, n))
  }

  lemma IndexOfReversed(es: seq<Entry>, n: nat, i: nat)
    requires Inv.UniqueIds(es) && n < |es| && i < |es| && es[n].reverses == Some(es[i].id)
    ensures IndexOf(es, es[n].reverses.value) == i
  {
    var k := IndexOf(es, es[i].id);
    assert k <= i && es[k].id == es[i].id;
  }

  /** The row `n` is about, unless it is no reversal or its original is stamped already. */
  function Target(es: seq<Entry>, fs: seq<Entry>, n: nat): (k: nat)
    requires n < |es| && |fs| == |es|
    ensures k < |es| ==> fs[k].reversedAt.None? && es[n].reverses == Some(es[k].id)
  {
    if es[n].reverses.None? then |es|
    else
      var k := IndexOf(es, es[n].reverses.value);
      if k < |es| && fs[k].reversedAt.None? then k else |es|
  }

  /** What the loop does with row `n` is what the row calls for. */
  lemma BackfillTurn(es: seq<Entry>, createdAt: seq<int>, n: nat)
    requires |createdAt| == |es| && n < |es| && Inv.UniqueIds(es)
    ensures var fs := BackfilledRows(es, createdAt, n);
            var k := Target(es, fs, n);
            BackfilledRows(es, createdAt, n + 1)
            == if k < |es| then fs[k := fs[k].(reversedAt := Some(createdAt[n]))] else fs
  {
    var fs := BackfilledRows(es, createdAt, n);
    var k := Target(es, fs, n);
    forall i | 0 <= i < |es|
      ensures Backfilled(es, createdAt, i, n + 1) == if i == k then fs[i].(reversedAt := Some(createdAt[n])) else fs[i]
    {
      BackfillOneMore(es, createdAt, i, n);
      if es[n].reverses == Some(es[i].id) {
        IndexOfReversed(es, n, i);
      }
    }
  }

  method BackfillReversedAt(es: seq<Entry>, createdAt: seq<int>) returns (fs: seq<Entry>)
    requires |createdAt| == |es| && Inv.UniqueIds(es)
    ensures fs == BackfilledRows(es, createdAt, |es|)
  {
    fs := es;
    var n := 0;
    assert es == BackfilledRows(es, createdAt, 0);
    while n < |es|
      invariant 0 <= n <= |es| && fs == BackfilledRows(es, createdAt, n)
    {
      BackfillTurn(es, createdAt, n);
      if es[n].reverses.Some? {
        var k := IndexOf(es, es[n].reverses.value);
        if k < |es| && fs[k].reversedAt.None? {
          fs := fs[k := fs[k].(reversedAt := Some(createdAt[n]))];
        }
      }
      n := n + 1;
    }
  }

  /** What the migration leaves of a row: a row stamped before, or never reversed, is as it
      was; any other is stamped with the time at which its first reversal was made. */
  lemma BackfilledIs(es: seq<Entry>, createdAt: seq<int>, i: nat)
    requires |createdAt| == |es| && i < |es|
    ensures var row := BackfilledRows(es, createdAt, |es|)[i];
            && (es[i].reversedAt.Some? || (forall k :: 0 <= k < |es| ==> es[k].reverses != Some(es[i].id)) ==>
                  row == es[i])
            && (es[i].reversedAt.None? ==>
                  forall k :: && 0 <= k < |es| && es[k].reverses == Some(es[i].id)
                              && (forall j :: 0 <= j < k ==> es[j].reverses != Some(es[i].id)) ==>
                    row == es[i].(reversedAt := Some(createdAt[k])))
  {
    var first := FirstReversal(es, es[i].id, |es|);
    forall k | && 0 <= k < |es| && es[k].reverses == Some(es[i].id)
               && (forall j :: 0 <= j < k ==> es[j].reverses != Some(es[i].id))
      ensures k == first
    {
    }
  }

  /** Afterwards the stamp marks exactly the reversed rows, provided no stray stamp was
      there before; and a legacy ledger whose reversals matched is a matched one. */
  lemma BackfillEstablishesMatching(es: seq<Entry>, createdAt: seq<int>, fs: seq<Entry>)
    requires |createdAt| == |es| && fs == BackfilledRows(es, createdAt, |es|)
    requires forall i :: 0 <= i < |es| && es[i].reversedAt.Some? ==> HasReversal(es, es[i].id)
    ensures Inv.StampsOk(fs)
    ensures Inv.PointersOk(es) && Inv.PointersDistinct(es) ==> Inv.Matched(fs)
  {
    forall i | 0 <= i < |fs|
      ensures fs[i].reversedAt.Some? <==> HasReversal(fs, fs[i].id)
    {
      SameReversals(es, createdAt, fs, es[i].id);
    }
    if Inv.PointersOk(es) && Inv.PointersDistinct(es) {
      PointersCarryOver(es, createdAt, fs);
    }
  }

  lemma SameReversals(es: seq<Entry>, createdAt: seq<int>, fs: seq<Entry>, id: nat)
    requires |createdAt| == |es| && fs == BackfilledRows(es, createdAt, |es|)
    ensures HasReversal(fs, id) <==> FirstReversal(es, id, |es|) < |es|
    ensures HasReversal(es, id) <==> FirstReversal(es, id, |es|) < |es|
  {
    var k := FirstReversal(es, id, |es|);
    if k < |es| {
      assert fs[k].reverses == Some(id);
    }
    forall i | 0 <= i < |es|
      ensures fs[i].reverses == es[i].reverses
    {}
  }

  lemma PointersCarryOver(es: seq<Entry>, createdAt: seq<int>, fs: seq<Entry>)
    requires |createdAt| == |es| && fs == BackfilledRows(es, createdAt, |es|)
    requires Inv.PointersOk(es) && Inv.PointersDistinct(es)
    ensures Inv.PointersOk(fs) && Inv.PointersDistinct(fs)
  {
    forall i | 0 <= i < |fs| && fs[i].reverses.Some?
      ensures Inv.NegatesEarlier(fs, i)
    {
      assert Inv.NegatesEarlier(es, i);
      var j :| 0 <= j < i && Inv.Negates(es[i], es[j]);
      assert Inv.Negates(fs[i], fs[j]);
    }
  }
}
