/** FIFO aging of one contact's live entries: the allocation loop, its closed form, and
    why oldest-first is the allocation that leaves the least old debt. */
module Aging {
  import opened Sequences
  import opened Ledger

  datatype Aging = Aging(asOf: int, current: int, days31to60: int, days61to90: int, over90: int, unapplied: int) {
    function Total(): int {
      current + days31to60 + days61to90 + over90
    }

    /** The outstanding amount older than 30, 60 or 90 days (everything, for no threshold). */
    function OlderThan(days: Option<int>): int {
      match days
      case None => Total()
      case Some(t) =>
        if t >= 90 then over90 else if t >= 60 then over90 + days61to90 else over90 + days61to90 + days31to60
    }
  }

  /** `_bucket_key`, as the position of the bucket in age order. */
  function BucketOf(age: int): (k: nat)
    ensures k <= 3
    ensures (k >= 1 <==> age > 30) && (k >= 2 <==> age > 60) && (k == 3 <==> age > 90)
  {
    if age <= 30 then 0 else if age <= 60 then 1 else if age <= 90 then 2 else 3
  }

  function Add(a: Aging, bucket: nat, amount: int): Aging {
    match bucket
    case 0 => a.(current := a.current + amount)
    case 1 => a.(days31to60 := a.days31to60 + amount)
    case 2 => a.(days61to90 := a.days61to90 + amount)
    case _ => a.(over90 := a.over90 + amount)
  }

  function ByDate(): (Entry, Entry) -> bool {
    (e: Entry, f: Entry) => e.occurredOn <= f.occurredOn
  }

  function IsDebit(): Entry -> bool {
    (e: Entry) => e.delta > 0
  }

  function Debit(): Entry -> int {
    (e: Entry) => Pos(e.delta)
  }

  function Credit(): Entry -> int {
    (e: Entry) => Pos(-e.delta)
  }

  function OlderDebit(asOf: int, days: int): Entry -> int {
    (e: Entry) => if asOf - e.occurredOn > days then Pos(e.delta) else 0
  }

  /** What is owed from before a threshold, after all credits: the debits older than it
      minus every credit, never below zero. */
  function StillOwed(s: seq<Entry>, asOf: int, days: int): int {
    Pos(Sum(s, OlderDebit(asOf, days)) - Sum(s, Credit()))
  }

  /** The aging of a set of live entries, without any allocation order. */
  function ClosedForm(s: seq<Entry>, asOf: int): (a: Aging)
    ensures a.OlderThan(Some(90)) == StillOwed(s, asOf, 90)
    ensures a.OlderThan(Some(60)) == StillOwed(s, asOf, 60)
    ensures a.OlderThan(Some(30)) == StillOwed(s, asOf, 30)
    ensures a.Total() - a.unapplied == Sum(s, Debit()) - Sum(s, Credit())
    ensures a.unapplied == 0 || a.Total() == 0
  {
    var all := Pos(Sum(s, Debit()) - Sum(s, Credit()));
    Aging(asOf,
          all - StillOwed(s, asOf, 30),
          StillOwed(s, asOf, 30) - StillOwed(s, asOf, 60),
          StillOwed(s, asOf, 60) - StillOwed(s, asOf, 90),
          StillOwed(s, asOf, 90),
          Pos(Sum(s, Credit()) - Sum(s, Debit())))
  }

  /** Once a debit is past the threshold, so is every debit spent before it. */
  lemma OlderPrefix(s: seq<Entry>, k: nat, asOf: int, days: int)
    requires Sorted(s, ByDate()) && k < |s| && asOf - s[k].occurredOn > days
    ensures Sum(s[..k], OlderDebit(asOf, days)) == Sum(s[..k], Debit())
  {
    forall i | 0 <= i < k
      ensures OlderDebit(asOf, days)(s[..k][i]) == Debit()(s[..k][i])
    {
      assert ByDate()(s[i], s[k]);
    }
    SumEqual(s[..k], OlderDebit(asOf, days), Debit());
  }

  lemma {:induction false} FilterSorted(s: seq<Entry>)
    requires Sorted(s, ByDate())
    ensures Sorted(Filter(s, IsDebit()), ByDate())
  {
    if s != [] {
      var n := |s| - 1;
      FilterSorted(s[..n]);
      FilterMembers(s[..n], IsDebit());
      var f := Filter(s[..n], IsDebit());
      forall i | 0 <= i < |f|
        ensures ByDate()(f[i], s[n])
      {
        assert f[i] in s[..n];
        var j :| 0 <= j < n && s[j] == f[i];
        assert ByDate()(s[j], s[n]);
      }
    }
  }

  /** The buckets once these debits have been through the loop with these credits. */
  ghost predicate Bucketed(a: Aging, done: seq<Entry>, credits: int) {
    && a.OlderThan(Some(90)) == Pos(Sum(done, OlderDebit(a.asOf, 90)) - credits)
    && a.OlderThan(Some(60)) == Pos(Sum(done, OlderDebit(a.asOf, 60)) - credits)
    && a.OlderThan(Some(30)) == Pos(Sum(done, OlderDebit(a.asOf, 30)) - credits)
  }

  /** What a debit leaves outstanding, given the pool the earlier debits left. */
  function Outstanding(debit: int, before: int, credits: int): int {
    debit - Min(Pos(credits - before), debit)
  }

  /** The amount older than `days` after one more debit. */
  lemma AllocateOne(s: seq<Entry>, k: nat, asOf: int, days: int, credits: int)
    requires Sorted(s, ByDate()) && k < |s| && s[k].delta > 0 && credits >= 0
    ensures Pos(Sum(s[..k + 1], OlderDebit(asOf, days)) - credits)
            == Pos(Sum(s[..k], OlderDebit(asOf, days)) - credits)
               + if asOf - s[k].occurredOn > days then Outstanding(s[k].delta, Sum(s[..k], Debit()), credits) else 0
  {
    SumTake(s, k, OlderDebit(asOf, days));
    if asOf - s[k].occurredOn > days {
      OlderPrefix(s, k, asOf, days);
    }
  }

  lemma AddOlder(a: Aging, age: int, amount: int)
    ensures Add(a, BucketOf(age), amount).Total() == a.Total() + amount
    ensures Add(a, BucketOf(age), amount).OlderThan(Some(90)) == a.OlderThan(Some(90)) + if age > 90 then amount else 0
    ensures Add(a, BucketOf(age), amount).OlderThan(Some(60)) == a.OlderThan(Some(60)) + if age > 60 then amount else 0
    ensures Add(a, BucketOf(age), amount).OlderThan(Some(30)) == a.OlderThan(Some(30)) + if age > 30 then amount else 0
    ensures Add(a, BucketOf(age), amount).asOf == a.asOf
    ensures amount == 0 ==> Add(a, BucketOf(age), amount) == a
  {
  }

  /** One turn of the allocation loop keeps the buckets exact. */
  lemma AllocateStep(a: Aging, s: seq<Entry>, k: nat, credits: int)
    requires Sorted(s, ByDate()) && k < |s| && s[k].delta > 0 && credits >= 0
    requires Bucketed(a, s[..k], credits)
    ensures var out := Outstanding(s[k].delta, Sum(s[..k], Debit()), credits);
            Bucketed(Add(a, BucketOf(a.asOf - s[k].occurredOn), out), s[..k + 1], credits)
  {
    AddOlder(a, a.asOf - s[k].occurredOn, Outstanding(s[k].delta, Sum(s[..k], Debit()), credits));
    AllocateOne(s, k, a.asOf, 90, credits);
    AllocateOne(s, k, a.asOf, 60, credits);
    AllocateOne(s, k, a.asOf, 30, credits);
  }

  /** The first loop of `aging_from_entries`: debits kept in order, credits pooled. */
  method PoolCredits(entries: seq<Entry>) returns (debits: seq<Entry>, pool: int)
    ensures debits == Filter(entries, IsDebit()) && pool == Sum(entries, Credit()) >= 0
  {
    debits, pool := [], 0;
    var i := 0;
    while i < |entries|
      invariant 0 <= i <= |entries|
      invariant debits == Filter(entries[..i], IsDebit())
      invariant pool == Sum(entries[..i], Credit()) >= 0
    {
      FilterTake(entries, i, IsDebit());
      SumTake(entries, i, Credit());
      if entries[i].delta > 0 {
        debits := debits + [entries[i]];
      } else if entries[i].delta < 0 {
        pool := pool + -entries[i].delta;
      }
      i := i + 1;
    }
    assert entries[..i] == entries;
  }

  /** What the second loop has established after `i` debits. */
  ghost predicate Reached(a: Aging, debits: seq<Entry>, i: nat, pool: int, credits: int)
    requires i <= |debits|
  {
    var spent := Sum(debits[..i], Debit());
    && pool == Pos(credits - spent) && a.Total() == Pos(spent - credits)
    && (Sorted(debits, ByDate()) ==> Bucketed(a, debits[..i], credits))
  }

  lemma AllocateTurn(a: Aging, debits: seq<Entry>, i: nat, pool: int, credits: int)
    requires i < |debits| && debits[i].delta > 0 && credits >= 0 && Reached(a, debits, i, pool, credits)
    ensures var out := debits[i].delta - Min(pool, debits[i].delta);
            Reached(Add(a, BucketOf(a.asOf - debits[i].occurredOn), out), debits, i + 1,
                pool - Min(pool, debits[i].delta), credits)
            && (out == 0 ==> Add(a, BucketOf(a.asOf - debits[i].occurredOn), out) == a)
            && Add(a, BucketOf(a.asOf - debits[i].occurredOn), out).asOf == a.asOf
  {
    SumTake(debits, i, Debit());
    AddOlder(a, a.asOf - debits[i].occurredOn, debits[i].delta - Min(pool, debits[i].delta));
    if Sorted(debits, ByDate()) {
      AllocateStep(a, debits, i, credits);
    }
  }

  lemma AllReached(a: Aging, debits: seq<Entry>, pool: int, credits: int)
    requires Reached(a, debits, |debits|, pool, credits)
    ensures var z := a.(unapplied := pool);
            && z.unapplied == Pos(credits - Sum(debits, Debit())) && z.Total() == Pos(Sum(debits, Debit()) - credits)
            && (Sorted(debits, ByDate()) ==> Bucketed(z, debits, credits))
  {
    assert debits[..|debits|] == debits;
  }

  /** The second loop: credits clear the debits front to back, the rest is bucketed. */
  method Allocate(debits: seq<Entry>, credits: int, asOf: int) returns (a: Aging)
    requires credits >= 0 && forall k :: 0 <= k < |debits| ==> debits[k].delta > 0
    ensures a.asOf == asOf
    ensures a.unapplied == Pos(credits - Sum(debits, Debit())) && a.Total() == Pos(Sum(debits, Debit()) - credits)
    ensures Sorted(debits, ByDate()) ==> Bucketed(a, debits, credits)
  {
    var pool := credits;
    a := Aging(asOf, 0, 0, 0, 0, 0);
    var i := 0;
    while i < |debits|
      invariant 0 <= i <= |debits| && a.asOf == asOf && Reached(a, debits, i, pool, credits)
    {
      var outstanding := debits[i].delta;
      var applied := Min(pool, outstanding);
      AllocateTurn(a, debits, i, pool, credits);
      pool := pool - applied;
      outstanding := outstanding - applied;
      if outstanding > 0 {
        a := Add(a, BucketOf(asOf - debits[i].occurredOn), outstanding);
      }
      i := i + 1;
    }
    AllReached(a, debits, pool, credits);
    a := a.(unapplied := pool);
  }

  /** The debits alone, bucketed against the pooled credits, are the closed form. */
  lemma BucketedIsClosed(a: Aging, entries: seq<Entry>)
    requires Bucketed(a, Filter(entries, IsDebit()), Sum(entries, Credit()))
    requires a.unapplied == Pos(Sum(entries, Credit()) - Sum(entries, Debit()))
    requires a.Total() == Pos(Sum(entries, Debit()) - Sum(entries, Credit()))
    ensures a == ClosedForm(entries, a.asOf)
  {
    DebitSum(entries, OlderDebit(a.asOf, 30));
    DebitSum(entries, OlderDebit(a.asOf, 60));
    DebitSum(entries, OlderDebit(a.asOf, 90));
  }

  lemma DebitSum(s: seq<Entry>, w: Entry -> int)
    requires forall e :: !IsDebit()(e) ==> w(e) == 0
    ensures Sum(Filter(s, IsDebit()), w) == Sum(s, w)
  {
    SumFilter(s, IsDebit(), w, w);
  }

  lemma DebitsArePositive(entries: seq<Entry>)
    ensures var debits := Filter(entries, IsDebit());
            forall k :: 0 <= k < |debits| ==> debits[k].delta > 0
  {
    var debits := Filter(entries, IsDebit());
    FilterMembers(entries, IsDebit());
    forall k | 0 <= k < |debits|
      ensures debits[k].delta > 0
    {
      assert debits[k] in debits && IsDebit()(debits[k]);
    }
  }

  /** `aging_from_entries`. For any order the totals are those of the balance; in date
      order every bucket is the closed form. */
  method AgingFromEntries(entries: seq<Entry>, asOf: int) returns (a: Aging)
    ensures a.asOf == asOf
    ensures a.Total() == ClosedForm(entries, asOf).Total() && a.unapplied == ClosedForm(entries, asOf).unapplied
    ensures Sorted(entries, ByDate()) ==> a == ClosedForm(entries, asOf)
  {
    var debits, credits := PoolCredits(entries);
    DebitsArePositive(entries);
    a := Allocate(debits, credits, asOf);
    DebitSum(entries, Debit());
    if Sorted(entries, ByDate()) {
      FilterSorted(entries);
      BucketedIsClosed(a, entries);
    }
  }

  /** A way to spend the credits: how much of each debit is paid. */
  ghost predicate Allocation(debits: seq<Entry>, paid: seq<int>, credits: int) {
    && |paid| == |debits|
    && (forall i :: 0 <= i < |debits| ==> 0 <= paid[i] <= debits[i].delta)
    && Sum(paid, Amount()) <= credits
  }

  function Amount(): int -> int {
    (x: int) => x
  }

  /** What an allocation leaves unpaid of the debits older than the threshold. */
  function LeftOlder(debits: seq<Entry>, paid: seq<int>, asOf: int, days: int): int
    requires |paid| == |debits|
  {
    if debits == [] then 0
    else
      var n := |debits| - 1;
      LeftOlder(debits[..n], paid[..n], asOf, days)
      + if asOf - debits[n].occurredOn > days then debits[n].delta - paid[n] else 0
  }

  lemma {:induction false} LeftOlderBound(debits: seq<Entry>, paid: seq<int>, asOf: int, days: int)
    requires |paid| == |debits| && forall i :: 0 <= i < |debits| ==> 0 <= paid[i] <= debits[i].delta
    ensures LeftOlder(debits, paid, asOf, days) >= 0
    ensures LeftOlder(debits, paid, asOf, days) >= Sum(debits, OlderDebit(asOf, days)) - Sum(paid, Amount())
  {
    if debits != [] {
      LeftOlderBound(debits[..|debits| - 1], paid[..|debits| - 1], asOf, days);
    }
  }

  /** No allocation of the credits, oldest-first or not, leaves less old debt than the
      report shows, at any threshold. */
  lemma FifoLeavesLeastOldDebt(entries: seq<Entry>, paid: seq<int>, asOf: int, days: int)
    requires Allocation(Filter(entries, IsDebit()), paid, Sum(entries, Credit()))
    ensures LeftOlder(Filter(entries, IsDebit()), paid, asOf, days) >= StillOwed(entries, asOf, days)
  {
    LeftOlderBound(Filter(entries, IsDebit()), paid, asOf, days);
    DebitSum(entries, OlderDebit(asOf, days));
  }

  // ----- What the report depends on -----

  /** Only the signed amount and the business date of an entry. */
  function Dated(s: seq<Entry>): (r: seq<(int, int)>)
    ensures |r| == |s|
  {
    seq(|s|, i requires 0 <= i < |s| => (s[i].delta, s[i].occurredOn))
  }

  function DatedCredit(): ((int, int)) -> int {
    (p: (int, int)) => Pos(-p.0)
  }

  function DatedDebit(): ((int, int)) -> int {
    (p: (int, int)) => Pos(p.0)
  }

  function DatedOlder(asOf: int, days: int): ((int, int)) -> int {
    (p: (int, int)) => if asOf - p.1 > days then Pos(p.0) else 0
  }

  /** Posting order, ties, contacts and descriptions play no part: two sets of entries
      with the same (amount, date) pairs age identically. */
  lemma AgingDependsOnAmountsAndDates(s: seq<Entry>, t: seq<Entry>, asOf: int)
    requires multiset(Dated(s)) == multiset(Dated(t))
    ensures ClosedForm(s, asOf) == ClosedForm(t, asOf)
  {
    SumPermutation(Dated(s), Dated(t), DatedCredit());
    SumPairwise(s, Dated(s), Credit(), DatedCredit());
    SumPairwise(t, Dated(t), Credit(), DatedCredit());
    SumPermutation(Dated(s), Dated(t), DatedDebit());
    SumPairwise(s, Dated(s), Debit(), DatedDebit());
    SumPairwise(t, Dated(t), Debit(), DatedDebit());
    forall days
      ensures StillOwed(s, asOf, days) == StillOwed(t, asOf, days)
    {
      SumPermutation(Dated(s), Dated(t), DatedOlder(asOf, days));
      SumPairwise(s, Dated(s), OlderDebit(asOf, days), DatedOlder(asOf, days));
      SumPairwise(t, Dated(t), OlderDebit(asOf, days), DatedOlder(asOf, days));
    }
  }
}
