/** The balance list, the financial summary and the aging reports over the books, and
    why they always show the same money. */
module Reports {
  import opened Sequences
  import opened Ledger
  import opened Aging
  import CT = Contacts
  import Inv = LedgerInvariant

  // ----- live_entries -----

  function LiveIn(business: nat): Entry -> bool {
    (e: Entry) => e.business == business && Inv.IsLive(e)
  }

  function LiveOn(business: nat, contact: nat): Entry -> bool {
    (e: Entry) => OnAccount(e, business, contact) && Inv.IsLive(e)
  }

  function OfContact(contact: nat): Entry -> bool {
    (e: Entry) => e.contact == contact
  }

  /** Rows are stored in posting order, so a stable sort by date is `occurred_on, created_at`. */
  function LiveEntries(es: seq<Entry>, business: nat): seq<Entry> {
    Sort(Filter(es, LiveIn(business)), ByDate())
  }

  function LiveEntriesOf(es: seq<Entry>, business: nat, contact: nat): seq<Entry> {
    Sort(Filter(es, LiveOn(business, contact)), ByDate())
  }

  lemma LiveOfContact(es: seq<Entry>, business: nat, contact: nat)
    ensures Filter(LiveEntries(es, business), OfContact(contact)) == LiveEntriesOf(es, business, contact)
    ensures Sorted(LiveEntriesOf(es, business, contact), ByDate())
  {
    FilterSort(Filter(es, LiveIn(business)), ByDate(), OfContact(contact));
    FilterFilter(es, LiveIn(business), OfContact(contact), LiveOn(business, contact));
    SortSorts(Filter(es, LiveOn(business, contact)), ByDate());
  }

  // ----- contact_aging -----

  function AccountAging(es: seq<Entry>, business: nat, contact: nat, asOf: int): Aging {
    ClosedForm(LiveEntriesOf(es, business, contact), asOf)
  }

  method ContactAging(es: seq<Entry>, business: nat, contact: nat, asOf: int) returns (a: Aging)
    ensures a == AccountAging(es, business, contact, asOf)
  {
    LiveOfContact(es, business, contact);
    a := AgingFromEntries(LiveEntriesOf(es, business, contact), asOf);
  }

  /** A sum over the live rows of an account, straight from the table. */
  function OnLive(business: nat, contact: nat, w: Entry -> int): Entry -> int {
    (e: Entry) => if OnAccount(e, business, contact) && Inv.IsLive(e) then w(e) else 0
  }

  lemma LiveSum(es: seq<Entry>, business: nat, contact: nat, w: Entry -> int)
    ensures Sum(LiveEntriesOf(es, business, contact), w) == Sum(es, OnLive(business, contact, w))
  {
    var live := Filter(es, LiveOn(business, contact));
    SortSorts(live, ByDate());
    SumPermutation(LiveEntriesOf(es, business, contact), live, w);
    SumFilter(es, LiveOn(business, contact), w, OnLive(business, contact, w));
  }

  lemma {:induction false} DebitMinusCredit(s: seq<Entry>)
    ensures Sum(s, Debit()) - Sum(s, Credit()) == Sum(s, Delta())
  {
    if s != [] {
      DebitMinusCredit(s[..|s| - 1]);
    }
  }

  function Delta(): Entry -> int {
    (e: Entry) => e.delta
  }

  lemma LiveDeltas(es: seq<Entry>, business: nat, contact: nat)
    ensures var live := LiveEntriesOf(es, business, contact);
            Sum(live, Debit()) - Sum(live, Credit()) == Sum(es, Inv.LiveDeltaOn(business, contact))
  {
    DebitMinusCredit(LiveEntriesOf(es, business, contact));
    LiveSum(es, business, contact, Delta());
    SumEqual(es, OnLive(business, contact, Delta()), Inv.LiveDeltaOn(business, contact));
  }

  /** Debt in the buckets, or credit left over. */
  predicate AgesTo(a: Aging, balance: int) {
    a.Total() == Pos(balance) && a.unapplied == Pos(-balance)
  }

  lemma AgingIsTheLiveSum(es: seq<Entry>, business: nat, contact: nat, asOf: int)
    ensures AgesTo(AccountAging(es, business, contact, asOf), Sum(es, Inv.LiveDeltaOn(business, contact)))
  {
    LiveDeltas(es, business, contact);
  }

  /** What a contact's aging shows is its balance: debt in the buckets, or credit left over. */
  lemma AgingIsTheBalance(es: seq<Entry>, business: nat, contact: nat, asOf: int)
    requires Inv.Sound(es)
    ensures AgesTo(AccountAging(es, business, contact, asOf), LastBalance(es, business, contact))
  {
    AgingIsTheLiveSum(es, business, contact, asOf);
    Inv.ThreeBalancesAgree(es, business, contact);
  }

  /** What a row adds to the debt from before a threshold: a debit of the account that has
      not been reversed and is older than that. */
  function Overdue(business: nat, contact: nat, asOf: int, days: int): Entry -> int {
    (e: Entry) =>
      if e.business == business && e.contact == contact && !e.kind.Reversal? && e.reversedAt.None?
         && e.delta > 0 && asOf - e.occurredOn > days then e.delta else 0
  }

  function Standing(business: nat, contact: nat): Entry -> int {
    (e: Entry) =>
      if e.business == business && e.contact == contact && !e.kind.Reversal? && e.reversedAt.None?
         && e.delta < 0 then -e.delta else 0
  }

  /** What a contact owes from more than 30, 60 or 90 days ago, straight from the table: the
      standing debits dated that long before, less every standing credit, whenever it came;
      never below zero. */
  lemma OverdueIs(es: seq<Entry>, business: nat, contact: nat, asOf: int, days: int)
    requires days == 30 || days == 60 || days == 90
    ensures AccountAging(es, business, contact, asOf).OlderThan(Some(days))
            == Pos(Sum(es, Overdue(business, contact, asOf, days)) - Sum(es, Standing(business, contact)))
  {
    LiveSum(es, business, contact, OlderDebit(asOf, days));
    LiveSum(es, business, contact, Credit());
    SumEqual(es, OnLive(business, contact, OlderDebit(asOf, days)), Overdue(business, contact, asOf, days));
    SumEqual(es, OnLive(business, contact, Credit()), Standing(business, contact));
  }

  // ----- contact_balances and business_financial_summary -----

  function Ids(n: nat): (r: seq<nat>)
    ensures |r| == n && forall i :: 0 <= i < n ==> r[i] == i
  {
    seq(n, i => i)
  }

  /** The annotated balance: the SQL sum of the contact's deltas in the business's ledger. */
  function Balance(es: seq<Entry>, business: nat, contact: nat): int {
    Sum(es, Inv.DeltaOn(business, contact))
  }

  function Reported(b: Books, business: nat): nat -> bool {
    (c: nat) => c < |b.contacts| && b.contacts[c].business == business
                && (b.contacts[c].active || Balance(b.entries, business, c) != 0)
  }

  /** `contact_balances`: active contacts, and archived ones that carry money. */
  function ContactBalances(b: Books, business: nat): seq<nat> {
    Filter(Ids(|b.contacts|), Reported(b, business))
  }

  function IsDebtor(b: Books, business: nat): nat -> bool {
    (c: nat) => Balance(b.entries, business, c) > 0
  }

  function ReportedDebtor(b: Books, business: nat): nat -> bool {
    (c: nat) => Reported(b, business)(c) && IsDebtor(b, business)(c)
  }

  function Receivable(b: Books, business: nat): nat -> int {
    (c: nat) => Pos(Balance(b.entries, business, c))
  }

  function Payable(b: Books, business: nat): nat -> int {
    (c: nat) => Pos(-Balance(b.entries, business, c))
  }

  function Net(b: Books, business: nat): nat -> int {
    (c: nat) => Balance(b.entries, business, c)
  }

  datatype Summary = Summary(receivable: int, payable: int, net: int)

  function FinancialSummary(b: Books, business: nat): Summary {
    var rows := ContactBalances(b, business);
    Summary(Sum(rows, Receivable(b, business)), Sum(rows, Payable(b, business)), Sum(rows, Net(b, business)))
  }

  // ----- business_aging -----

  datatype Row = Row(contact: nat, aging: Aging)

  function ByTotalDescending(): (Row, Row) -> bool {
    (r: Row, q: Row) => r.aging.Total() >= q.aging.Total()
  }

  /** The five amounts of an aging, by position. */
  function Part(a: Aging, k: nat): int {
    match k
    case 0 => a.current
    case 1 => a.days31to60
    case 2 => a.days61to90
    case 3 => a.over90
    case _ => a.unapplied
  }

  function PartOf(es: seq<Entry>, business: nat, asOf: int, k: nat): nat -> int {
    (c: nat) => Part(AccountAging(es, business, c, asOf), k)
  }

  function Plus(a: Aging, b: Aging): Aging {
    Aging(a.asOf, a.current + b.current, a.days31to60 + b.days31to60, a.days61to90 + b.days61to90,
          a.over90 + b.over90, a.unapplied + b.unapplied)
  }

  /** The grand total over some contacts. */
  function TotalOver(es: seq<Entry>, business: nat, cs: seq<nat>, asOf: int): Aging {
    if cs == [] then Aging(asOf, 0, 0, 0, 0, 0)
    else Plus(TotalOver(es, business, cs[..|cs| - 1], asOf), AccountAging(es, business, cs[|cs| - 1], asOf))
  }

  lemma PlusAddsParts(a: Aging, b: Aging, k: nat)
    requires k <= 4
    ensures Part(Plus(a, b), k) == Part(a, k) + Part(b, k)
  {
  }

  lemma {:induction false} TotalOverDate(es: seq<Entry>, business: nat, cs: seq<nat>, asOf: int)
    ensures TotalOver(es, business, cs, asOf).asOf == asOf
  {
    if cs != [] {
      TotalOverDate(es, business, cs[..|cs| - 1], asOf);
    }
  }

  lemma {:induction false} TotalOverIsSum(es: seq<Entry>, business: nat, cs: seq<nat>, asOf: int, k: nat)
    requires k <= 4
    ensures Part(TotalOver(es, business, cs, asOf), k) == Sum(cs, PartOf(es, business, asOf, k))
  {
    if cs != [] {
      var n := |cs| - 1;
      TotalOverIsSum(es, business, cs[..n], asOf, k);
      PlusAddsParts(TotalOver(es, business, cs[..n], asOf), AccountAging(es, business, cs[n], asOf), k);
    }
  }

  function HasDebt(es: seq<Entry>, business: nat, asOf: int): nat -> bool {
    (c: nat) => AccountAging(es, business, c, asOf).Total() > 0
  }

  /** The report rows of some contacts, in the same order. */
  function RowsOf(es: seq<Entry>, business: nat, cs: seq<nat>, asOf: int): seq<Row> {
    Map(cs, RowFor(es, business, asOf))
  }

  function RowFor(es: seq<Entry>, business: nat, asOf: int): nat -> Row {
    (c: nat) => Row(c, AccountAging(es, business, c, asOf))
  }

  // ----- The contacts the grouping visits are all that matter -----

  function InOrder(order: seq<nat>): nat -> bool {
    (c: nat) => c in order
  }

  /** `order` lists, once each, the contacts with a live entry in the business. */
  ghost predicate Visits(es: seq<Entry>, business: nat, order: seq<nat>) {
    && Distinct(order)
    && forall c :: c in order
          <==> exists i :: 0 <= i < |LiveEntries(es, business)| && LiveEntries(es, business)[i].contact == c
  }

  lemma UnvisitedIsZero(es: seq<Entry>, business: nat, order: seq<nat>, c: nat, asOf: int)
    requires Visits(es, business, order) && c !in order
    ensures AccountAging(es, business, c, asOf) == Aging(asOf, 0, 0, 0, 0, 0)
  {
    LiveOfContact(es, business, c);
    NothingToFilter(LiveEntries(es, business), c);
  }

  lemma VisitedAreContacts(es: seq<Entry>, business: nat, order: seq<nat>, n: nat)
    requires Visits(es, business, order) && forall i :: 0 <= i < |es| ==> es[i].contact < n
    ensures forall c :: c in order ==> c < n
  {
    var live := Filter(es, LiveIn(business));
    SortSorts(live, ByDate());
    FilterMembers(es, LiveIn(business));
    forall c: nat | c in order
      ensures c < n
    {
      var i :| 0 <= i < |LiveEntries(es, business)| && LiveEntries(es, business)[i].contact == c;
      var e := LiveEntries(es, business)[i];
      assert e in multiset(live);
      assert e in live && e in es;
    }
  }

  /** A sum over the visited contacts is the sum over all, when the others weigh nothing. */
  lemma VisitedSum(order: seq<nat>, n: nat, w: nat -> int)
    requires Distinct(order) && forall c :: c in order ==> c < n
    requires forall c: nat :: c < n && c !in order ==> w(c) == 0
    ensures Sum(order, w) == Sum(Ids(n), w)
  {
    var visited := Filter(Ids(n), InOrder(order));
    FilterMembers(Ids(n), InOrder(order));
    FilterDistinct(Ids(n), InOrder(order));
    forall c: nat
      ensures c in order <==> c in visited
    {
      assert c in order ==> Ids(n)[c] == c;
    }
    DistinctSameRows(order, visited);
    SumPermutation(order, visited, w);
    SumFilter(Ids(n), InOrder(order), w, w);
  }

  lemma PartsOverVisited(es: seq<Entry>, business: nat, order: seq<nat>, n: nat, asOf: int, k: nat)
    requires Visits(es, business, order) && k <= 4 && forall c :: c in order ==> c < n
    ensures Part(TotalOver(es, business, order, asOf), k) == Part(TotalOver(es, business, Ids(n), asOf), k)
  {
    var w := PartOf(es, business, asOf, k);
    forall c: nat | c < n && c !in order
      ensures w(c) == 0
    {
      UnvisitedIsZero(es, business, order, c, asOf);
    }
    VisitedSum(order, n, w);
    TotalOverIsSum(es, business, order, asOf, k);
    TotalOverIsSum(es, business, Ids(n), asOf, k);
  }

  lemma DebtorsAreVisited(es: seq<Entry>, business: nat, order: seq<nat>, n: nat, asOf: int)
    requires Visits(es, business, order) && forall c :: c in order ==> c < n
    ensures multiset(Filter(order, HasDebt(es, business, asOf)))
              == multiset(Filter(Ids(n), HasDebt(es, business, asOf)))
  {
    var p := HasDebt(es, business, asOf);
    FilterMembers(order, p);
    FilterMembers(Ids(n), p);
    FilterDistinct(order, p);
    FilterDistinct(Ids(n), p);
    forall c: nat
      ensures c in Filter(order, p) <==> c in Filter(Ids(n), p)
    {
      if p(c) && c !in order {
        UnvisitedIsZero(es, business, order, c, asOf);
      }
      assert c in order ==> Ids(n)[c] == c;
    }
    DistinctSameRows(Filter(order, p), Filter(Ids(n), p));
  }

  lemma OrderCoversDebt(es: seq<Entry>, n: nat, business: nat, asOf: int, order: seq<nat>)
    requires Visits(es, business, order) && forall i :: 0 <= i < |es| ==> es[i].contact < n
    ensures TotalOver(es, business, order, asOf) == TotalOver(es, business, Ids(n), asOf)
    ensures multiset(RowsOf(es, business, Filter(order, HasDebt(es, business, asOf)), asOf))
            == multiset(RowsOf(es, business, Filter(Ids(n), HasDebt(es, business, asOf)), asOf))
  {
    VisitedAreContacts(es, business, order, n);
    PartsOverVisited(es, business, order, n, asOf, 0);
    PartsOverVisited(es, business, order, n, asOf, 1);
    PartsOverVisited(es, business, order, n, asOf, 2);
    PartsOverVisited(es, business, order, n, asOf, 3);
    PartsOverVisited(es, business, order, n, asOf, 4);
    TotalOverDate(es, business, order, asOf);
    TotalOverDate(es, business, Ids(n), asOf);
    DebtorsAreVisited(es, business, order, n, asOf);
    MapPermutation(Filter(order, HasDebt(es, business, asOf)), Filter(Ids(n), HasDebt(es, business, asOf)),
        RowFor(es, business, asOf));
  }

  /** Group the live entries per contact, in the order contacts first appear. */
  method GroupByContact(live: seq<Entry>) returns (order: seq<nat>, groups: map<nat, seq<Entry>>)
    ensures Distinct(order)
    ensures forall c :: c in order <==> c in groups
    ensures forall c :: c in order <==> exists i :: 0 <= i < |live| && live[i].contact == c
    ensures forall c :: c in order ==> groups[c] == Filter(live, OfContact(c))
  {
    order, groups := [], map[];
    var n := 0;
    while n < |live|
      invariant 0 <= n <= |live|
      invariant Distinct(order)
      invariant forall c :: c in order <==> c in groups
      invariant forall c :: c in order <==> exists i :: 0 <= i < n && live[i].contact == c
      invariant forall c :: c in order ==> groups[c] == Filter(live[..n], OfContact(c))
    {
      var c := live[n].contact;
      if c !in groups {
        NothingToFilter(live[..n], c);
        order := order + [c];
        groups := groups[c := []];
      }
      groups := groups[c := groups[c] + [live[n]]];
      forall d | d in order
        ensures groups[d] == Filter(live[..n + 1], OfContact(d))
      {
        FilterTake(live, n, OfContact(d));
      }
      n := n + 1;
    }
    assert live[..n] == live;
  }

  lemma {:induction false} NothingToFilter(s: seq<Entry>, c: nat)
    requires forall i :: 0 <= i < |s| ==> s[i].contact != c
    ensures Filter(s, OfContact(c)) == []
  {
    if s != [] {
      NothingToFilter(s[..|s| - 1], c);
    }
  }

  /** One turn of the report loop over the groups. */
  lemma ReportStep(es: seq<Entry>, business: nat, order: seq<nat>, n: nat, asOf: int)
    requires n < |order|
    ensures var aging := AccountAging(es, business, order[n], asOf);
            var p := HasDebt(es, business, asOf);
            var rows := RowsOf(es, business, Filter(order[..n], p), asOf);
            && TotalOver(es, business, order[..n + 1], asOf) == Plus(TotalOver(es, business, order[..n], asOf), aging)
            && RowsOf(es, business, Filter(order[..n + 1], p), asOf)
                  == if aging.Total() > 0 then rows + [Row(order[n], aging)] else rows
  {
    FilterTake(order, n, HasDebt(es, business, asOf));
    assert order[..n + 1][..n] == order[..n];
  }

  method GroupAging(es: seq<Entry>, business: nat, c: nat, group: seq<Entry>, asOf: int) returns (a: Aging)
    requires group == Filter(LiveEntries(es, business), OfContact(c))
    ensures a == AccountAging(es, business, c, asOf)
  {
    LiveOfContact(es, business, c);
    a := AgingFromEntries(group, asOf);
  }

  /** `business_aging`: one pass over the whole business refines `contact_aging` per
      contact. The totals are those of all contacts; the rows are the contacts with debt,
      each with its own aging, largest debt first. */
  method BusinessAging(es: seq<Entry>, contactCount: nat, business: nat, asOf: int)
      returns (total: Aging, rows: seq<Row>)
    requires forall i :: 0 <= i < |es| ==> es[i].contact < contactCount
    ensures total == TotalOver(es, business, Ids(contactCount), asOf)
    ensures multiset(rows)
              == multiset(RowsOf(es, business, Filter(Ids(contactCount), HasDebt(es, business, asOf)), asOf))
    ensures forall i, j :: 0 <= i < j < |rows| ==> rows[i].aging.Total() >= rows[j].aging.Total()
  {
    var live := LiveEntries(es, business);
    var order, groups := GroupByContact(live);
    rows := [];
    total := Aging(asOf, 0, 0, 0, 0, 0);
    var n := 0;
    while n < |order|
      invariant 0 <= n <= |order|
      invariant total == TotalOver(es, business, order[..n], asOf)
      invariant rows == RowsOf(es, business, Filter(order[..n], HasDebt(es, business, asOf)), asOf)
    {
      var c := order[n];
      assert c in order;
      var aging := GroupAging(es, business, c, groups[c], asOf);
      ReportStep(es, business, order, n, asOf);
      total := Plus(total, aging);
      if aging.Total() > 0 {
        rows := rows + [Row(c, aging)];
      }
      n := n + 1;
    }
    assert order[..n] == order;
    OrderCoversDebt(es, contactCount, business, asOf, order);
    rows := SortRows(rows);
  }

  method SortRows(rows: seq<Row>) returns (sorted: seq<Row>)
    ensures multiset(sorted) == multiset(rows)
    ensures forall i, j :: 0 <= i < j < |sorted| ==> sorted[i].aging.Total() >= sorted[j].aging.Total()
  {
    SortSorts(rows, ByTotalDescending());
    sorted := Sort(rows, ByTotalDescending());
    forall i, j | 0 <= i < j < |sorted|
      ensures sorted[i].aging.Total() >= sorted[j].aging.Total()
    {
      assert ByTotalDescending()(sorted[i], sorted[j]);
    }
  }

  // ----- The reports agree -----

  /** Only the business that owns a contact has rows on that contact's account. */
  lemma {:induction false} ForeignAccountIsEmpty(es: seq<Entry>, business: nat, contact: nat)
    requires forall i :: 0 <= i < |es| ==> !OnAccount(es[i], business, contact)
    ensures LastBalance(es, business, contact) == 0
  {
    if es != [] {
      ForeignAccountIsEmpty(es[..|es| - 1], business, contact);
    }
  }

  /** A contact's debt, whichever report asks, and whether the balance list shows it. */
  ghost predicate ViewsAgree(b: Books, business: nat, c: nat, asOf: int) {
    && AgesTo(AccountAging(b.entries, business, c, asOf), Balance(b.entries, business, c))
    && (Balance(b.entries, business, c) != 0 ==> Reported(b, business)(c))
  }

  ghost predicate AllViewsAgree(b: Books, business: nat, asOf: int) {
    forall c :: 0 <= c < |b.contacts| ==> ViewsAgree(b, business, c, asOf)
  }

  lemma AccountViewsAgree(b: Books, business: nat, c: nat, asOf: int)
    requires Inv.Valid(b) && c < |b.contacts|
    ensures ViewsAgree(b, business, c, asOf)
  {
    AgingIsTheBalance(b.entries, business, c, asOf);
    Inv.BalanceIsSum(b.entries, business, c);
    if b.contacts[c].business != business {
      ForeignAccountIsEmpty(b.entries, business, c);
    }
  }

  lemma ValidBooksAgree(b: Books, business: nat, asOf: int)
    requires Inv.Valid(b)
    ensures AllViewsAgree(b, business, asOf)
  {
    forall c | 0 <= c < |b.contacts|
      ensures ViewsAgree(b, business, c, asOf)
    {
      AccountViewsAgree(b, business, c, asOf);
    }
  }

  /** The balance list shows the business's own contacts: every active one, settled or not,
      and the archived ones whose balance is not zero. */
  lemma ListedContacts(b: Books, business: nat, c: nat)
    requires Inv.Valid(b)
    ensures c in ContactBalances(b, business) <==>
              (&& c < |b.contacts| && b.contacts[c].business == business
               && (b.contacts[c].active || LastBalance(b.entries, business, c) != 0))
  {
    FilterMembers(Ids(|b.contacts|), Reported(b, business));
    Inv.BalanceIsSum(b.entries, business, c);
    assert c < |b.contacts| ==> Ids(|b.contacts|)[c] == c;
  }

  lemma DebtorRow(b: Books, business: nat, c: nat, asOf: int)
    requires ViewsAgree(b, business, c, asOf)
    ensures HasDebt(b.entries, business, asOf)(c) == ReportedDebtor(b, business)(c)
  {
    var a := AccountAging(b.entries, business, c, asOf);
    assert HasDebt(b.entries, business, asOf)(c) == (a.Total() > 0);
    assert IsDebtor(b, business)(c) == (Balance(b.entries, business, c) > 0);
    assert ReportedDebtor(b, business)(c) == (Reported(b, business)(c) && IsDebtor(b, business)(c));
  }

  /** The rows of `business_aging` are exactly the contacts the balance list calls debtors. */
  lemma AgingRowsAreTheDebtors(b: Books, business: nat, asOf: int)
    requires AllViewsAgree(b, business, asOf)
    ensures Filter(Ids(|b.contacts|), HasDebt(b.entries, business, asOf))
            == Filter(ContactBalances(b, business), IsDebtor(b, business))
  {
    var ids := Ids(|b.contacts|);
    forall c | 0 <= c < |ids|
      ensures HasDebt(b.entries, business, asOf)(ids[c]) == ReportedDebtor(b, business)(ids[c])
    {
      assert ViewsAgree(b, business, c, asOf);
      DebtorRow(b, business, c, asOf);
    }
    FilterEqual(ids, HasDebt(b.entries, business, asOf), ReportedDebtor(b, business));
    FilterFilter(ids, Reported(b, business), IsDebtor(b, business), ReportedDebtor(b, business));
  }

  /** A total over the reported contacts is the total over all of them: the unreported
      carry no money. */
  lemma ReportedCarryTheMoney(b: Books, business: nat, asOf: int, w: nat -> int)
    requires AllViewsAgree(b, business, asOf)
    requires forall c :: 0 <= c < |b.contacts| && Balance(b.entries, business, c) == 0 ==> w(c) == 0
    ensures Sum(ContactBalances(b, business), w) == Sum(Ids(|b.contacts|), w)
  {
    var ids := Ids(|b.contacts|);
    forall c | 0 <= c < |ids|
      ensures w(ids[c]) == if Reported(b, business)(ids[c]) then w(ids[c]) else 0
    {
      assert ViewsAgree(b, business, c, asOf) && ids[c] == c;
    }
    SumFilter(ids, Reported(b, business), w, w);
  }

  function DebtOf(es: seq<Entry>, business: nat, asOf: int): nat -> int {
    (c: nat) => AccountAging(es, business, c, asOf).Total()
  }

  lemma {:induction false} TotalOverTotal(es: seq<Entry>, business: nat, cs: seq<nat>, asOf: int)
    ensures TotalOver(es, business, cs, asOf).Total() == Sum(cs, DebtOf(es, business, asOf))
  {
    if cs != [] {
      TotalOverTotal(es, business, cs[..|cs| - 1], asOf);
    }
  }

  lemma ContactMoney(b: Books, business: nat, c: nat, asOf: int)
    requires ViewsAgree(b, business, c, asOf)
    ensures DebtOf(b.entries, business, asOf)(c) == Receivable(b, business)(c)
    ensures PartOf(b.entries, business, asOf, 4)(c) == Payable(b, business)(c)
  {
  }

  lemma TotalsAreBalances(b: Books, business: nat, asOf: int)
    requires AllViewsAgree(b, business, asOf)
    ensures var t := TotalOver(b.entries, business, Ids(|b.contacts|), asOf);
            && t.Total() == Sum(Ids(|b.contacts|), Receivable(b, business))
            && t.unapplied == Sum(Ids(|b.contacts|), Payable(b, business))
  {
    var ids := Ids(|b.contacts|);
    forall c | 0 <= c < |ids|
      ensures DebtOf(b.entries, business, asOf)(ids[c]) == Receivable(b, business)(ids[c])
      ensures PartOf(b.entries, business, asOf, 4)(ids[c]) == Payable(b, business)(ids[c])
    {
      assert ViewsAgree(b, business, c, asOf);
      ContactMoney(b, business, c, asOf);
    }
    TotalOverTotal(b.entries, business, ids, asOf);
    TotalOverIsSum(b.entries, business, ids, asOf, 4);
    SumEqual(ids, DebtOf(b.entries, business, asOf), Receivable(b, business));
    SumEqual(ids, PartOf(b.entries, business, asOf, 4), Payable(b, business));
  }

  /** The summary over all contacts, reported or not. */
  function TotalSummary(b: Books, business: nat): Summary {
    var ids := Ids(|b.contacts|);
    var receivable, payable := Sum(ids, Receivable(b, business)), Sum(ids, Payable(b, business));
    Summary(receivable, payable, receivable - payable)
  }

  lemma AgreeingSummary(b: Books, business: nat, asOf: int)
    requires AllViewsAgree(b, business, asOf)
    ensures FinancialSummary(b, business) == TotalSummary(b, business)
  {
    SumDifference(ContactBalances(b, business), Receivable(b, business), Payable(b, business), Net(b, business));
    ReportedCarryTheMoney(b, business, asOf, Receivable(b, business));
    ReportedCarryTheMoney(b, business, asOf, Payable(b, business));
  }

  lemma AgreeingViewsReconcile(b: Books, business: nat, asOf: int)
    requires AllViewsAgree(b, business, asOf)
    ensures TotalOver(b.entries, business, Ids(|b.contacts|), asOf).Total() == FinancialSummary(b, business).receivable
    ensures TotalOver(b.entries, business, Ids(|b.contacts|), asOf).unapplied == FinancialSummary(b, business).payable
    ensures FinancialSummary(b, business).receivable - FinancialSummary(b, business).payable
            == FinancialSummary(b, business).net
  {
    TotalsAreBalances(b, business, asOf);
    AgreeingSummary(b, business, asOf);
  }

  /** On every reachable book the aging report and the financial summary show the same
      receivables, payables and net, archived contacts included. */
  lemma ReportsReconcile(b: Books, business: nat, asOf: int)
    requires Inv.Valid(b)
    ensures TotalOver(b.entries, business, Ids(|b.contacts|), asOf).Total() == FinancialSummary(b, business).receivable
    ensures TotalOver(b.entries, business, Ids(|b.contacts|), asOf).unapplied == FinancialSummary(b, business).payable
    ensures FinancialSummary(b, business).receivable - FinancialSummary(b, business).payable
              == FinancialSummary(b, business).net
    ensures Filter(Ids(|b.contacts|), HasDebt(b.entries, business, asOf))
              == Filter(ContactBalances(b, business), IsDebtor(b, business))
  {
    ValidBooksAgree(b, business, asOf);
    AgreeingViewsReconcile(b, business, asOf);
    AgingRowsAreTheDebtors(b, business, asOf);
  }

  lemma {:induction false} SumOverMore(n: nat, m: nat, v: nat -> int, w: nat -> int)
    requires n <= m && (forall c: nat :: c < n ==> v(c) == w(c)) && (forall c: nat :: n <= c < m ==> w(c) == 0)
    ensures Sum(Ids(n), v) == Sum(Ids(m), w)
  {
    if n < m {
      SumOverMore(n, m - 1, v, w);
      assert Ids(m)[..m - 1] == Ids(m - 1);
    } else {
      SumEqual(Ids(n), v, w);
    }
  }

  lemma {:induction false} FilterOverMore(n: nat, m: nat, p: nat -> bool, q: nat -> bool)
    requires n <= m && (forall c: nat :: c < n ==> p(c) == q(c)) && (forall c: nat :: n <= c < m ==> !q(c))
    ensures Filter(Ids(n), p) == Filter(Ids(m), q)
  {
    if n < m {
      FilterOverMore(n, m - 1, p, q);
      assert Ids(m)[..m - 1] == Ids(m - 1);
    } else {
      FilterEqual(Ids(n), p, q);
    }
  }

  lemma SummaryIsTotal(b: Books, business: nat)
    requires Inv.Valid(b)
    ensures FinancialSummary(b, business) == TotalSummary(b, business)
  {
    ValidBooksAgree(b, business, 0);
    AgreeingSummary(b, business, 0);
  }

  /** A contact that no row names has a zero balance. */
  lemma {:induction false} NoRowsNoBalance(es: seq<Entry>, business: nat, contact: nat)
    requires forall i :: 0 <= i < |es| ==> es[i].contact != contact
    ensures Balance(es, business, contact) == 0
  {
    if es != [] {
      NoRowsNoBalance(es[..|es| - 1], business, contact);
    }
  }

  lemma NewContactsOweNothing(b: Books, business: nat, n: nat)
    requires Inv.Owned(b) && n >= |b.contacts|
    ensures Balance(b.entries, business, n) == 0
  {
    NoRowsNoBalance(b.entries, business, n);
  }

  /** Contact rows may change, and new ones appear: as long as the books stay valid, no
      total moves and the debtors are the same. */
  lemma ContactCallsHideNoMoney(b: Books, contacts: seq<CT.Contact>, business: nat, asOf: int)
    requires Inv.Valid(b) && Inv.Valid(b.(contacts := contacts)) && |contacts| >= |b.contacts|
    ensures var c := b.(contacts := contacts);
            && FinancialSummary(c, business) == FinancialSummary(b, business)
            && Filter(ContactBalances(c, business), IsDebtor(c, business))
               == Filter(ContactBalances(b, business), IsDebtor(b, business))
  {
    var c := b.(contacts := contacts);
    var n, m := |b.contacts|, |contacts|;
    forall k: nat | n <= k
      ensures Balance(b.entries, business, k) == 0
    {
      NewContactsOweNothing(b, business, k);
    }
    SummaryIsTotal(b, business);
    SummaryIsTotal(c, business);
    SummariesAgree(b, c, business);
    DebtorsAgree(b, c, business, asOf);
  }

  lemma SummariesAgree(b: Books, c: Books, business: nat)
    requires c.entries == b.entries && |c.contacts| >= |b.contacts|
    requires forall k: nat :: |b.contacts| <= k ==> Balance(b.entries, business, k) == 0
    ensures TotalSummary(c, business) == TotalSummary(b, business)
  {
    SumOverMore(|b.contacts|, |c.contacts|, Receivable(b, business), Receivable(c, business));
    SumOverMore(|b.contacts|, |c.contacts|, Payable(b, business), Payable(c, business));
  }

  lemma DebtorsAgree(b: Books, c: Books, business: nat, asOf: int)
    requires Inv.Valid(b) && Inv.Valid(c) && c.entries == b.entries && |c.contacts| >= |b.contacts|
    requires forall k: nat :: |b.contacts| <= k ==> Balance(b.entries, business, k) == 0
    ensures Filter(ContactBalances(c, business), IsDebtor(c, business))
            == Filter(ContactBalances(b, business), IsDebtor(b, business))
  {
    DebtorsAreAll(b, business, asOf);
    DebtorsAreAll(c, business, asOf);
    FilterOverMore(|b.contacts|, |c.contacts|, IsDebtor(b, business), IsDebtor(c, business));
  }

  /** Every contact with a positive balance is in the balance list. */
  lemma DebtorsAreAll(b: Books, business: nat, asOf: int)
    requires Inv.Valid(b)
    ensures Filter(ContactBalances(b, business), IsDebtor(b, business))
              == Filter(Ids(|b.contacts|), IsDebtor(b, business))
  {
    var ids := Ids(|b.contacts|);
    ValidBooksAgree(b, business, asOf);
    forall c | 0 <= c < |ids|
      ensures IsDebtor(b, business)(ids[c]) == ReportedDebtor(b, business)(ids[c])
    {
      assert ViewsAgree(b, business, c, asOf);
    }
    FilterEqual(ids, IsDebtor(b, business), ReportedDebtor(b, business));
    FilterFilter(ids, Reported(b, business), IsDebtor(b, business), ReportedDebtor(b, business));
  }

  /** Creating, editing, archiving or restoring a contact hides no money from any report. */
  lemma OneCallHidesNoMoney(b: Books, call: CT.Call, businesses: set<nat>, business: nat, asOf: int)
    requires Inv.Valid(b)
    ensures var c := Apply(b, ContactCall(call, businesses));
            && FinancialSummary(c, business) == FinancialSummary(b, business)
            && Filter(ContactBalances(c, business), IsDebtor(c, business))
               == Filter(ContactBalances(b, business), IsDebtor(b, business))
  {
    Inv.ContactCallKeepsValid(b, call, businesses);
    ContactCallsHideNoMoney(b, CT.Step(b.contacts, call, businesses), business, asOf);
  }
}
