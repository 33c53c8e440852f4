/** The statement of one account and its footer: when the columns add up to the balances
    on screen, and by exactly how much they do not. */
module Statement {
  import opened Sequences
  import opened Ledger
  import opened Money
  import CT = Contacts
  import PR = PurchaseRequests
  import Inv = LedgerInvariant

  datatype Filters = Filters(from: Option<int>, to: Option<int>, kind: Option<Kind>)

  predicate InWindow(e: Entry, f: Filters) {
    && (f.from.Some? ==> f.from.value <= e.occurredOn)
    && (f.to.Some? ==> e.occurredOn <= f.to.value)
  }

  /** A row `contact_statement` shows. */
  predicate Matches(e: Entry, business: nat, contact: nat, f: Filters) {
    OnAccount(e, business, contact) && InWindow(e, f) && (f.kind.Some? ==> e.kind == f.kind.value)
  }

  function Shown(business: nat, contact: nat, f: Filters): Entry -> bool {
    (e: Entry) => Matches(e, business, contact, f)
  }

  /** `contact_statement`: rows are stored in posting order. */
  function ContactStatement(es: seq<Entry>, business: nat, contact: nat, f: Filters): seq<Entry> {
    Filter(es, Shown(business, contact, f))
  }

  function DebitAmount(): Entry -> int {
    (e: Entry) => if e.delta > 0 then e.amount else 0
  }

  function CreditAmount(): Entry -> int {
    (e: Entry) => if e.delta < 0 then e.amount else 0
  }

  datatype Totals = Totals(debit: int, credit: int, closing: Option<int>)

  /** `statement_totals`: the two columns, and the running balance of the last row shown. */
  function StatementTotals(rows: seq<Entry>): Totals {
    Totals(Sum(rows, DebitAmount()), Sum(rows, CreditAmount()),
           if rows == [] then None else Some(rows[|rows| - 1].balanceAfter))
  }

  /** The rows on the statement are those of the account, dated inside the window with both
      ends counted, and of the kind asked for. */
  lemma StatementShows(es: seq<Entry>, business: nat, contact: nat, f: Filters, e: Entry)
    ensures e in ContactStatement(es, business, contact, f) <==>
              (&& e in es && e.business == business && e.contact == contact
               && (f.from.Some? ==> e.occurredOn >= f.from.value)
               && (f.to.Some? ==> e.occurredOn <= f.to.value)
               && (f.kind.Some? ==> f.kind == Some(e.kind)))
  {
    FilterMembers(es, Shown(business, contact, f));
  }

  function Rise(): Entry -> int {
    (e: Entry) => Pos(e.delta)
  }

  function Fall(): Entry -> int {
    (e: Entry) => Pos(-e.delta)
  }

  /** Every row shown counts in one column: what it raised the balance by is in the debit
      column, what it lowered it by in the credit column. */
  lemma ColumnsAre(es: seq<Entry>, business: nat, contact: nat, f: Filters)
    requires Inv.RowsOk(es)
    ensures var rows := ContactStatement(es, business, contact, f);
            StatementTotals(rows).debit == Sum(rows, Rise()) && StatementTotals(rows).credit == Sum(rows, Fall())
  {
    var rows := ContactStatement(es, business, contact, f);
    FilterMembers(es, Shown(business, contact, f));
    forall i | 0 <= i < |rows|
      ensures DebitAmount()(rows[i]) == Rise()(rows[i]) && CreditAmount()(rows[i]) == Fall()(rows[i])
    {
      assert rows[i] in es;
    }
    SumEqual(rows, DebitAmount(), Rise());
    SumEqual(rows, CreditAmount(), Fall());
  }

  /** The delta of a row shown. */
  function ShownDelta(business: nat, contact: nat, f: Filters): Entry -> int {
    (e: Entry) => if Matches(e, business, contact, f) then e.delta else 0
  }

  /** The delta of a row of the account that the filters hide. */
  function HiddenDelta(business: nat, contact: nat, f: Filters): Entry -> int {
    (e: Entry) => if OnAccount(e, business, contact) && !Matches(e, business, contact, f) then e.delta else 0
  }

  lemma {:induction false} ColumnsAreDeltas(es: seq<Entry>, business: nat, contact: nat, f: Filters)
    requires Inv.RowsOk(es)
    ensures var t := StatementTotals(ContactStatement(es, business, contact, f));
            t.debit - t.credit == Sum(es, ShownDelta(business, contact, f))
  {
    if es != [] {
      var n := |es| - 1;
      assert Inv.RowOk(es[n]);
      assert Inv.RowsOk(es[..n]);
      ColumnsAreDeltas(es[..n], business, contact, f);
      SumAppend(ContactStatement(es[..n], business, contact, f), es[n], DebitAmount());
      SumAppend(ContactStatement(es[..n], business, contact, f), es[n], CreditAmount());
    }
  }

  lemma {:induction false} ChainedPrefix(es: seq<Entry>, n: nat)
    requires Inv.Chained(es) && n <= |es|
    ensures Inv.Chained(es[..n])
  {
    if n < |es| {
      ChainedPrefix(es[..|es| - 1], n);
      assert es[..|es| - 1][..n] == es[..n];
    } else {
      assert es[..n] == es;
    }
  }

  /** Rows that match nothing show nothing. */
  lemma {:induction false} NothingShown(es: seq<Entry>, business: nat, contact: nat, f: Filters)
    requires forall i :: 0 <= i < |es| ==> !Matches(es[i], business, contact, f)
    ensures ContactStatement(es, business, contact, f) == [] && Sum(es, ShownDelta(business, contact, f)) == 0
  {
    if es != [] {
      NothingShown(es[..|es| - 1], business, contact, f);
    }
  }

  lemma {:induction false} LastShown(es: seq<Entry>, business: nat, contact: nat, f: Filters, last: nat)
    requires last < |es| && Matches(es[last], business, contact, f)
    requires forall i :: last < i < |es| ==> !Matches(es[i], business, contact, f)
    ensures var rows := ContactStatement(es, business, contact, f);
            rows != [] && rows[|rows| - 1] == es[last]
  {
    if last < |es| - 1 {
      LastShown(es[..|es| - 1], business, contact, f, last);
    }
  }

  lemma {:induction false} ShownPlusHidden(es: seq<Entry>, business: nat, contact: nat, f: Filters)
    ensures Sum(es, ShownDelta(business, contact, f)) + Sum(es, HiddenDelta(business, contact, f))
            == Sum(es, Inv.DeltaOn(business, contact))
  {
    if es != [] {
      ShownPlusHidden(es[..|es| - 1], business, contact, f);
    }
  }

  /** All rows shown lie between the first and the last one. */
  ghost predicate ShowsFromTo(es: seq<Entry>, business: nat, contact: nat, f: Filters, first: nat, last: nat) {
    && first <= last < |es|
    && Matches(es[first], business, contact, f) && Matches(es[last], business, contact, f)
    && forall i :: 0 <= i < |es| && Matches(es[i], business, contact, f) ==> first <= i <= last
  }

  lemma ShownBetween(es: seq<Entry>, business: nat, contact: nat, f: Filters, first: nat, last: nat)
    requires ShowsFromTo(es, business, contact, f, first, last)
    ensures Sum(es, ShownDelta(business, contact, f)) == Sum(es[first..last + 1], ShownDelta(business, contact, f))
  {
    assert es == es[..first] + es[first..last + 1] + es[last + 1..];
    SumConcat(es[..first] + es[first..last + 1], es[last + 1..], ShownDelta(business, contact, f));
    SumConcat(es[..first], es[first..last + 1], ShownDelta(business, contact, f));
    NothingShown(es[..first], business, contact, f);
    NothingShown(es[last + 1..], business, contact, f);
  }

  lemma MovedBetween(es: seq<Entry>, business: nat, contact: nat, first: nat, last: nat)
    requires Inv.Chained(es) && first <= last < |es| && OnAccount(es[last], business, contact)
    ensures es[last].balanceAfter - LastBalance(es[..first], business, contact)
              == Sum(es[first..last + 1], Inv.DeltaOn(business, contact))
  {
    assert es[..last + 1] == es[..first] + es[first..last + 1];
    ChainedPrefix(es, first);
    ChainedPrefix(es, last + 1);
    Inv.BalanceIsSum(es[..first], business, contact);
    Inv.BalanceIsSum(es[..last + 1], business, contact);
    SumConcat(es[..first], es[first..last + 1], Inv.DeltaOn(business, contact));
  }

  /** For any filters: the footer misses the move from the opening to the closing balance
      by exactly the deltas of the rows hidden between the first and the last row shown, so
      it telescopes exactly when those add up to nothing. */
  lemma FooterGap(es: seq<Entry>, business: nat, contact: nat, f: Filters, first: nat, last: nat)
    requires Inv.Sound(es) && ShowsFromTo(es, business, contact, f, first, last)
    ensures var t := StatementTotals(ContactStatement(es, business, contact, f));
            && t.closing == Some(es[last].balanceAfter)
            && t.closing.value - LastBalance(es[..first], business, contact)
               == t.debit - t.credit + Sum(es[first..last + 1], HiddenDelta(business, contact, f))
            && (t.closing == Some(LastBalance(es[..first], business, contact) + t.debit - t.credit)
                <==> Sum(es[first..last + 1], HiddenDelta(business, contact, f)) == 0)
  {
    ColumnsAreDeltas(es, business, contact, f);
    ShownBetween(es, business, contact, f, first, last);
    LastShown(es, business, contact, f, last);
    MovedBetween(es, business, contact, first, last);
    ShownPlusHidden(es[first..last + 1], business, contact, f);
  }

  /** The whole account: debits minus credits is the closing balance is the balance. */
  lemma WholeStatementBalances(es: seq<Entry>, business: nat, contact: nat)
    requires Inv.Sound(es)
    ensures var t := StatementTotals(ContactStatement(es, business, contact, Filters(None, None, None)));
            && t.debit - t.credit == LastBalance(es, business, contact)
            && (t.closing.Some? ==> t.closing.value == LastBalance(es, business, contact))
            && (t.closing.None? ==> LastBalance(es, business, contact) == 0)
  {
    var f := Filters(None, None, None);
    ColumnsAreDeltas(es, business, contact, f);
    Inv.BalanceIsSum(es, business, contact);
    SumEqual(es, ShownDelta(business, contact, f), Inv.DeltaOn(business, contact));
    LastRowIsBalance(es, business, contact);
  }

  lemma {:induction false} LastRowIsBalance(es: seq<Entry>, business: nat, contact: nat)
    ensures var rows := ContactStatement(es, business, contact, Filters(None, None, None));
            LastBalance(es, business, contact) == if rows == [] then 0 else rows[|rows| - 1].balanceAfter
  {
    if es != [] {
      LastRowIsBalance(es[..|es| - 1], business, contact);
    }
  }

  /** Dates follow posting order on the account: nothing was back-dated. */
  ghost predicate DatesInOrder(es: seq<Entry>, business: nat, contact: nat) {
    forall i, j :: 0 <= i < j < |es| && OnAccount(es[i], business, contact) && OnAccount(es[j], business, contact) ==>
                     es[i].occurredOn <= es[j].occurredOn
  }

  /** Between two rows shown, dates in order leave nothing to hide. */
  lemma NothingHidden(es: seq<Entry>, business: nat, contact: nat, f: Filters, first: nat, last: nat)
    requires DatesInOrder(es, business, contact) && f.kind.None? && first <= last < |es|
    requires Matches(es[first], business, contact, f) && Matches(es[last], business, contact, f)
    ensures Sum(es[first..last + 1], HiddenDelta(business, contact, f)) == 0
  {
    var shown := es[first..last + 1];
    forall i | 0 <= i < |shown|
      ensures 0 <= HiddenDelta(business, contact, f)(shown[i]) <= 0
    {
      assert shown[i] == es[first + i];
    }
    SumBounds(shown, HiddenDelta(business, contact, f), 0);
  }

  /** Without back-dating, any date window telescopes: opening plus debits minus credits
      is the closing balance. */
  lemma DateWindowTelescopes(es: seq<Entry>, business: nat, contact: nat, f: Filters, first: nat, last: nat)
    requires Inv.Sound(es) && DatesInOrder(es, business, contact) && f.kind.None?
    requires ShowsFromTo(es, business, contact, f, first, last)
    ensures var t := StatementTotals(ContactStatement(es, business, contact, f));
            t.closing == Some(LastBalance(es[..first], business, contact) + t.debit - t.credit)
  {
    FooterGap(es, business, contact, f, first, last);
    NothingHidden(es, business, contact, f, first, last);
  }

  // ----- With a back-dated row -----

  /** A business with one contact and an empty book. */
  function Shop(es: seq<Entry>): Books {
    Books(es, [CT.Contact(1, "ab", None, true, 0)], PR.Tables([], []))
  }

  function Selling(id: nat, date: int): Posting {
    Posting(id, 1, 0, Member(1, true), Sale, Number(0.1), true, Some(date), 0, None, None)
  }

  function SaleOn(id: nat, balance: int, date: int): Entry {
    Entry(id, 1, 0, Sale, 10, 10, balance, date, None, None, None)
  }

  /** Three sales, the middle one dated outside the window that ends on day 5. */
  function BackDated(): seq<Entry> {
    [SaleOn(0, 10, 1), SaleOn(1, 20, 9), SaleOn(2, 30, 1)]
  }

  lemma SaleIsPosted(es: seq<Entry>, fs: seq<Entry>, id: nat, balance: int, date: int)
    requires !HasId(es, id) && LastBalance(es, 1, 0) == balance && 0 <= balance <= 1000
    requires fs == es + [SaleOn(id, balance + 10, date)]
    ensures Apply(Shop(es), Post(Selling(id, date))) == Shop(fs)
  {
    assert HalfEven(0.1) == 10;
  }

  function Sales(): seq<Op> {
    [Post(Selling(0, 1)), Post(Selling(1, 9)), Post(Selling(2, 1))]
  }

  lemma FirstTwoSales()
    ensures Apply(Shop([]), Post(Selling(0, 1))) == Shop([SaleOn(0, 10, 1)])
    ensures Apply(Shop([SaleOn(0, 10, 1)]), Post(Selling(1, 9))) == Shop([SaleOn(0, 10, 1), SaleOn(1, 20, 9)])
  {
    SaleIsPosted([], [SaleOn(0, 10, 1)], 0, 0, 1);
    SaleIsPosted([SaleOn(0, 10, 1)], [SaleOn(0, 10, 1), SaleOn(1, 20, 9)], 1, 10, 9);
  }

  lemma LastSale()
    ensures Apply(Shop([SaleOn(0, 10, 1), SaleOn(1, 20, 9)]), Post(Selling(2, 1))) == Shop(BackDated())
  {
    SaleIsPosted([SaleOn(0, 10, 1), SaleOn(1, 20, 9)], BackDated(), 2, 20, 1);
  }

  /** They are posted by the service, one after the other. */
  lemma BackDatedIsReached()
    ensures Reaches(Shop([]), Sales(), Shop(BackDated()))
  {
    FirstTwoSales();
    LastSale();
    ThreeCalls(Shop([]), Shop([SaleOn(0, 10, 1)]), Shop([SaleOn(0, 10, 1), SaleOn(1, 20, 9)]), Shop(BackDated()),
               Post(Selling(0, 1)), Post(Selling(1, 9)), Post(Selling(2, 1)));
  }

  lemma EmptyShopIsValid()
    ensures Inv.Valid(Shop([]))
  {
  }

  lemma BackDatedIsSound()
    ensures Inv.Sound(BackDated())
  {
    BackDatedIsReached();
    EmptyShopIsValid();
    Inv.EveryRunIsValid(Shop([]), Sales(), Shop(BackDated()));
  }

  lemma ThreeCalls(b: Books, c: Books, d: Books, e: Books, x: Op, y: Op, z: Op)
    requires PR.References(b.desk) && PR.References(c.desk) && PR.References(d.desk)
    requires Apply(b, x) == c && Apply(c, y) == d && Apply(d, z) == e
    ensures Reaches(b, [x, y, z], e)
  {
    assert [z][1..] == [] && [y, z][1..] == [z] && [x, y, z][1..] == [y, z];
    assert Reaches(d, [z], e);
    assert Reaches(c, [y, z], e);
  }

  /** The footer then falls short by that sale: 20 in the debit column, 30 at closing. */
  lemma BackDatingBreaksTheFooter()
    ensures Reaches(Shop([]), Sales(), Shop(BackDated()))
    ensures var t := StatementTotals(ContactStatement(BackDated(), 1, 0, Filters(None, Some(5), None)));
            Inv.Sound(BackDated()) && t.closing == Some(30) && t.debit - t.credit == 20
  {
    var f := Filters(None, Some(5), None);
    BackDatedIsReached();
    BackDatedIsSound();
    FooterGap(BackDated(), 1, 0, f, 0, 2);
    HiddenSale(f);
  }

  lemma HiddenSale(f: Filters)
    requires f == Filters(None, Some(5), None)
    ensures Sum(BackDated()[0..3], HiddenDelta(1, 0, f)) == 10
  {
    var w := HiddenDelta(1, 0, f);
    assert BackDated()[0..3] == [] + [SaleOn(0, 10, 1)] + [SaleOn(1, 20, 9)] + [SaleOn(2, 30, 1)];
    SumAppend([], SaleOn(0, 10, 1), w);
    SumAppend([] + [SaleOn(0, 10, 1)], SaleOn(1, 20, 9), w);
    SumAppend([] + [SaleOn(0, 10, 1)] + [SaleOn(1, 20, 9)], SaleOn(2, 30, 1), w);
  }
}
