/** What every interleaving of transactions keeps on the committed books, at each moment:
    reports that reconcile, and the exact rule for trades on one request. */
module Interleavings {
  import opened Sequences
  import opened Ledger
  import opened Reports
  import opened Composition
  import Con = Concurrency
  import Inv = LedgerInvariant

  /** At any point of any interleaving, whatever is still in flight, the reports over the
      committed books agree with each other. */
  lemma EveryInterleavingReconciles(b: Books, steps: seq<Con.Step>, z: Con.System, business: nat, asOf: int)
    requires Inv.Valid(b) && Con.Runs(Con.Start(b), steps, z)
    ensures var total := TotalOver(z.books.entries, business, Ids(|z.books.contacts|), asOf);
            var summary := FinancialSummary(z.books, business);
            && total.Total() == summary.receivable && total.unapplied == summary.payable
            && summary.receivable - summary.payable == summary.net
    ensures Filter(Ids(|z.books.contacts|), HasDebt(z.books.entries, business, asOf))
            == Filter(ContactBalances(z.books, business), IsDebtor(z.books, business))
  {
    Con.EveryInterleavingIsSerial(b, steps, z);
    ReportsReconcile(z.books, business, asOf);
  }

  /** The step commits a second trade for a request recorded already. */
  predicate CommitsDouble(s: Con.System, step: Con.Step)
    requires Con.Enabled(s, step)
  {
    step.Commit? && Doubles(s.books, s.txs[step.t].op)
  }

  /** The committed books never show two live trades of a business for one request. */
  ghost predicate AlwaysOneTradeCommitted(s: Con.System, steps: seq<Con.Step>)
    decreases |steps|
  {
    OneTradePerRequest(s.books)
    && (steps == [] || (Con.Enabled(s, steps[0]) && AlwaysOneTradeCommitted(Con.Next(s, steps[0]), steps[1..])))
  }

  ghost predicate NeverCommitsDouble(s: Con.System, steps: seq<Con.Step>)
    decreases |steps|
  {
    steps == []
    || (&& Con.Enabled(s, steps[0]) && !CommitsDouble(s, steps[0])
        && NeverCommitsDouble(Con.Next(s, steps[0]), steps[1..]))
  }

  /** One step of an interleaving: the rule survives exactly when the step is no commit of
      a second trade; what is in flight does not count. */
  lemma InterleavedStepKeepsOneTradeIff(s: Con.System, step: Con.Step)
    requires Con.Good(s) && Con.Enabled(s, step) && OffersExist(s.books) && OneTradePerRequest(s.books)
    ensures OneTradePerRequest(Con.Next(s, step).books) <==> !CommitsDouble(s, step)
    ensures OffersExist(Con.Next(s, step).books)
  {
    match step
    case Commit(t) =>
      Con.CommitIsApply(s, t);
      StepKeepsOneTradeIff(s.books, s.txs[t].op);
      OffersStillExist(s.books, s.txs[t].op);
    case Environment(op) =>
      StepKeepsOneTradeIff(s.books, op);
      OffersStillExist(s.books, op);
    case _ =>
  }

  lemma {:induction false} RunKeepsOneTradeIff(s: Con.System, steps: seq<Con.Step>, z: Con.System)
    requires Con.Good(s) && Con.Runs(s, steps, z) && OffersExist(s.books) && OneTradePerRequest(s.books)
    ensures AlwaysOneTradeCommitted(s, steps) <==> NeverCommitsDouble(s, steps)
    decreases |steps|
  {
    if steps != [] {
      InterleavedStepKeepsOneTradeIff(s, steps[0]);
      Con.StepKeepsGood(s, steps[0]);
      if !CommitsDouble(s, steps[0]) {
        RunKeepsOneTradeIff(Con.Next(s, steps[0]), steps[1..], z);
      }
    }
  }

  /** Every interleaving keeps one live trade per business and request all along if and
      only if no transaction of it commits a second one. */
  lemma EveryInterleavingKeepsOneTradeIff(b: Books, steps: seq<Con.Step>, z: Con.System)
    requires Inv.Valid(b) && Con.Runs(Con.Start(b), steps, z) && OffersExist(b) && OneTradePerRequest(b)
    ensures AlwaysOneTradeCommitted(Con.Start(b), steps) <==> NeverCommitsDouble(Con.Start(b), steps)
  {
    RunKeepsOneTradeIff(Con.Start(b), steps, z);
  }
}
