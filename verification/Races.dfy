/** What the loser of a race is told: two trades for one offer on two contacts can both
    pass their checks, and the unique index decides between them at the insert. */
module Races {
  import opened Sequences
  import opened Money
  import opened Ledger
  import opened Concurrency
  import Out = Outcomes

  lemma InsertPhase(s: System, t: nat)
    requires Protocol(s) && Enabled(s, InsertRow(t)) && !s.txs[t].op.Reverse?
    ensures CanInsert(s.books, s.txs[t].op)
    ensures var p := s.txs[t].op.p;
            var row := PostedRow(p, LastBalance(s.books.entries, p.business, p.contact));
            var e := InsertError(s.books.entries, row);
            Next(s, InsertRow(t)).txs[t].phase
            == if e.Some? then Failed(Surfaced(s.txs[t].op, e.value)) else Inserted(row)
  {
    assert TxOk(s.books, s.txs[t]);
  }

  /** How an insert ends, said of the committed rows of that moment: figures that do not fit
      overflow, a taken id or, for a trade, a taken offer ends it with `clash`, and
      everything else goes in. */
  ghost predicate InsertEnds(es: seq<Entry>, p: Posting, clash: LedgerError, phase: Phase) {
    && p.amount.Number? && !p.kind.Reversal?
    && var cents := HalfEven(p.amount.value);
       var moved := if p.kind.Sale? || p.kind.PaymentMade? || p.kind.AdjustDebit? then cents else -cents;
       if !Out.FitsColumns(cents, LastBalance(es, p.business, p.contact) + moved) then phase == Failed(NumericOverflow)
       else if (exists i :: 0 <= i < |es| && es[i].id == p.id)
               || ((p.kind.Sale? || p.kind.Purchase?) && p.offer.Some?
                   && Out.HoldsTrade(es, p.business, p.offer.value)) then phase == Failed(clash)
       else phase.Inserted?
  }

  lemma StoreAnswers(es: seq<Entry>, p: Posting, clash: LedgerError, phase: Phase)
    requires !p.kind.Reversal? && Quantize(p.amount).Some?
    requires var row := PostedRow(p, LastBalance(es, p.business, p.contact));
             var e := InsertError(es, row);
             phase == if e == Some(IntegrityViolation) then Failed(clash)
                      else if e.Some? then Failed(e.value) else Inserted(row)
    ensures InsertEnds(es, p, clash, phase)
  {
    Out.StoreTakes(es, PostedRow(p, LastBalance(es, p.business, p.contact)));
  }

  /** The insert of a trade turns a clash into a duplicate without naming an entry; that of
      any other posting ends with the violation itself. */
  lemma InsertingAPosting(s: System, t: nat)
    requires Protocol(s) && Enabled(s, InsertRow(t)) && !s.txs[t].op.Reverse?
    ensures s.txs[t].op.Post? || s.txs[t].op.PostTrade?
    ensures InsertEnds(s.books.entries, s.txs[t].op.p,
              if s.txs[t].op.PostTrade? then Duplicate(None) else IntegrityViolation,
              Next(s, InsertRow(t)).txs[t].phase)
  {
    InsertPhase(s, t);
    StoreAnswers(s.books.entries, s.txs[t].op.p,
      if s.txs[t].op.PostTrade? then Duplicate(None) else IntegrityViolation, Next(s, InsertRow(t)).txs[t].phase);
  }

  /** Two trades of one business for one offer, both past their checks: the one whose row
      waits first commits, and the other's insert, whenever the indexes let it decide, ends
      as a duplicate unless its own figures do not fit. */
  lemma TheSecondOfARaceIsADuplicate(s: System, t: nat, u: nat)
    requires Good(s) && Enabled(s, Commit(u)) && t in s.txs && t != u
    requires s.txs[t].op.PostTrade? && s.txs[u].op.PostTrade?
    requires s.txs[t].op.p.business == s.txs[u].op.p.business && s.txs[t].op.p.offer == s.txs[u].op.p.offer
    requires s.txs[t].op.p.offer.Some? && Enabled(Next(s, Commit(u)), InsertRow(t))
    ensures var phase := Next(Next(s, Commit(u)), InsertRow(t)).txs[t].phase;
            phase == Failed(Duplicate(None)) || phase == Failed(NumericOverflow)
  {
    StepKeepsGood(s, Commit(u));
    CommittedTradeTakesTheSlot(s, u);
    TakenSlotIsADuplicate(Next(s, Commit(u)), t);
  }

  lemma CommittedTradeTakesTheSlot(s: System, u: nat)
    requires Protocol(s) && Enabled(s, Commit(u)) && s.txs[u].op.PostTrade? && s.txs[u].op.p.offer.Some?
    ensures SlotTaken(Next(s, Commit(u)).books.entries, s.txs[u].op.p.business, s.txs[u].op.p.offer.value)
  {
    var p := s.txs[u].op.p;
    assert TxOk(s.books, s.txs[u]);
    var after := Next(s, Commit(u)).books.entries;
    assert after[|s.books.entries|] == s.txs[u].phase.row;
    assert Occupies(after[|s.books.entries|], p.business, p.offer.value);
  }

  lemma TakenSlotIsADuplicate(s: System, t: nat)
    requires Protocol(s) && Enabled(s, InsertRow(t)) && s.txs[t].op.PostTrade? && s.txs[t].op.p.offer.Some?
    requires SlotTaken(s.books.entries, s.txs[t].op.p.business, s.txs[t].op.p.offer.value)
    ensures var phase := Next(s, InsertRow(t)).txs[t].phase;
            phase == Failed(Duplicate(None)) || phase == Failed(NumericOverflow)
  {
    InsertPhase(s, t);
    assert TxOk(s.books, s.txs[t]);
  }

  /** The handler around the nested posting misses no violation of an index. */
  ghost predicate NoRawViolation(s: System) {
    forall t :: t in s.txs && s.txs[t].op.PostTrade? && s.txs[t].phase.Failed? ==>
                  !s.txs[t].phase.error.IntegrityViolation?
  }

  lemma StepKeepsNoRawViolation(s: System, step: Step)
    requires NoRawViolation(s) && Enabled(s, step)
    ensures NoRawViolation(Next(s, step))
  {
  }

  lemma {:induction false} RunKeepsNoRawViolation(s: System, steps: seq<Step>, z: System)
    requires NoRawViolation(s) && Runs(s, steps, z)
    ensures NoRawViolation(z)
    decreases |steps|
  {
    if steps != [] {
      StepKeepsNoRawViolation(s, steps[0]);
      RunKeepsNoRawViolation(Next(s, steps[0]), steps[1..], z);
    }
  }

  /** No trade of any interleaving ends with the raw violation of an index. */
  lemma NoTradeEndsInAViolation(b: Books, steps: seq<Step>, z: System, t: nat)
    requires Runs(Start(b), steps, z) && t in z.txs && z.txs[t].op.PostTrade?
    ensures z.txs[t].phase != Failed(IntegrityViolation)
  {
    RunKeepsNoRawViolation(Start(b), steps, z);
  }
}
