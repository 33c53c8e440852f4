/** What a successful posting means for everybody's balance, and for how long a recorded
    trade or a reversal binds. */
module Outcomes {
  import opened Sequences
  import opened Money
  import opened Ledger
  import PR = PurchaseRequests
  import Inv = LedgerInvariant

  /** From the owning business's side: does the kind of entry raise what the contact owes? */
  predicate RaisesDebt(kind: Kind)
    requires !kind.Reversal?
  {
    kind.Sale? || kind.PaymentMade? || kind.AdjustDebit?
  }

  /** A posting moves the balance of its own account by the amount handed in, rounded to
      the cent, in the direction of its kind, and moves no other account. */
  lemma PostingMovesOneBalance(b: Books, op: Op, business: nat, contact: nat)
    requires PR.References(b.desk) && (op.Post? || op.PostTrade?) && Verdict(b, op).Ok?
    ensures !op.p.kind.Reversal? && Quantize(op.p.amount).Some? && Quantize(op.p.amount).value > 0
    ensures var cents := Quantize(op.p.amount).value;
            var moved := if business != op.p.business || contact != op.p.contact then 0
                         else if RaisesDebt(op.p.kind) then cents else -cents;
            LastBalance(Apply(b, op).entries, business, contact) == LastBalance(b.entries, business, contact) + moved
  {
    assert Apply(b, op).entries[..|b.entries|] == b.entries;
  }

  /** Adjustments have to be explained. */
  predicate IsAdjustment(kind: Kind) {
    kind.AdjustDebit? || kind.AdjustCredit?
  }

  /** The row an accepted posting appends, field by field: dated on the day given, and on
      the day of the call only when none is. */
  lemma PostedRowIs(b: Books, op: Op)
    requires PR.References(b.desk) && (op.Post? || op.PostTrade?) && Verdict(b, op).Ok?
    ensures op.p.amount.Number? && !op.p.kind.Reversal?
    ensures |Apply(b, op).entries| == |b.entries| + 1 && Apply(b, op).entries[..|b.entries|] == b.entries
    ensures var p, row := op.p, Apply(b, op).entries[|b.entries|];
            && row.id == p.id && row.business == p.business && row.contact == p.contact
            && row.kind == p.kind && row.offer == p.offer
            && row.occurredOn == (if p.occurredOn.Some? then p.occurredOn.value else p.today)
            && row.reverses.None? && row.reversedAt.None?
    ensures var p, row := op.p, Apply(b, op).entries[|b.entries|];
            && row.amount == HalfEven(p.amount.value) > 0
            && row.delta == (if RaisesDebt(p.kind) then row.amount else -row.amount)
            && row.balanceAfter == LastBalance(b.entries, p.business, p.contact) + row.delta
  {
  }

  /** Some live sale or purchase of the business is recorded for the offer. */
  predicate HoldsTrade(es: seq<Entry>, business: nat, offer: nat) {
    exists i :: && 0 <= i < |es| && es[i].business == business && es[i].offer == Some(offer)
                && (es[i].kind.Sale? || es[i].kind.Purchase?) && es[i].reversedAt.None?
  }

  predicate IsParty(b: Books, business: nat, offer: nat)
    requires PR.References(b.desk) && offer < |b.desk.offers|
  {
    var o := b.desk.offers[offer];
    business == o.seller || business == b.desk.requests[o.request].business
  }

  /** A number above half a cent that the decimal context can hold. */
  predicate IsGoodAmount(amount: RawAmount) {
    amount.Number? && amount.value > 0.005 && HalfEven(amount.value) < 10_000_000_000_000_000_000_000_000_000
  }

  lemma GoodAmount(amount: RawAmount)
    ensures IsGoodAmount(amount) <==> Quantize(amount).Some? && Quantize(amount).value > 0
    ensures IsGoodAmount(amount) ==> Quantize(amount) == Some(HalfEven(amount.value))
  {
    if amount.Number? {
      SmallestAmount(amount.value);
    }
  }

  /** The columns hold 14 and 18 digits, two of them decimals. */
  predicate FitsColumns(amount: int, balance: int) {
    amount < 100_000_000_000_000 && -1_000_000_000_000_000_000 < balance < 1_000_000_000_000_000_000
  }

  /** The first check that fails before the contact is locked, in plain terms. */
  lemma PostIsRefusedFor(b: Books, p: Posting)
    requires PR.References(b.desk)
    ensures PostRefusal(b, p)
            == if p.contact >= |b.contacts| || (p.offer.Some? && p.offer.value >= |b.desk.offers|) then Some(MissingRow)
               else if p.member.NoMember? || !p.member.manages then Some(NotAllowed)
               else if p.member.business != p.business then Some(WrongBusiness)
               else if b.contacts[p.contact].business != p.business then Some(ForeignContact)
               else if p.kind.Reversal? then Some(BadKind)
               else if !IsGoodAmount(p.amount) then Some(BadAmount)
               else if IsAdjustment(p.kind) && !p.hasReason then Some(ReasonRequired)
               else if p.lotOwner.Some? && p.lotOwner != Some(p.business) then Some(ForeignLot)
               else if p.offer.Some? && !IsParty(b, p.business, p.offer.value) then Some(ForeignOffer)
               else None
  {
    GoodAmount(p.amount);
  }

  /** When a posting is accepted, said of the call itself: a member who manages the
      business's ledger, the business's own contact, a kind that is no reversal, a good
      amount, a reason for adjustments, an own lot, an offer the business is party to; and
      then the figures must fit, the id be new, and a trade's offer be free. */
  lemma PostIsAcceptedIff(b: Books, p: Posting)
    requires PR.References(b.desk)
    ensures Verdict(b, Post(p)).Ok? <==>
              (&& p.contact < |b.contacts| && b.contacts[p.contact].business == p.business
               && p.member == Member(p.business, true)
               && !p.kind.Reversal? && IsGoodAmount(p.amount) && (IsAdjustment(p.kind) ==> p.hasReason)
               && (p.lotOwner.Some? ==> p.lotOwner.value == p.business)
               && (p.offer.Some? ==> p.offer.value < |b.desk.offers| && IsParty(b, p.business, p.offer.value))
               && (var cents := HalfEven(p.amount.value);
                   var moved := if RaisesDebt(p.kind) then cents else -cents;
                   FitsColumns(cents, LastBalance(b.entries, p.business, p.contact) + moved))
               && (forall i :: 0 <= i < |b.entries| ==> b.entries[i].id != p.id)
               && ((p.kind.Sale? || p.kind.Purchase?) && p.offer.Some? ==>
                     !HoldsTrade(b.entries, p.business, p.offer.value)))
  {
    PostIsRefusedFor(b, p);
    if PostRefusal(b, p).None? {
      GoodAmount(p.amount);
      StoreTakes(b.entries, PostedRow(p, LastBalance(b.entries, p.business, p.contact)));
    }
  }

  /** When the store takes a live row: its figures fit, its id is new, and a trade's offer
      is not recorded already. */
  lemma StoreTakes(es: seq<Entry>, row: Entry)
    requires row.reversedAt.None?
    ensures InsertError(es, row)
            == if !FitsColumns(row.amount, row.balanceAfter) then Some(NumericOverflow)
               else if (exists i :: 0 <= i < |es| && es[i].id == row.id)
                       || ((row.kind.Sale? || row.kind.Purchase?) && row.offer.Some?
                           && HoldsTrade(es, row.business, row.offer.value)) then Some(IntegrityViolation)
               else None
  {
    if row.offer.Some? {
      SlotIsTaken(es, row.business, row.offer.value);
    }
  }

  lemma SlotIsTaken(es: seq<Entry>, business: nat, offer: nat)
    ensures SlotTaken(es, business, offer) <==> HoldsTrade(es, business, offer)
  {
    forall i | 0 <= i < |es|
      ensures Occupies(es[i], business, offer) <==>
                (&& es[i].business == business && es[i].offer == Some(offer)
                 && (es[i].kind.Sale? || es[i].kind.Purchase?) && es[i].reversedAt.None?)
    {
    }
  }

  /** A posting that passes the checks and is not accepted failed in the store. */
  lemma PostFailsInTheStore(b: Books, p: Posting)
    requires PostRefusal(b, p).None?
    ensures var cents := HalfEven(p.amount.value);
            var moved := if RaisesDebt(p.kind) then cents else -cents;
            var fits := FitsColumns(cents, LastBalance(b.entries, p.business, p.contact) + moved);
            Verdict(b, Post(p)).Err? ==>
              Verdict(b, Post(p)) == Err(if fits then IntegrityViolation else NumericOverflow)
  {
    StoreTakes(b.entries, PostedRow(p, LastBalance(b.entries, p.business, p.contact)));
  }

  /** The first check of a trade that fails before the contact is locked, in plain terms. */
  lemma TradeIsRefusedFor(b: Books, p: Posting)
    requires PR.References(b.desk)
    ensures TradeRefusal(b, p)
            == if p.contact >= |b.contacts| || (p.offer.Some? && p.offer.value >= |b.desk.offers|) then Some(MissingRow)
               else if p.member.NoMember? || !p.member.manages then Some(NotAllowed)
               else if p.member.business != p.business then Some(WrongBusiness)
               else if !p.kind.Sale? && !p.kind.Purchase? then Some(BadKind)
               else if b.contacts[p.contact].business != p.business then Some(ForeignContact)
               else if p.lotOwner.Some? && p.lotOwner != Some(p.business) then Some(ForeignLot)
               else if p.offer.Some? && !IsParty(b, p.business, p.offer.value) then Some(ForeignOffer)
               else if p.offer.Some? && b.desk.offers[p.offer.value].status != PR.Accepted then Some(OfferNotAccepted)
               else None
  {
  }

  /** A trade is accepted exactly when it is a sale or purchase that could be posted and its
      offer, if it has one, was accepted. */
  lemma TradeIsAcceptedIff(b: Books, p: Posting)
    requires PR.References(b.desk)
    ensures Verdict(b, PostTrade(p)).Ok? <==>
              (&& Verdict(b, Post(p)).Ok? && (p.kind.Sale? || p.kind.Purchase?)
               && (p.offer.Some? ==> b.desk.offers[p.offer.value].status == PR.Accepted))
  {
    TradeIsRefusedFor(b, p);
    PostIsRefusedFor(b, p);
    PostIsAcceptedIff(b, p);
    if p.offer.Some? {
      SlotIsTaken(b.entries, p.business, p.offer.value);
    }
  }

  /** Which error a permitted trade gets: the entry that holds its offer, the check a
      posting would fail, an overflow, or, when its id is taken, a duplicate. */
  lemma PermittedTradeFailsWith(b: Books, p: Posting)
    requires PR.References(b.desk) && TradeRefusal(b, p).None? && Verdict(b, PostTrade(p)).Err?
    ensures var error := Verdict(b, PostTrade(p)).error;
            if p.offer.Some? && HoldsTrade(b.entries, p.business, p.offer.value) then
              error.Duplicate? && error.existing.Some?
              && exists i :: && 0 <= i < |b.entries| && b.entries[i].id == error.existing.value
                             && b.entries[i].business == p.business && b.entries[i].offer == p.offer
                             && b.entries[i].reversedAt.None?
            else if PostRefusal(b, p).Some? then error == PostRefusal(b, p).value
            else error == NumericOverflow || error == Duplicate(None)
  {
    if p.offer.Some? {
      SlotIsTaken(b.entries, p.business, p.offer.value);
    }
  }

  /** The rows after an accepted reversal: the original gains the stamp of the moment, no
      other row changes, and the negating row is dated on the day of the reversal. */
  lemma ReversalIs(b: Books, r: Reversing)
    requires PR.References(b.desk) && Verdict(b, Reverse(r)).Ok?
    ensures exists k :: && 0 <= k < |b.entries| && b.entries[k].id == r.entry
                        && ReversedAs(b.entries[k], k, r, b.entries, Apply(b, Reverse(r)).entries)
  {
    var k := IndexOf(b.entries, r.entry);
    var after := Apply(b, Reverse(r)).entries;
    assert after == Stamp(b.entries, k, r.now) + [Verdict(b, Reverse(r)).value];
    assert ReversedAs(b.entries[k], k, r, b.entries, after);
  }

  ghost predicate ReversedAs(o: Entry, k: nat, r: Reversing, es: seq<Entry>, after: seq<Entry>)
    requires k < |es|
  {
    && |after| == |es| + 1
    && after[k] == (if o.reversedAt.None? then o.(reversedAt := Some(r.now)) else o)
    && (forall i :: 0 <= i < |es| && i != k ==> after[i] == es[i])
    && var row := after[|es|];
       && row.id == r.id && row.reverses == Some(r.entry) && row.kind.Reversal? && row.occurredOn == r.today
       && row.business == o.business && row.contact == o.contact && row.amount == o.amount && row.delta == -o.delta
       && row.offer.None? && row.reversedAt.None?
       && row.balanceAfter == LastBalance(es, o.business, o.contact) - o.delta
  }

  /** Which reversals are accepted, and what the others are refused for; `k` is the entry. */
  lemma ReversalIsAnsweredBy(b: Books, r: Reversing, k: nat)
    requires k < |b.entries| && b.entries[k].id == r.entry
    requires forall i :: 0 <= i < k ==> b.entries[i].id != r.entry
    ensures var o, answer := b.entries[k], Verdict(b, Reverse(r));
            if r.member.NoMember? || !r.member.manages then answer == Err(NotAllowed)
            else if r.member.business != o.business then answer == Err(WrongBusiness)
            else if o.kind.Reversal? then answer == Err(IsReversal)
            else if exists i :: 0 <= i < |b.entries| && b.entries[i].reverses == Some(r.entry) then
              answer == Err(AlreadyReversed)
            else if !FitsColumns(o.amount, LastBalance(b.entries, o.business, o.contact) - o.delta) then
              answer == Err(NumericOverflow)
            else if exists i :: 0 <= i < |b.entries| && b.entries[i].id == r.id then answer == Err(IntegrityViolation)
            else answer.Ok?
  {
    assert IndexOf(b.entries, r.entry) == k;
    Inv.StampIds(b.entries, k, r.now, r.id);
  }

  lemma UnknownEntryIsMissing(b: Books, r: Reversing)
    requires forall i :: 0 <= i < |b.entries| ==> b.entries[i].id != r.entry
    ensures Verdict(b, Reverse(r)) == Err(MissingRow)
  {
    assert IndexOf(b.entries, r.entry) == |b.entries|;
  }

  /** So for a number the rounding context can hold, "greater than zero" in the posting
      services means above half a cent. */
  lemma RefusedAsTooSmall(b: Books, p: Posting)
    requires p.amount.Number? && Quantize(p.amount).Some?
    ensures PostEntry(b, p).Ok? ==> p.amount.value > 0.005
    ensures PostRefusal(b, p) == Some(BadAmount) ==> p.amount.value <= 0.005
  {
    SmallestAmount(p.amount.value);
  }

  /** Of two accepted postings that differ in the amount only, the larger amount posts no
      smaller row. */
  lemma LargerAmountsPostMore(b: Books, p: Posting, x: real, y: real)
    requires x <= y && PostEntry(b, p.(amount := Number(x))).Ok? && PostEntry(b, p.(amount := Number(y))).Ok?
    ensures PostEntry(b, p.(amount := Number(x))).value.amount <= PostEntry(b, p.(amount := Number(y))).value.amount
  {
    HalfEvenMonotone(x, y);
  }

  /** A reversal takes back exactly what its original moved, on that account alone. */
  lemma ReversalMovesOneBalance(b: Books, r: Reversing, business: nat, contact: nat)
    requires PR.References(b.desk) && ReverseEntry(b, r).Ok?
    ensures IndexOf(b.entries, r.entry) < |b.entries|
    ensures var o := b.entries[IndexOf(b.entries, r.entry)];
            LastBalance(Apply(b, Reverse(r)).entries, business, contact)
            == LastBalance(b.entries, business, contact) - if OnAccount(o, business, contact) then o.delta else 0
  {
    var k := IndexOf(b.entries, r.entry);
    var after := Apply(b, Reverse(r)).entries;
    assert after[..|b.entries|] == Stamp(b.entries, k, r.now);
    Inv.StampKeepsBalances(b.entries, k, r.now, business, contact);
  }

  lemma ReversalIsRemembered(b: Books, c: Books, id: nat)
    requires Inv.OnlyGrows(b, c) && HasReversal(b.entries, id)
    ensures HasReversal(c.entries, id)
  {
    var i :| 0 <= i < |b.entries| && b.entries[i].reverses == Some(id);
    assert Inv.SameButStamp(b.entries[i], c.entries[i]);
  }

  lemma ReversalLeavesItsMark(b: Books, r: Reversing)
    requires PR.References(b.desk) && ReverseEntry(b, r).Ok?
    ensures HasReversal(Apply(b, Reverse(r)).entries, r.entry)
  {
    var after := Apply(b, Reverse(r)).entries;
    assert after[|b.entries|].reverses == Some(r.entry);
  }

  lemma MarkRefuses(b: Books, again: Reversing)
    requires HasReversal(b.entries, again.entry)
    ensures ReverseEntry(b, again).Err?
  {
  }

  /** Once an entry has been reversed, no later state of the books lets it be reversed
      again, whoever asks. */
  lemma ReversedOnceForAll(b: Books, r: Reversing, ops: seq<Op>, c: Books, again: Reversing)
    requires Inv.Valid(b) && ReverseEntry(b, r).Ok? && Reaches(Apply(b, Reverse(r)), ops, c) && again.entry == r.entry
    ensures ReverseEntry(c, again).Err?
  {
    var after := Apply(b, Reverse(r));
    Inv.StepKeepsValid(b, Reverse(r));
    ReversalLeavesItsMark(b, r);
    Inv.EveryRunIsValid(after, ops, c);
    ReversalIsRemembered(after, c, r.entry);
    MarkRefuses(c, again);
  }

  /** In sound books the live trade of a slot is the one the duplicate check finds. */
  lemma SlotOwner(es: seq<Entry>, k: nat, business: nat, offer: nat)
    requires Inv.OneLiveTrade(es) && k < |es| && Occupies(es[k], business, offer)
    ensures SlotTaken(es, business, offer) && TradeEntryForOffer(es, business, offer) == k
  {
    var m := TradeEntryForOffer(es, business, offer);
    assert SlotTaken(es, business, offer);
    assert m != k ==> Inv.SameSlot(es[m], es[k]) && Inv.SameSlot(es[k], es[m]);
  }

  lemma StillLive(b: Books, c: Books, k: nat)
    requires Inv.OnlyGrows(b, c) && Inv.StampsOk(c.entries) && k < |b.entries|
               && !HasReversal(c.entries, b.entries[k].id)
    ensures k < |c.entries| && c.entries[k] == b.entries[k].(reversedAt := None)
  {
    assert Inv.SameButStamp(b.entries[k], c.entries[k]);
  }

  lemma RecordedRow(b: Books, p: Posting)
    requires PR.References(b.desk) && PostTradeEntry(b, p).Ok? && p.offer.Some?
    ensures var after := Apply(b, PostTrade(p)).entries;
            && |after| == |b.entries| + 1 && after[|b.entries|].id == p.id
            && Occupies(after[|b.entries|], p.business, p.offer.value)
  {
  }

  lemma TakenSlotIsDuplicate(b: Books, p: Posting, k: nat)
    requires TradeRefusal(b, p).None? && p.offer.Some? && SlotTaken(b.entries, p.business, p.offer.value)
    requires TradeEntryForOffer(b.entries, p.business, p.offer.value) == k < |b.entries|
    ensures PostTradeEntry(b, p) == Err(Duplicate(Some(b.entries[k].id)))
  {
  }

  /** A recorded trade stays the one recorded trade of its offer for as long as nobody
      reverses it: through any run, a second attempt by the business, on whatever contact,
      is answered with the first entry. */
  lemma RecordedUntilReversed(b: Books, p: Posting, ops: seq<Op>, c: Books, again: Posting)
    requires Inv.Valid(b) && PostTradeEntry(b, p).Ok? && Reaches(Apply(b, PostTrade(p)), ops, c)
    requires p.offer.Some? && again.offer == p.offer && again.business == p.business && TradeRefusal(c, again).None?
    requires !HasReversal(c.entries, p.id)
    ensures PostTradeEntry(c, again) == Err(Duplicate(Some(p.id)))
  {
    RecordedRow(b, p);
    Inv.StepKeepsValid(b, PostTrade(p));
    KeptSlot(Apply(b, PostTrade(p)), |b.entries|, ops, c, p.business, p.offer.value);
    TakenSlotIsDuplicate(c, again, |b.entries|);
  }

  lemma KeptSlot(b: Books, k: nat, ops: seq<Op>, c: Books, business: nat, offer: nat)
    requires Inv.Valid(b) && Reaches(b, ops, c) && k < |b.entries| && Occupies(b.entries[k], business, offer)
    requires !HasReversal(c.entries, b.entries[k].id)
    ensures k < |c.entries| && c.entries[k].id == b.entries[k].id
    ensures SlotTaken(c.entries, business, offer) && TradeEntryForOffer(c.entries, business, offer) == k
  {
    Inv.EveryRunIsValid(b, ops, c);
    StillLive(b, c, k);
    SlotOwner(c.entries, k, business, offer);
  }
}
