/** Offers and ledger together: what a business can have recorded for one request. */
module Composition {
  import opened Sequences
  import opened Money
  import opened Ledger
  import CT = Contacts
  import PR = PurchaseRequests
  import Inv = LedgerInvariant
  import Reports

  /** A live trade that was started from an offer. */
  predicate LiveOfferTrade(e: Entry) {
    e.offer.Some? && IsTrade(e.kind) && e.reversedAt.None?
  }

  predicate LinksAccepted(desk: PR.Tables, e: Entry) {
    LiveOfferTrade(e) ==> e.offer.value < |desk.offers| && desk.offers[e.offer.value].status.Accepted?
  }

  ghost predicate TradesAreAccepted(b: Books) {
    forall i :: 0 <= i < |b.entries| ==> LinksAccepted(b.desk, b.entries[i])
  }

  /** The two rows are live trades of one business for offers on one request. */
  predicate SameRequest(desk: PR.Tables, e: Entry, f: Entry) {
    && LiveOfferTrade(e) && LiveOfferTrade(f) && e.business == f.business
    && e.offer.value < |desk.offers| && f.offer.value < |desk.offers|
    && desk.offers[e.offer.value].request == desk.offers[f.offer.value].request
  }

  ghost predicate OneTradePerRequest(b: Books) {
    forall i, j :: 0 <= i < j < |b.entries| ==> !SameRequest(b.desk, b.entries[i], b.entries[j])
  }

  predicate RivalsAccepted(o: PR.Offer, q: PR.Offer) {
    o.request == q.request && o.status.Accepted? && q.status.Accepted?
  }

  /** A request has one accepted offer. */
  lemma OneRequestOneOffer(desk: PR.Tables, e: Entry, f: Entry)
    requires PR.OffersCompatible(desk.offers) && LinksAccepted(desk, e) && LinksAccepted(desk, f)
    ensures SameRequest(desk, e, f) ==> e.offer == f.offer
  {
    forall m: nat, n: nat | m < |desk.offers| && n < |desk.offers| && m != n
      ensures !RivalsAccepted(desk.offers[m], desk.offers[n])
    {
      if m < n {
        assert PR.Compatible(desk.offers[m], desk.offers[n]);
      } else {
        assert PR.Compatible(desk.offers[n], desk.offers[m]);
      }
    }
    if SameRequest(desk, e, f) {
      assert RivalsAccepted(desk.offers[e.offer.value], desk.offers[f.offer.value]);
    }
  }

  /** If only accepted offers are recorded, a request is recorded once per business: it
      has one accepted offer, and that offer has one slot. */
  lemma AcceptedTradesAreOnePerRequest(b: Books)
    requires Inv.Valid(b) && TradesAreAccepted(b)
    ensures OneTradePerRequest(b)
  {
    forall i, j | 0 <= i < j < |b.entries|
      ensures !SameRequest(b.desk, b.entries[i], b.entries[j])
    {
      assert LinksAccepted(b.desk, b.entries[i]) && LinksAccepted(b.desk, b.entries[j]);
      assert !Inv.SameSlot(b.entries[i], b.entries[j]);
      OneRequestOneOffer(b.desk, b.entries[i], b.entries[j]);
    }
  }

  /** Does the call record a trade for an offer only if the offer is accepted? Every call
      does but `post_entry` with an offer and a trade type, which does not look. */
  predicate Guarded(b: Books, op: Op) {
    op.Post? && IsTrade(op.p.kind) && op.p.offer.Some? ==>
      op.p.offer.value < |b.desk.offers| && b.desk.offers[op.p.offer.value].status.Accepted?
  }

  lemma DeskKeepsAccepted(t: PR.Tables, u: PR.Tables, e: Entry)
    requires PR.Preserves(t, u) && LinksAccepted(t, e)
    ensures LinksAccepted(u, e)
  {
    if LiveOfferTrade(e) {
      assert PR.Continues(t.offers[e.offer.value], u.offers[e.offer.value]);
    }
  }

  lemma OldRowsStayAccepted(b: Books, c: Books)
    requires TradesAreAccepted(b) && Inv.OnlyGrows(b, c) && PR.Preserves(b.desk, c.desk)
    ensures forall i :: 0 <= i < |b.entries| ==> LinksAccepted(c.desk, c.entries[i])
  {
    forall i | 0 <= i < |b.entries|
      ensures LinksAccepted(c.desk, c.entries[i])
    {
      assert Inv.SameButStamp(b.entries[i], c.entries[i]) && LinksAccepted(b.desk, b.entries[i]);
      DeskKeepsAccepted(b.desk, c.desk, b.entries[i]);
    }
  }

  lemma NewRowIsAccepted(b: Books, op: Op)
    requires Inv.Valid(b) && Verdict(b, op).Ok?
    ensures LinksAccepted(b.desk, Verdict(b, op).value) <==> Guarded(b, op)
  {
  }

  /** An accepted call keeps the recorded trades on accepted offers exactly when it is
      guarded. */
  lemma StepKeepsAcceptedTrades(b: Books, op: Op)
    requires Inv.Valid(b) && TradesAreAccepted(b)
    requires op.Post? ==> PostEntry(b, op.p).Ok?
    ensures TradesAreAccepted(Apply(b, op)) <==> Guarded(b, op)
  {
    var c := Apply(b, op);
    Inv.StepKeepsValid(b, op);
    OldRowsStayAccepted(b, c);
    if |c.entries| > |b.entries| {
      LastRow(b, op);
      NewRowIsAccepted(b, op);
      OneMoreRow(c, |b.entries|);
    } else {
      NothingPostedIsGuarded(b, op);
    }
  }

  lemma OneMoreRow(c: Books, n: nat)
    requires |c.entries| == n + 1 && forall i :: 0 <= i < n ==> LinksAccepted(c.desk, c.entries[i])
    ensures TradesAreAccepted(c) <==> LinksAccepted(c.desk, c.entries[n])
  {
  }

  lemma NothingPostedIsGuarded(b: Books, op: Op)
    requires PR.References(b.desk) && |Apply(b, op).entries| <= |b.entries| && (op.Post? ==> PostEntry(b, op.p).Ok?)
    ensures Guarded(b, op)
  {
  }

  lemma LastRow(b: Books, op: Op)
    requires Inv.Valid(b) && |Apply(b, op).entries| > |b.entries|
    ensures Verdict(b, op).Ok? && Apply(b, op).desk == b.desk && (op.Post? || op.PostTrade? || op.Reverse?)
    ensures |Apply(b, op).entries| == |b.entries| + 1 && Apply(b, op).entries[|b.entries|] == Verdict(b, op).value
  {
  }

  /** Every call along the run is guarded. */
  ghost predicate GuardedRun(b: Books, ops: seq<Op>)
    decreases |ops|
  {
    ops == [] || (PR.References(b.desk) && Guarded(b, ops[0]) && GuardedRun(Apply(b, ops[0]), ops[1..]))
  }

  /** On every guarded run of offers, contacts, postings and reversals: at most one live
      offer-linked trade per business and request. */
  lemma {:induction false} EveryGuardedRunHasOneTradePerRequest(b: Books, ops: seq<Op>, c: Books)
    requires Inv.Valid(b) && TradesAreAccepted(b) && Reaches(b, ops, c) && GuardedRun(b, ops)
    ensures Inv.Valid(c) && TradesAreAccepted(c) && OneTradePerRequest(c)
    decreases |ops|
  {
    if ops == [] {
      AcceptedTradesAreOnePerRequest(b);
    } else {
      Inv.StepKeepsValid(b, ops[0]);
      if !ops[0].Post? || PostEntry(b, ops[0].p).Ok? {
        StepKeepsAcceptedTrades(b, ops[0]);
      }
      EveryGuardedRunHasOneTradePerRequest(Apply(b, ops[0]), ops[1..], c);
    }
  }

  // ----- Exactly when the rule holds -----

  /** The row is a live trade of the business for some offer on the request. */
  predicate RecordsRequest(desk: PR.Tables, e: Entry, business: nat, request: nat) {
    LiveOfferTrade(e) && e.business == business && e.offer.value < |desk.offers|
    && desk.offers[e.offer.value].request == request
  }

  /** The business already holds a live trade for some offer on this offer's request. */
  predicate RequestRecorded(b: Books, business: nat, offer: nat)
    requires offer < |b.desk.offers|
  {
    exists i :: 0 <= i < |b.entries| && RecordsRequest(b.desk, b.entries[i], business, b.desk.offers[offer].request)
  }

  /** An accepted posting of a second trade for a request: what breaks the rule. All of it
      can be seen before the call. */
  predicate Doubles(b: Books, op: Op) {
    && (op.Post? || op.PostTrade?) && Verdict(b, op).Ok? && IsTrade(op.p.kind)
    && op.p.offer.Some? && op.p.offer.value < |b.desk.offers|
    && RequestRecorded(b, op.p.business, op.p.offer.value)
  }

  /** Said of the rows: an accepted sale or purchase for an offer, while a sale or purchase
      of the same business that is not reversed names an offer on the same request. */
  lemma DoublesMeans(b: Books, op: Op)
    requires PR.References(b.desk)
    ensures Doubles(b, op) <==>
              (&& (op.Post? || op.PostTrade?) && Verdict(b, op).Ok? && (op.p.kind.Sale? || op.p.kind.Purchase?)
               && op.p.offer.Some? && op.p.offer.value < |b.desk.offers|
               && exists i :: && 0 <= i < |b.entries| && b.entries[i].business == op.p.business
                              && (b.entries[i].kind.Sale? || b.entries[i].kind.Purchase?)
                              && b.entries[i].reversedAt.None? && b.entries[i].offer.Some?
                              && b.entries[i].offer.value < |b.desk.offers|
                              && b.desk.offers[b.entries[i].offer.value].request
                                 == b.desk.offers[op.p.offer.value].request)
  {
    if (op.Post? || op.PostTrade?) && op.p.offer.Some? && op.p.offer.value < |b.desk.offers| {
      var request := b.desk.offers[op.p.offer.value].request;
      forall i | 0 <= i < |b.entries|
        ensures RecordsRequest(b.desk, b.entries[i], op.p.business, request) <==>
                  (&& b.entries[i].business == op.p.business
                   && (b.entries[i].kind.Sale? || b.entries[i].kind.Purchase?)
                   && b.entries[i].reversedAt.None? && b.entries[i].offer.Some?
                   && b.entries[i].offer.value < |b.desk.offers|
                   && b.desk.offers[b.entries[i].offer.value].request == request)
      {
      }
    }
  }

  /** Offers named by ledger rows exist. */
  ghost predicate OffersExist(b: Books) {
    forall i :: 0 <= i < |b.entries| && b.entries[i].offer.Some? ==> b.entries[i].offer.value < |b.desk.offers|
  }

  lemma PostingRow(b: Books, op: Op)
    requires PR.References(b.desk) && (op.Post? || op.PostTrade?) && Verdict(b, op).Ok?
    ensures var row := Verdict(b, op).value;
            && row.kind == op.p.kind && row.offer == op.p.offer && row.business == op.p.business && row.reversedAt.None?
    ensures op.p.offer.Some? ==> op.p.offer.value < |b.desk.offers|
    ensures Apply(b, op) == b.(entries := b.entries + [Verdict(b, op).value])
  {
  }

  /** A new row meets an old one on a request exactly when the old one records it. */
  lemma NewRowMeets(desk: PR.Tables, e: Entry, row: Entry)
    requires row.reversedAt.None? && row.offer.Some? && row.offer.value < |desk.offers|
    ensures SameRequest(desk, e, row) <==>
              IsTrade(row.kind) && RecordsRequest(desk, e, row.business, desk.offers[row.offer.value].request)
  {
  }

  /** An accepted posting keeps the rule exactly when it is no second trade for a request
      the business has recorded already. */
  lemma PostingKeepsOneTradeIff(b: Books, op: Op)
    requires PR.References(b.desk) && OneTradePerRequest(b) && (op.Post? || op.PostTrade?) && Verdict(b, op).Ok?
    ensures OneTradePerRequest(Apply(b, op)) <==> !Doubles(b, op)
  {
    PostingRow(b, op);
    var c, n, row := Apply(b, op), |b.entries|, Verdict(b, op).value;
    if row.offer.Some? {
      forall i | 0 <= i < n
        ensures SameRequest(c.desk, c.entries[i], c.entries[n]) <==>
                  IsTrade(row.kind)
                  && RecordsRequest(b.desk, b.entries[i], row.business, b.desk.offers[row.offer.value].request)
      {
        NewRowMeets(b.desk, b.entries[i], row);
      }
    }
    if Doubles(b, op) {
      var i :| 0 <= i < n && RecordsRequest(b.desk, b.entries[i], row.business, b.desk.offers[row.offer.value].request);
      assert SameRequest(c.desk, c.entries[i], c.entries[n]);
    } else {
      forall i, j | 0 <= i < j < |c.entries|
        ensures !SameRequest(c.desk, c.entries[i], c.entries[j])
      {
        if j < n {
          assert !SameRequest(b.desk, b.entries[i], b.entries[j]);
        }
      }
    }
  }

  lemma OldRowsApart(b: Books, c: Books, e: Entry, f: Entry, g: Entry, h: Entry)
    requires PR.Preserves(b.desk, c.desk) && Inv.SameButStamp(e, g) && Inv.SameButStamp(f, h)
    requires e.offer.Some? ==> e.offer.value < |b.desk.offers|
    requires f.offer.Some? ==> f.offer.value < |b.desk.offers|
    ensures SameRequest(c.desk, g, h) ==> SameRequest(b.desk, e, f)
  {
    if SameRequest(c.desk, g, h) {
      assert PR.Continues(b.desk.offers[e.offer.value], c.desk.offers[e.offer.value]);
      assert PR.Continues(b.desk.offers[f.offer.value], c.desk.offers[f.offer.value]);
    }
  }

  /** Rows only gaining stamps, offers only moving on, and no new trade: the rule stays. */
  lemma QuietStepKeepsOneTrade(b: Books, c: Books)
    requires OneTradePerRequest(b) && OffersExist(b) && Inv.OnlyGrows(b, c) && PR.Preserves(b.desk, c.desk)
    requires forall i :: |b.entries| <= i < |c.entries| ==> !LiveOfferTrade(c.entries[i])
    ensures OneTradePerRequest(c)
  {
    forall i, j | 0 <= i < j < |c.entries|
      ensures !SameRequest(c.desk, c.entries[i], c.entries[j])
    {
      if j < |b.entries| {
        OldRowsApart(b, c, b.entries[i], b.entries[j], c.entries[i], c.entries[j]);
      }
    }
  }

  lemma ReversalRecordsNothing(b: Books, r: Reversing)
    requires PR.References(b.desk) && ReverseEntry(b, r).Ok?
    ensures |Apply(b, Reverse(r)).entries| == |b.entries| + 1
    ensures !LiveOfferTrade(Apply(b, Reverse(r)).entries[|b.entries|])
  {
  }

  lemma OldOffersExist(b: Books, c: Books)
    requires OffersExist(b) && Inv.OnlyGrows(b, c) && |b.desk.offers| <= |c.desk.offers|
    requires forall i :: |b.entries| <= i < |c.entries| && c.entries[i].offer.Some? ==>
               c.entries[i].offer.value < |c.desk.offers|
    ensures OffersExist(c)
  {
    forall i | 0 <= i < |b.entries| && c.entries[i].offer.Some?
      ensures c.entries[i].offer.value < |c.desk.offers|
    {
      assert Inv.SameButStamp(b.entries[i], c.entries[i]);
    }
  }

  lemma NewOfferExists(b: Books, op: Op)
    requires Inv.Valid(b) && |Apply(b, op).entries| > |b.entries|
    ensures |Apply(b, op).entries| == |b.entries| + 1 && Apply(b, op).desk == b.desk
    ensures var row := Apply(b, op).entries[|b.entries|];
            row.offer.Some? ==> row.offer.value < |b.desk.offers|
  {
    LastRow(b, op);
    if Verdict(b, op).value.offer.Some? {
      LastOffer(b, op);
    }
  }

  lemma OffersStillExist(b: Books, op: Op)
    requires Inv.Valid(b) && OffersExist(b)
    ensures OffersExist(Apply(b, op))
  {
    Inv.StepKeepsValid(b, op);
    if |Apply(b, op).entries| > |b.entries| {
      NewOfferExists(b, op);
    }
    OldOffersExist(b, Apply(b, op));
  }

  lemma LastOffer(b: Books, op: Op)
    requires PR.References(b.desk) && Verdict(b, op).Ok? && Verdict(b, op).value.offer.Some?
    ensures Verdict(b, op).value.offer.value < |b.desk.offers|
  {
  }

  /** Whatever the call: the rule survives it exactly when it does not record a second
      trade for a request. */
  lemma StepKeepsOneTradeIff(b: Books, op: Op)
    requires Inv.Valid(b) && OffersExist(b) && OneTradePerRequest(b)
    ensures OneTradePerRequest(Apply(b, op)) <==> !Doubles(b, op)
  {
    if (op.Post? || op.PostTrade?) && Verdict(b, op).Ok? {
      PostingKeepsOneTradeIff(b, op);
    } else {
      Inv.StepKeepsValid(b, op);
      if op.Reverse? && Verdict(b, op).Ok? {
        ReversalRecordsNothing(b, op.r);
      } else {
        UnpostedAddsNothing(b, op);
      }
      QuietStepKeepsOneTrade(b, Apply(b, op));
    }
  }

  lemma UnpostedAddsNothing(b: Books, op: Op)
    requires PR.References(b.desk) && !((op.Post? || op.PostTrade? || op.Reverse?) && Verdict(b, op).Ok?)
    ensures Apply(b, op).entries == b.entries
  {
  }

  /** The rule holds at every point of the run. */
  ghost predicate AlwaysOneTrade(b: Books, ops: seq<Op>)
    decreases |ops|
  {
    OneTradePerRequest(b) && (ops == [] || (PR.References(b.desk) && AlwaysOneTrade(Apply(b, ops[0]), ops[1..])))
  }

  /** No call of the run records a second trade for a request. */
  ghost predicate NeverDoubles(b: Books, ops: seq<Op>)
    decreases |ops|
  {
    ops == [] || (PR.References(b.desk) && !Doubles(b, ops[0]) && NeverDoubles(Apply(b, ops[0]), ops[1..]))
  }

  /** Over whole runs of posts, trades, reversals, contact edits and offer calls: a business
      never holds two live trades for one request if and only if no call of the run records
      one for a request recorded already. */
  lemma {:induction false} EveryRunKeepsOneTradeIff(b: Books, ops: seq<Op>)
    requires Inv.Valid(b) && OffersExist(b) && OneTradePerRequest(b)
    ensures AlwaysOneTrade(b, ops) <==> NeverDoubles(b, ops)
    decreases |ops|
  {
    if ops != [] {
      StepKeepsOneTradeIff(b, ops[0]);
      Inv.StepKeepsValid(b, ops[0]);
      OffersStillExist(b, ops[0]);
      if !Doubles(b, ops[0]) {
        EveryRunKeepsOneTradeIff(Apply(b, ops[0]), ops[1..]);
      }
    }
  }

  /** A posted trade for an offer never doubles as long as only accepted offers have been
      recorded: `post_trade_entry` alone cannot break the rule. */
  lemma TradesAloneNeverDouble(b: Books, p: Posting)
    requires Inv.Valid(b) && TradesAreAccepted(b) && PostTradeEntry(b, p).Ok?
    ensures !Doubles(b, PostTrade(p))
  {
    AcceptedTradesAreOnePerRequest(b);
    StepKeepsAcceptedTrades(b, PostTrade(p));
    Inv.StepKeepsValid(b, PostTrade(p));
    AcceptedTradesAreOnePerRequest(Apply(b, PostTrade(p)));
    PostingKeepsOneTradeIff(b, PostTrade(p));
  }

  // ----- Without the guard -----

  /** A closed request with a rejected and an accepted offer, and empty books. */
  function RivalBooks(): Books {
    Books([], [CT.Contact(1, "ab", None, true, 0)],
          PR.Tables([PR.Request(1, PR.Closed)], [PR.Offer(0, 2, PR.Rejected, 5, 1), PR.Offer(0, 3, PR.Accepted, 5, 1)]))
  }

  function Buying(id: nat, offer: nat): Posting {
    Posting(id, 1, 0, Member(1, true), Purchase, Number(1.0), true, None, 0, None, Some(offer))
  }

  function Bought(id: nat, offer: nat, balance: int): Entry {
    Entry(id, 1, 0, Purchase, 100, -100, balance, 0, Some(offer), None, None)
  }

  lemma RivalBooksAreValid()
    ensures Inv.Valid(RivalBooks()) && TradesAreAccepted(RivalBooks())
  {
    assert RivalBooks().desk.offers[1].status == PR.Accepted;
    assert PR.HasAccepted(RivalBooks().desk.offers, 0);
  }

  lemma RejectedIsPosted()
    ensures PostEntry(RivalBooks(), Buying(7, 0)) == Ok(Bought(7, 0, -100))
  {
    assert HalfEven(1.0) == 100;
  }

  lemma AcceptedIsPostedToo(b: Books)
    requires b == RivalBooks().(entries := [Bought(7, 0, -100)])
    ensures PostTradeEntry(b, Buying(8, 1)) == Ok(Bought(8, 1, -200))
  {
    assert HalfEven(1.0) == 100;
    assert !SlotTaken(b.entries, 1, 1);
  }

  /** `post_entry` records a purchase for a rejected rival of the accepted offer, and the
      buyer then holds two live trades for one request. */
  lemma PostEntryCanRecordASecondTrade()
    ensures var c := Apply(Apply(RivalBooks(), Post(Buying(7, 0))), PostTrade(Buying(8, 1)));
            Inv.Valid(RivalBooks()) && TradesAreAccepted(RivalBooks()) && !OneTradePerRequest(c)
  {
    RivalBooksAreValid();
    RejectedIsPosted();
    var b := Apply(RivalBooks(), Post(Buying(7, 0)));
    assert b == RivalBooks().(entries := [Bought(7, 0, -100)]);
    AcceptedIsPostedToo(b);
    var c := Apply(b, PostTrade(Buying(8, 1)));
    assert c.entries == [Bought(7, 0, -100), Bought(8, 1, -200)];
    assert SameRequest(c.desk, c.entries[0], c.entries[1]);
  }

  // ----- Whose contact an accepted offer is about -----

  /** `offer_counterparty`. */
  function OfferCounterparty(desk: PR.Tables, business: nat, offer: nat): Option<nat>
    requires offer < |desk.offers| && desk.offers[offer].request < |desk.requests|
  {
    var o := desk.offers[offer];
    var buyer := desk.requests[o.request].business;
    if o.seller == business then Some(buyer) else if buyer == business then Some(o.seller) else None
  }

  /** The seller's counterparty is the business that made the request, that one's is the
      seller, and nobody else has one. */
  lemma CounterpartyIs(desk: PR.Tables, business: nat, offer: nat)
    requires PR.Consistent(desk) && offer < |desk.offers|
    ensures desk.offers[offer].request < |desk.requests|
    ensures var seller, buyer := desk.offers[offer].seller, desk.requests[desk.offers[offer].request].business;
            && (business == seller ==> OfferCounterparty(desk, business, offer) == Some(buyer))
            && (business == buyer ==> OfferCounterparty(desk, business, offer) == Some(seller))
            && (OfferCounterparty(desk, business, offer).None? <==> business != seller && business != buyer)
  {
    assert PR.RowOk(desk.offers[offer], desk.requests);
  }

  /** The two parties are each other's counterparty, and nobody is their own. */
  lemma CounterpartyIsMutual(desk: PR.Tables, business: nat, offer: nat, other: nat)
    requires PR.Consistent(desk) && offer < |desk.offers|
    ensures OfferCounterparty(desk, business, offer) == Some(other) <==>
              business != other && OfferCounterparty(desk, other, offer) == Some(business)
  {
    assert PR.RowOk(desk.offers[offer], desk.requests);
  }

  function ActiveLink(cs: seq<CT.Contact>, business: nat, partner: nat): nat -> bool {
    (c: nat) => c < |cs| && CT.LinkedTo(cs[c], business, partner) && cs[c].active
  }

  /** `suggested_contact_for_offer`, for a known counterparty: a match only if it is the
      only one. */
  function SuggestedContact(cs: seq<CT.Contact>, business: nat, partner: nat): Option<nat> {
    var matches := Filter(Reports.Ids(|cs|), ActiveLink(cs, business, partner));
    if |matches| == 1 then Some(matches[0]) else None
  }

  /** As links are unique, the case of several matches never arises: the business's active
      contact that is linked to the counterparty is suggested, and nobody else. */
  lemma LinkedContactIsSuggested(cs: seq<CT.Contact>, business: nat, partner: nat, c: nat)
    requires CT.LinksUnique(cs)
    ensures SuggestedContact(cs, business, partner) == Some(c) <==>
              c < |cs| && cs[c].business == business && cs[c].linked == Some(partner) && cs[c].active
  {
    var ids := Reports.Ids(|cs|);
    var p := ActiveLink(cs, business, partner);
    var matches := Filter(ids, p);
    FilterDistinct(ids, p);
    assert |matches| > 1 ==> matches[0] != matches[1];
    FilterMembers(ids, p);
    assert forall i :: 0 <= i < |matches| ==> matches[i] in matches;
    if p(c) {
      assert ids[c] == c && c in matches;
      forall i | 0 <= i < |matches|
        ensures matches[i] == c
      {
        assert p(matches[i]);
      }
      assert matches == [c];
    } else {
      assert |matches| == 1 ==> p(matches[0]);
    }
  }
}
