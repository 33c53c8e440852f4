/** The private-offer state machine: a request, the offers quoted on it, and the three
    service calls that move them. Ids are positions in the tables; each call is one
    atomic step on the current rows. */
module PurchaseRequests {
  import opened Sequences

  datatype RequestStatus = Open | Matching | Offered | Closed | Cancelled
  datatype OfferStatus = Submitted | Withdrawn | Accepted | Rejected

  datatype Request = Request(business: nat, status: RequestStatus)
  datatype Offer = Offer(request: nat, seller: nat, status: OfferStatus, unitPrice: int, quantity: int)

  datatype Tables = Tables(requests: seq<Request>, offers: seq<Offer>)

  /** The acting member; `responds` is the `inquiries.respond` capability. */
  datatype Member = NoMember | Member(business: nat, responds: bool)

  datatype OfferError =
    | WrongBusiness | NotAllowed | InactiveBusiness | OwnRequest | RequestClosed
    | BadTerms | ForeignLot | NotDecidable | MissingRow

  datatype Call =
    | Create(business: nat, member: Member, titleOk: bool, quantityOk: bool)
    | Submit(request: nat, seller: nat, member: Member, unitPrice: int, quantity: int, lotOwner: Option<nat>)
    | Decide(offer: nat, member: Member, accept: bool)
    | Close(request: nat, member: Member)

  predicate MayRespond(m: Member) {
    m.Member? && m.responds
  }

  predicate References(t: Tables) {
    forall i :: 0 <= i < |t.offers| ==> t.offers[i].request < |t.requests|
  }

  /** The seller's still-undecided quote on a request: the row a resubmission edits. */
  function FindSubmitted(offers: seq<Offer>, request: nat, seller: nat): (k: nat)
    ensures k <= |offers|
    ensures k < |offers| ==> IsOpenQuote(offers[k], request, seller)
    ensures forall i :: 0 <= i < k ==> !IsOpenQuote(offers[i], request, seller)
  {
    if offers == [] then 0
    else
      var k := FindSubmitted(offers[..|offers| - 1], request, seller);
      if k < |offers| - 1 then k
      else if IsOpenQuote(offers[|offers| - 1], request, seller) then k
      else k + 1
  }

  predicate IsOpenQuote(o: Offer, request: nat, seller: nat) {
    o.request == request && o.seller == seller && o.status == Submitted
  }

  /** Which error a call raises, if any; `active` is the set of active businesses. */
  function Refusal(t: Tables, call: Call, active: set<nat>): Option<OfferError>
    requires References(t)
  {
    match call
    case Create(business, member, titleOk, quantityOk) =>
      if !member.Member? || member.business != business then Some(WrongBusiness)
      else if !MayRespond(member) then Some(NotAllowed)
      else if !titleOk || !quantityOk then Some(BadTerms)
      else None
    case Submit(request, seller, member, unitPrice, quantity, lotOwner) =>
      if request >= |t.requests| then Some(MissingRow)
      else if !member.Member? || member.business != seller then Some(WrongBusiness)
      else if !MayRespond(member) then Some(NotAllowed)
      else if seller !in active || t.requests[request].business !in active then Some(InactiveBusiness)
      else if seller == t.requests[request].business then Some(OwnRequest)
      else if t.requests[request].status in {Closed, Cancelled} then Some(RequestClosed)
      else if unitPrice < 0 || quantity <= 0 then Some(BadTerms)
      else if lotOwner.Some? && lotOwner.value != seller then Some(ForeignLot)
      else None
    case Decide(offer, member, accept) =>
      if offer >= |t.offers| then Some(MissingRow)
      else
        var o := t.offers[offer];
        var buyer := t.requests[o.request].business;
        if !member.Member? || member.business != buyer then Some(WrongBusiness)
        else if !MayRespond(member) then Some(NotAllowed)
        else if buyer !in active || o.seller !in active then Some(InactiveBusiness)
        else if o.status != Submitted then Some(NotDecidable)
        else None
    case Close(request, member) =>
      if request >= |t.requests| then Some(MissingRow)
      else if !member.Member? || member.business != t.requests[request].business then Some(WrongBusiness)
      else if !MayRespond(member) then Some(NotAllowed)
      else None
  }

  /** The offers table once offer `k` is accepted: its open rivals are rejected. */
  function AcceptOffer(offers: seq<Offer>, k: nat): (r: seq<Offer>)
    requires k < |offers|
    ensures |r| == |offers|
  {
    seq(|offers|, i requires 0 <= i < |offers| =>
      if i == k then offers[i].(status := Accepted)
      else if offers[i].request == offers[k].request && offers[i].status == Submitted
      then offers[i].(status := Rejected)
      else offers[i])
  }

  /** The tables after a call that is not refused. */
  function Effect(t: Tables, call: Call, active: set<nat>): Tables
    requires References(t) && Refusal(t, call, active).None?
  {
    match call
    case Create(business, _, _, _) => t.(requests := t.requests + [Request(business, Open)])
    case Submit(request, seller, _, unitPrice, quantity, _) =>
      var k := FindSubmitted(t.offers, request, seller);
      var offers :=
        if k < |t.offers| then t.offers[k := t.offers[k].(unitPrice := unitPrice, quantity := quantity)]
        else t.offers + [Offer(request, seller, Submitted, unitPrice, quantity)];
      var r := t.requests[request];
      var requests := if r.status in {Open, Matching} then t.requests[request := r.(status := Offered)] else t.requests;
      Tables(requests, offers)
    case Decide(offer, _, accept) =>
      if accept then
        var request := t.offers[offer].request;
        Tables(t.requests[request := t.requests[request].(status := Closed)], AcceptOffer(t.offers, offer))
      else t.(offers := t.offers[offer := t.offers[offer].(status := Rejected)])
    case Close(request, _) => t.(requests := t.requests[request := t.requests[request].(status := Cancelled)])
  }

  function Step(t: Tables, call: Call, active: set<nat>): Tables
    requires References(t)
  {
    if Refusal(t, call, active).None? then Effect(t, call, active) else t
  }

  // ----- What every run keeps -----

  /** Two different offers may coexist: on one request a seller has one open quote, and
      an accepted offer leaves neither a second accepted offer nor an open rival. */
  predicate Compatible(a: Offer, b: Offer) {
    a.request == b.request ==>
      && (a.status == Submitted && b.status == Submitted ==> a.seller != b.seller)
      && (a.status == Accepted ==> b.status != Accepted && b.status != Submitted)
      && (b.status == Accepted ==> a.status != Submitted)
  }

  ghost predicate OffersCompatible(offers: seq<Offer>) {
    forall i, j :: 0 <= i < j < |offers| ==> Compatible(offers[i], offers[j])
  }

  /** Nobody quotes on their own request, and an accepted offer ended its request. */
  predicate RowOk(o: Offer, requests: seq<Request>) {
    && o.request < |requests|
    && o.seller != requests[o.request].business
    && (o.status == Accepted ==> requests[o.request].status in {Closed, Cancelled})
  }

  ghost predicate HasAccepted(offers: seq<Offer>, r: nat) {
    exists i :: 0 <= i < |offers| && offers[i].request == r && offers[i].status == Accepted
  }

  ghost predicate ClosedHasAccepted(t: Tables) {
    forall r :: 0 <= r < |t.requests| && t.requests[r].status == Closed ==> HasAccepted(t.offers, r)
  }

  ghost predicate Consistent(t: Tables) {
    && (forall i :: 0 <= i < |t.offers| ==> RowOk(t.offers[i], t.requests))
    && OffersCompatible(t.offers)
    && ClosedHasAccepted(t)
  }

  /** No later call touches the terms, the parties or the status of a decided offer, and
      no row is renumbered or handed to other parties. */
  ghost predicate Preserves(t: Tables, u: Tables) {
    && |t.requests| <= |u.requests| && |t.offers| <= |u.offers|
    && (forall r :: 0 <= r < |t.requests| ==> u.requests[r].business == t.requests[r].business)
    && (forall i :: 0 <= i < |t.offers| ==> Continues(t.offers[i], u.offers[i]))
  }

  predicate Continues(o: Offer, p: Offer) {
    && p.request == o.request && p.seller == o.seller
    && (o.status != Submitted ==> p == o)
  }

  lemma AcceptedStays(offers: seq<Offer>, later: seq<Offer>, r: nat)
    requires HasAccepted(offers, r) && |offers| <= |later|
    requires forall i :: 0 <= i < |offers| ==> Continues(offers[i], later[i])
    ensures HasAccepted(later, r)
  {
    var i :| 0 <= i < |offers| && offers[i].request == r && offers[i].status == Accepted;
    assert Continues(offers[i], later[i]);
  }

  /** The table rows a call leaves alone keep ended requests ended and accepted offers accepted. */
  lemma ClosedKeepsAccepted(t: Tables, u: Tables)
    requires ClosedHasAccepted(t) && Preserves(t, u)
    requires forall r :: 0 <= r < |u.requests| && u.requests[r].status == Closed ==>
               (r < |t.requests| && t.requests[r].status == Closed) || HasAccepted(u.offers, r)
    ensures ClosedHasAccepted(u)
  {
    forall r | 0 <= r < |u.requests| && u.requests[r].status == Closed
      ensures HasAccepted(u.offers, r)
    {
      if r < |t.requests| && t.requests[r].status == Closed {
        AcceptedStays(t.offers, u.offers, r);
      }
    }
  }

  lemma {:induction false} SubmitKeeps(t: Tables, call: Call, active: set<nat>)
    requires Consistent(t) && call.Submit? && Refusal(t, call, active).None?
    ensures Consistent(Effect(t, call, active)) && Preserves(t, Effect(t, call, active))
  {
    var u := Effect(t, call, active);
    var k := FindSubmitted(t.offers, call.request, call.seller);
    forall i | 0 <= i < |u.offers|
      ensures RowOk(u.offers[i], u.requests)
      ensures i < |t.offers| ==> Continues(t.offers[i], u.offers[i])
    {
      if i < |t.offers| {
        assert RowOk(t.offers[i], t.requests);
      }
    }
    forall i, j | 0 <= i < j < |u.offers|
      ensures Compatible(u.offers[i], u.offers[j])
    {
      if j < |t.offers| {
        assert Compatible(t.offers[i], t.offers[j]);
      } else {
        assert RowOk(t.offers[i], t.requests);
      }
    }
    ClosedKeepsAccepted(t, u);
  }

  lemma {:induction false} AcceptKeeps(t: Tables, k: nat)
    requires Consistent(t) && k < |t.offers| && t.offers[k].status == Submitted
    ensures OffersCompatible(AcceptOffer(t.offers, k))
    ensures forall i :: 0 <= i < |t.offers| ==> Continues(t.offers[i], AcceptOffer(t.offers, k)[i])
  {
    var u := AcceptOffer(t.offers, k);
    forall i | 0 <= i < |t.offers| && i != k && t.offers[i].request == t.offers[k].request
      ensures t.offers[i].status != Accepted
    {
      assert if i < k then Compatible(t.offers[i], t.offers[k]) else Compatible(t.offers[k], t.offers[i]);
    }
    forall i, j | 0 <= i < j < |u|
      ensures Compatible(u[i], u[j])
    {
      assert Compatible(t.offers[i], t.offers[j]);
    }
  }

  lemma {:induction false} DecideKeeps(t: Tables, call: Call, active: set<nat>)
    requires Consistent(t) && call.Decide? && Refusal(t, call, active).None?
    ensures Consistent(Effect(t, call, active)) && Preserves(t, Effect(t, call, active))
  {
    var u := Effect(t, call, active);
    if call.accept {
      AcceptKeeps(t, call.offer);
      assert u.offers[call.offer].status == Accepted;
    } else {
      forall i, j | 0 <= i < j < |u.offers|
        ensures Compatible(u.offers[i], u.offers[j])
      {
        assert Compatible(t.offers[i], t.offers[j]);
      }
    }
    forall i | 0 <= i < |u.offers|
      ensures RowOk(u.offers[i], u.requests)
    {
      assert RowOk(t.offers[i], t.requests);
    }
    ClosedKeepsAccepted(t, u);
  }

  lemma {:induction false} CloseKeeps(t: Tables, call: Call, active: set<nat>)
    requires Consistent(t) && (call.Close? || call.Create?) && Refusal(t, call, active).None?
    ensures Consistent(Effect(t, call, active)) && Preserves(t, Effect(t, call, active))
  {
    var u := Effect(t, call, active);
    forall i | 0 <= i < |u.offers|
      ensures RowOk(u.offers[i], u.requests)
    {
      assert RowOk(t.offers[i], t.requests);
    }
    ClosedKeepsAccepted(t, u);
  }

  lemma StepKeeps(t: Tables, call: Call, active: set<nat>)
    requires Consistent(t)
    ensures Consistent(Step(t, call, active)) && Preserves(t, Step(t, call, active))
  {
    if Refusal(t, call, active).None? {
      match call
      case Submit(_, _, _, _, _, _) => SubmitKeeps(t, call, active);
      case Decide(_, _, _) => DecideKeeps(t, call, active);
      case _ => CloseKeeps(t, call, active);
    }
  }

  /** Over every run, with businesses being suspended and reactivated in between, the
      tables stay consistent and accepted terms never change. */
  ghost predicate Reaches(t: Tables, calls: seq<(Call, set<nat>)>, u: Tables)
    decreases |calls|
  {
    if calls == [] then u == t
    else References(t) && Reaches(Step(t, calls[0].0, calls[0].1), calls[1..], u)
  }

  lemma {:induction false} EveryRunIsConsistent(t: Tables, calls: seq<(Call, set<nat>)>, u: Tables)
    requires Consistent(t) && Reaches(t, calls, u)
    ensures Consistent(u) && Preserves(t, u)
    decreases |calls|
  {
    if calls != [] {
      StepKeeps(t, calls[0].0, calls[0].1);
      EveryRunIsConsistent(Step(t, calls[0].0, calls[0].1), calls[1..], u);
    }
  }

  /** A closed request has exactly one accepted offer, and every other offer on it is
      settled: nothing is left to accept. */
  lemma ClosedMeansExactlyOneAccepted(t: Tables, r: nat)
    requires Consistent(t) && r < |t.requests| && t.requests[r].status == Closed
    ensures exists i :: && 0 <= i < |t.offers| && t.offers[i].request == r && t.offers[i].status == Accepted
                        && OthersSettled(t.offers, r, i)
  {
    assert HasAccepted(t.offers, r);
    var i :| 0 <= i < |t.offers| && t.offers[i].request == r && t.offers[i].status == Accepted;
    forall j | 0 <= j < |t.offers| && j != i && t.offers[j].request == r
      ensures t.offers[j].status in {Rejected, Withdrawn}
    {
      assert if i < j then Compatible(t.offers[i], t.offers[j]) else Compatible(t.offers[j], t.offers[i]);
    }
    assert OthersSettled(t.offers, r, i);
  }

  ghost predicate OthersSettled(offers: seq<Offer>, r: nat, i: nat) {
    forall j :: 0 <= j < |offers| && j != i && offers[j].request == r ==> offers[j].status in {Rejected, Withdrawn}
  }

  /** After a submission the seller has exactly one open quote on the request, on the new
      terms; every other offer is as it was, and the request counts as offered. */
  lemma SubmissionLeavesOneQuote(t: Tables, call: Call, active: set<nat>) returns (k: nat)
    requires Consistent(t) && call.Submit? && Refusal(t, call, active).None?
    ensures var u := Step(t, call, active);
            && k < |u.offers|
            && u.offers[k] == Offer(call.request, call.seller, Submitted, call.unitPrice, call.quantity)
            && (forall i :: 0 <= i < |u.offers| && i != k ==> i < |t.offers| && u.offers[i] == t.offers[i])
            && (forall i :: 0 <= i < |u.offers| && IsOpenQuote(u.offers[i], call.request, call.seller) ==> i == k)
            && u.requests == t.requests[call.request := Request(t.requests[call.request].business, Offered)]
            && |u.offers| == (if k < |t.offers| then |t.offers| else |t.offers| + 1)
            && (k < |t.offers| <==>
                  exists i :: 0 <= i < |t.offers| && IsOpenQuote(t.offers[i], call.request, call.seller))
  {
    k := FindSubmitted(t.offers, call.request, call.seller);
    SubmitKeeps(t, call, active);
    var u := Step(t, call, active);
    forall i | 0 <= i < |u.offers| && i != k
      ensures !IsOpenQuote(u.offers[i], call.request, call.seller)
    {
      assert if i < k then Compatible(u.offers[i], u.offers[k]) else Compatible(u.offers[k], u.offers[i]);
    }
  }

  /** Accepting an offer closes its request and rejects every open rival on it; the accepted
      terms are those last submitted, and every other offer and request is as it was. */
  lemma AcceptanceSettlesTheRequest(t: Tables, call: Call, active: set<nat>)
    requires Consistent(t) && call.Decide? && call.accept && Refusal(t, call, active).None?
    ensures var u := Step(t, call, active);
            var o := t.offers[call.offer];
            && |u.offers| == |t.offers| && u.offers[call.offer] == o.(status := Accepted)
            && u.requests == t.requests[o.request := Request(t.requests[o.request].business, Closed)]
            && (forall i :: 0 <= i < |t.offers| && i != call.offer ==>
                  u.offers[i] == if t.offers[i].request == o.request && t.offers[i].status == Submitted
                                 then t.offers[i].(status := Rejected) else t.offers[i])
  {
  }

  /** Rejecting an offer decides that offer only: no other offer and no request moves. */
  lemma RejectionLeavesTheRest(t: Tables, call: Call, active: set<nat>)
    requires References(t) && call.Decide? && !call.accept && Refusal(t, call, active).None?
    ensures var u := Step(t, call, active);
            && |u.offers| == |t.offers| && u.offers[call.offer] == t.offers[call.offer].(status := Rejected)
            && (forall i :: 0 <= i < |t.offers| && i != call.offer ==> u.offers[i] == t.offers[i])
            && u.requests == t.requests
  {
  }

  /** A decision is final: through any later run the offer keeps the status decided and the
      terms it was decided on, so a rejected offer is never accepted. */
  lemma DecisionIsFinal(t: Tables, call: Call, active: set<nat>, calls: seq<(Call, set<nat>)>, u: Tables)
    requires Consistent(t) && call.Decide? && Refusal(t, call, active).None?
    requires Reaches(Step(t, call, active), calls, u)
    ensures call.offer < |u.offers|
    ensures u.offers[call.offer] == t.offers[call.offer].(status := if call.accept then Accepted else Rejected)
  {
    var decided := Step(t, call, active);
    StepKeeps(t, call, active);
    EveryRunIsConsistent(decided, calls, u);
    assert Continues(decided.offers[call.offer], u.offers[call.offer]);
  }

  /** Who may decide, and on what: the call settles the offer exactly when a member who
      responds for the requesting business decides an open offer while both businesses are
      active. Everybody else is told why not, and nothing moves. */
  lemma DecidedIff(t: Tables, offer: nat, member: Member, accept: bool, active: set<nat>)
    requires References(t)
    ensures var call := Decide(offer, member, accept);
            var error := Refusal(t, call, active);
            if offer >= |t.offers| then error == Some(MissingRow)
            else
              var o := t.offers[offer];
              var buyer := t.requests[o.request].business;
              && (error.None? <==> (&& member == Member(buyer, true) && buyer in active && o.seller in active
                                    && o.status == Submitted))
              && (error.None? <==> Step(t, call, active).offers[offer].status != o.status)
              && (error.Some? ==>
                    error.value == if member.NoMember? || member.business != buyer then WrongBusiness
                                   else if !member.responds then NotAllowed
                                   else if buyer !in active || o.seller !in active then InactiveBusiness
                                   else NotDecidable)
    ensures Refusal(t, Decide(offer, member, accept), active).Some? ==>
              Step(t, Decide(offer, member, accept), active) == t
  {
  }

  /** Who may quote on which request, on which terms, and what the others are told. */
  lemma QuotedIff(t: Tables, request: nat, seller: nat, member: Member, unitPrice: int, quantity: int,
      lotOwner: Option<nat>, active: set<nat>)
    requires References(t)
    ensures var error := Refusal(t, Submit(request, seller, member, unitPrice, quantity, lotOwner), active);
            if request >= |t.requests| then error == Some(MissingRow)
            else
              var r := t.requests[request];
              && (error.None? <==> (&& member == Member(seller, true) && seller in active && r.business in active
                                    && seller != r.business
                                    && (r.status.Open? || r.status.Matching? || r.status.Offered?)
                                    && unitPrice >= 0 && quantity > 0
                                    && (lotOwner.Some? ==> lotOwner.value == seller)))
              && (error.Some? ==>
                    error.value == if member.NoMember? || member.business != seller then WrongBusiness
                                   else if !member.responds then NotAllowed
                                   else if !({seller, r.business} <= active) then InactiveBusiness
                                   else if seller == r.business then OwnRequest
                                   else if r.status.Closed? || r.status.Cancelled? then RequestClosed
                                   else if unitPrice < 0 || quantity < 1 then BadTerms
                                   else ForeignLot)
  {
  }

  /** Who may open a request, and that it starts open behind all others. */
  lemma CreatedIff(t: Tables, business: nat, member: Member, titleOk: bool, quantityOk: bool, active: set<nat>)
    requires References(t)
    ensures var call := Create(business, member, titleOk, quantityOk);
            var error := Refusal(t, call, active);
            && (error.None? <==> member == Member(business, true) && titleOk && quantityOk)
            && (error.Some? ==>
                  error.value == if member.NoMember? || member.business != business then WrongBusiness
                                 else if !member.responds then NotAllowed else BadTerms)
            && Step(t, call, active) == (if error.Some? then t else
                                           Tables(t.requests + [Request(business, Open)], t.offers))
  {
  }

  /** Who may cancel a request, whatever its status, and that nothing else moves. */
  lemma CancelledIff(t: Tables, request: nat, member: Member, active: set<nat>)
    requires References(t)
    ensures var call := Close(request, member);
            var error := Refusal(t, call, active);
            if request >= |t.requests| then error == Some(MissingRow)
            else
              var owner := t.requests[request].business;
              && (error.None? <==> member == Member(owner, true))
              && (error.Some? ==>
                    error.value == if member.NoMember? || member.business != owner then WrongBusiness else NotAllowed)
              && Step(t, call, active) == (if error.Some? then t else
                                             t.(requests := t.requests[request := Request(owner, Cancelled)]))
  {
  }

  /** A permitted acceptance of an open offer on the request. */
  predicate AcceptsOn(t: Tables, call: Call, active: set<nat>, r: nat)
    requires References(t)
  {
    call.Decide? && call.accept && Refusal(t, call, active).None? && t.offers[call.offer].request == r
  }

  /** A cancelled request stays cancelled over a call exactly when the call is not a
      permitted acceptance of one of its open offers. */
  lemma CancelledUntilAccepted(t: Tables, call: Call, active: set<nat>, r: nat)
    requires Consistent(t) && r < |t.requests| && t.requests[r].status == Cancelled
    ensures Step(t, call, active).requests[r].status == Cancelled <==> !AcceptsOn(t, call, active, r)
  {
  }

  /** Cancelling does not clear the open quotes: whichever quote was open, between active
      businesses, can be accepted on the cancelled request and closes it. */
  lemma ACancelledRequestCanStillBeAccepted(t: Tables, k: nat, active: set<nat>)
    requires Consistent(t) && k < |t.offers| && t.offers[k].status == Submitted
    requires t.offers[k].seller in active && t.requests[t.offers[k].request].business in active
    ensures var r := t.offers[k].request;
            var buyer := Member(t.requests[r].business, true);
            var cancelled := Step(t, Close(r, buyer), active);
            var accepted := Step(cancelled, Decide(k, buyer, true), active);
            && cancelled.requests[r].status == Cancelled && cancelled.offers == t.offers
            && accepted.requests[r].status == Closed && accepted.offers[k].status == Accepted
  {
  }

  // ----- The services -----

  /** The request and offer rows the services update. */
  class OfferDesk {
    var requests: seq<Request>
    var offers: seq<Offer>

    function View(): Tables
      reads this
    {
      Tables(requests, offers)
    }

    ghost predicate Valid()
      reads this
    {
      Consistent(View())
    }

    constructor ()
      ensures Valid() && View() == Tables([], [])
    {
      requests, offers := [], [];
    }

    method CreateRequest(business: nat, member: Member, titleOk: bool, quantityOk: bool, ghost active: set<nat>)
      returns (err: Option<OfferError>)
      requires Valid()
      modifies this
      ensures Valid()
      ensures var call := Create(business, member, titleOk, quantityOk);
              err == Refusal(old(View()), call, active) && View() == Step(old(View()), call, active)
    {
      ghost var call := Create(business, member, titleOk, quantityOk);
      StepKeeps(View(), call, active);
      if !member.Member? || member.business != business { return Some(WrongBusiness); }
      if !member.responds { return Some(NotAllowed); }
      if !titleOk || !quantityOk { return Some(BadTerms); }
      requests := requests + [Request(business, Open)];
      return None;
    }

    method SubmitPrivateOffer(request: nat, seller: nat, member: Member, unitPrice: int, quantity: int,
        lotOwner: Option<nat>, active: set<nat>)
      returns (err: Option<OfferError>)
      requires Valid()
      modifies this
      ensures Valid()
      ensures var call := Submit(request, seller, member, unitPrice, quantity, lotOwner);
              err == Refusal(old(View()), call, active) && View() == Step(old(View()), call, active)
    {
      ghost var call := Submit(request, seller, member, unitPrice, quantity, lotOwner);
      StepKeeps(View(), call, active);
      if request >= |requests| { return Some(MissingRow); }
      if !member.Member? || member.business != seller { return Some(WrongBusiness); }
      if !member.responds { return Some(NotAllowed); }
      if seller !in active || requests[request].business !in active { return Some(InactiveBusiness); }
      if seller == requests[request].business { return Some(OwnRequest); }
      if requests[request].status == Closed || requests[request].status == Cancelled { return Some(RequestClosed); }
      if unitPrice < 0 || quantity <= 0 { return Some(BadTerms); }
      if lotOwner.Some? && lotOwner.value != seller { return Some(ForeignLot); }

      var k := FindSubmitted(offers, request, seller);
      if k < |offers| {
        offers := offers[k := offers[k].(unitPrice := unitPrice, quantity := quantity)];
      } else {
        offers := offers + [Offer(request, seller, Submitted, unitPrice, quantity)];
      }
      if requests[request].status == Open || requests[request].status == Matching {
        requests := requests[request := requests[request].(status := Offered)];
      }
      return None;
    }

    method DecideOffer(offer: nat, member: Member, accept: bool, active: set<nat>)
      returns (err: Option<OfferError>)
      requires Valid()
      modifies this
      ensures Valid()
      ensures var call := Decide(offer, member, accept);
              err == Refusal(old(View()), call, active) && View() == Step(old(View()), call, active)
    {
      ghost var call := Decide(offer, member, accept);
      StepKeeps(View(), call, active);
      if offer >= |offers| { return Some(MissingRow); }
      var request := offers[offer].request;
      var buyer := requests[request].business;
      if !member.Member? || member.business != buyer { return Some(WrongBusiness); }
      if !member.responds { return Some(NotAllowed); }
      if buyer !in active || offers[offer].seller !in active { return Some(InactiveBusiness); }
      if offers[offer].status != Submitted { return Some(NotDecidable); }

      offers := offers[offer := offers[offer].(status := if accept then Accepted else Rejected)];
      if accept {
        requests := requests[request := requests[request].(status := Closed)];
        RejectRivals(offer, request);
        assert offers == AcceptOffer(old(offers), offer);
      }
      assert View() == Step(old(View()), call, active);
      return None;
    }

    /** The bulk update that rejects every open rival of an accepted offer. */
    method RejectRivals(winner: nat, request: nat)
      requires winner < |offers|
      modifies this`offers
      ensures |offers| == |old(offers)|
      ensures forall i :: 0 <= i < |offers| ==>
                offers[i] == if i != winner && old(offers)[i].request == request && old(offers)[i].status == Submitted
                             then old(offers)[i].(status := Rejected) else old(offers)[i]
    {
      var i := 0;
      while i < |offers|
        invariant 0 <= i <= |offers| == |old(offers)|
        invariant forall j :: 0 <= j < i ==>
                    offers[j] == if j != winner && old(offers)[j].request == request
                                    && old(offers)[j].status == Submitted
                                 then old(offers)[j].(status := Rejected) else old(offers)[j]
        invariant forall j :: i <= j < |offers| ==> offers[j] == old(offers)[j]
      {
        if i != winner && offers[i].request == request && offers[i].status == Submitted {
          offers := offers[i := offers[i].(status := Rejected)];
        }
        i := i + 1;
      }
    }

    method ClosePurchaseRequest(request: nat, member: Member, ghost active: set<nat>) returns (err: Option<OfferError>)
      requires Valid()
      modifies this
      ensures Valid()
      ensures err == Refusal(old(View()), Close(request, member), active)
      ensures View() == Step(old(View()), Close(request, member), active)
    {
      StepKeeps(View(), Close(request, member), active);
      if request >= |requests| { return Some(MissingRow); }
      if !member.Member? || member.business != requests[request].business { return Some(WrongBusiness); }
      if !member.responds { return Some(NotAllowed); }
      requests := requests[request := requests[request].(status := Cancelled)];
      return None;
    }
  }
}
