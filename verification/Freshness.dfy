/** The hourly scan that ages a lot's status by how long ago its stock was confirmed, and
    the confirmation that resets it. Times are integers; a day is `DAY` of them. Lots and
    businesses are numbered by position. */
module Freshness {
  const DAY := 86_400_000_000  // microseconds

  datatype Status =
    Draft | Available | ReservationPending | Reserved | PartiallySold | Sold | Expired | Hidden | NeedsConfirmation

  datatype Level = FreshLevel | NeedsConfirmationLevel | StaleLevel | HiddenLevel | UnknownLevel

  datatype Timestamp = Never | At(time: int)

  /** Thresholds in days, as the business set them: any integers, in any order. */
  datatype Policy = Policy(confirmAfter: int, staleAfter: int, hideAfter: int)

  datatype Business = Business(active: bool, policy: Policy)
  datatype Lot = Lot(business: nat, status: Status, confirmedAt: Timestamp, archived: bool)

  // ----- One lot -----

  function Evaluate(lot: Lot, policy: Policy, now: int): Level {
    if lot.status.Hidden? then HiddenLevel
    else if lot.confirmedAt.Never? then UnknownLevel
    else
      var age := now - lot.confirmedAt.time;
      if age <= policy.confirmAfter * DAY then FreshLevel
      else if age <= policy.staleAfter * DAY then NeedsConfirmationLevel
      else if age <= policy.hideAfter * DAY then StaleLevel
      else HiddenLevel
  }

  /** Which level a lot shows, whatever the order of the thresholds. */
  lemma LevelMeaning(lot: Lot, policy: Policy, now: int)
    ensures var level, day := Evaluate(lot, policy, now), 86_400_000_000;
            if lot.status.Hidden? then level.HiddenLevel?
            else if lot.confirmedAt.Never? then level.UnknownLevel?
            else
              var age := now - lot.confirmedAt.time;
              && (level.FreshLevel? <==> age <= policy.confirmAfter * day)
              && (level.NeedsConfirmationLevel? <==> policy.confirmAfter * day < age <= policy.staleAfter * day)
              && (level.StaleLevel? <==>
                    policy.confirmAfter * day < age && policy.staleAfter * day < age <= policy.hideAfter * day)
              && !level.UnknownLevel?
  {
  }

  /** Statuses the transition leaves alone. */
  predicate Untouched(s: Status) {
    s.Sold? || s.Reserved? || s.ReservationPending? || s.Draft? || s.Expired?
  }

  function Transition(lot: Lot, policy: Policy, now: int): Lot {
    if Untouched(lot.status) then lot
    else match Evaluate(lot, policy, now)
      case NeedsConfirmationLevel | StaleLevel => lot.(status := NeedsConfirmation)
      case HiddenLevel => lot.(status := Hidden)
      case FreshLevel => if lot.status.NeedsConfirmation? then lot.(status := Available) else lot
      case UnknownLevel => lot
  }

  function Longest(p: Policy): int {
    if p.confirmAfter >= p.staleAfter && p.confirmAfter >= p.hideAfter then p.confirmAfter
    else if p.staleAfter >= p.hideAfter then p.staleAfter
    else p.hideAfter
  }

  /** What the cascade of thresholds comes to, however the business ordered them: a lot
      goes (or stays) hidden past the longest of the three, asks for confirmation between
      the first and the longest, and is on offer up to the first. */
  lemma TransitionMeaning(lot: Lot, policy: Policy, now: int)
    requires !Untouched(lot.status)
    ensures var s := Transition(lot, policy, now).status;
            && (s.Hidden? <==>
                  (lot.status.Hidden?
                   || (lot.confirmedAt.At? && now - lot.confirmedAt.time > Longest(policy) * DAY)))
            && (s.NeedsConfirmation? <==> (!s.Hidden? && (
                  if lot.confirmedAt.At? then now - lot.confirmedAt.time > policy.confirmAfter * DAY
                  else lot.status.NeedsConfirmation?)))
            && (s.PartiallySold? ==> lot.status.PartiallySold?)
  {
  }

  /** A later transition forgets that an earlier one happened. */
  lemma TransitionsCollapse(lot: Lot, policy: Policy, earlier: int, later: int)
    requires earlier <= later
    ensures Transition(Transition(lot, policy, earlier), policy, later) == Transition(lot, policy, later)
  {
  }

  /** `mark_confirmed`. */
  function Confirmed(lot: Lot, now: int): Lot {
    lot.(confirmedAt := At(now), status := if lot.status.NeedsConfirmation? then Available else lot.status)
  }

  /** A confirmed lot is dated now, is on offer again if it was waiting for that, and no
      scan touches it for the first `confirmAfter` days. */
  lemma ConfirmationLasts(lot: Lot, policy: Policy, confirmed: int, scanned: int)
    requires scanned - confirmed <= policy.confirmAfter * 86_400_000_000
    ensures var after := Confirmed(lot, confirmed);
            && after.confirmedAt == At(confirmed) && after.business == lot.business && after.archived == lot.archived
            && after.status == (if lot.status == NeedsConfirmation then Available else lot.status)
            && Transition(after, policy, scanned) == after
  {
  }

  /** Once a confirmation comes between, a missed transition can be noticed afterwards:
      exactly when it would have hidden the lot, which no confirmation takes back, or
      would have turned a partly sold lot into one awaiting confirmation, which the
      confirmation then offers as a whole. */
  lemma ConfirmationForgetsATransition(lot: Lot, policy: Policy, scanned: int, confirmed: int)
    ensures Confirmed(Transition(lot, policy, scanned), confirmed) == Confirmed(lot, confirmed) <==>
              var age := if lot.confirmedAt.At? then scanned - lot.confirmedAt.time else policy.confirmAfter * DAY;
              !(lot.status.PartiallySold? && age > policy.confirmAfter * DAY)
              && !((lot.status.Available? || lot.status.NeedsConfirmation?)
                   && lot.confirmedAt.At? && age > Longest(policy) * DAY)
  {
    if !Untouched(lot.status) {
      TransitionMeaning(lot, policy, scanned);
    }
  }

  // ----- The scan -----

  predicate Eligible(businesses: seq<Business>, lot: Lot) {
    && lot.business < |businesses| && businesses[lot.business].active
    && !lot.archived && !lot.status.Sold? && !lot.status.Draft? && !lot.status.Expired?
  }

  function ScanLot(businesses: seq<Business>, lot: Lot, now: int): Lot {
    if Eligible(businesses, lot) then Transition(lot, businesses[lot.business].policy, now) else lot
  }

  /** All lots after a scan in which the clock read `nows[i]` at lot `i`. */
  function Scanned(businesses: seq<Business>, lots: seq<Lot>, nows: seq<int>): seq<Lot>
    requires |nows| == |lots|
  {
    seq(|lots|, i requires 0 <= i < |lots| => ScanLot(businesses, lots[i], nows[i]))
  }

  ghost function EligibleLots(businesses: seq<Business>, lots: seq<Lot>): set<int> {
    set i | 0 <= i < |lots| && Eligible(businesses, lots[i])
  }

  ghost function DifferingLots(before: seq<Lot>, after: seq<Lot>): set<int>
    requires |before| == |after|
  {
    set i | 0 <= i < |before| && before[i].status != after[i].status
  }

  /** What one scan makes of a lot. Lots of inactive businesses, archived lots, lots without
      any confirmation, and those in draft, reserved, sold, expired or hidden are left
      alone; the others are hidden past all three thresholds, need confirmation past the
      first, and are on offer up to it. */
  lemma ScanMeaning(businesses: seq<Business>, lots: seq<Lot>, nows: seq<int>, i: nat)
    requires |nows| == |lots| && i < |lots| && lots[i].business < |businesses|
    ensures var lot, after, day := lots[i], Scanned(businesses, lots, nows)[i], 86_400_000_000;
            var active, policy := businesses[lot.business].active, businesses[lot.business].policy;
            && after == lot.(status := after.status)
            && after.status ==
               if !active || lot.archived || lot.confirmedAt.Never?
                  || lot.status in {Draft, Reserved, ReservationPending, Sold, Expired, Hidden} then lot.status
               else
                 var age := nows[i] - lot.confirmedAt.time;
                 if age <= policy.confirmAfter * day then
                   if lot.status == NeedsConfirmation then Available else lot.status
                 else if age > policy.staleAfter * day && age > policy.hideAfter * day then Hidden
                 else NeedsConfirmation
  {
  }

  /** The lots a scan counts: unarchived lots of active businesses that are not sold, in
      draft or expired. Reserved and hidden ones count, though they never change. */
  lemma CountedLots(businesses: seq<Business>, lots: seq<Lot>, i: int)
    requires forall k :: 0 <= k < |lots| ==> lots[k].business < |businesses|
    ensures i in EligibleLots(businesses, lots) <==>
              (&& 0 <= i < |lots| && businesses[lots[i].business].active && !lots[i].archived
               && lots[i].status in {Available, ReservationPending, Reserved, PartiallySold, Hidden, NeedsConfirmation})
  {
  }

  /** A clock reading for every lot, each no earlier than the scan's before it. */
  predicate NoEarlier(earlier: seq<int>, later: seq<int>) {
    |earlier| == |later| && forall i :: 0 <= i < |earlier| ==> earlier[i] <= later[i]
  }

  /** Scanning twice with no edits in between is scanning once, at the later time. */
  lemma ScansCollapse(businesses: seq<Business>, lots: seq<Lot>, earlier: seq<int>, later: seq<int>)
    requires |earlier| == |lots| && NoEarlier(earlier, later)
    ensures Scanned(businesses, Scanned(businesses, lots, earlier), later) == Scanned(businesses, lots, later)
  {
    forall i | 0 <= i < |lots|
      ensures ScanLot(businesses, ScanLot(businesses, lots[i], earlier[i]), later[i])
                == ScanLot(businesses, lots[i], later[i])
    {
      if Eligible(businesses, lots[i]) {
        TransitionsCollapse(lots[i], businesses[lots[i].business].policy, earlier[i], later[i]);
      }
    }
  }

  /** So an immediate second run visits the same lots and updates none of them. */
  lemma RescanUpdatesNothing(businesses: seq<Business>, lots: seq<Lot>, nows: seq<int>)
    requires |nows| == |lots|
    ensures var once := Scanned(businesses, lots, nows);
            && EligibleLots(businesses, once) == EligibleLots(businesses, lots)
            && DifferingLots(once, Scanned(businesses, once, nows)) == {}
  {
    var once := Scanned(businesses, lots, nows);
    ScansCollapse(businesses, lots, nows, nows);
    forall i | 0 <= i < |lots|
      ensures Eligible(businesses, once[i]) <==> Eligible(businesses, lots[i])
    {
      assert once[i] == ScanLot(businesses, lots[i], nows[i]);
    }
  }

  function Scans(businesses: seq<Business>, lots: seq<Lot>, runs: seq<seq<int>>): (r: seq<Lot>)
    requires forall r :: r in runs ==> |r| == |lots|
    ensures |r| == |lots|
  {
    if runs == [] then lots
    else Scanned(businesses, Scans(businesses, lots, runs[..|runs| - 1]), runs[|runs| - 1])
  }

  /** However many hourly runs there were, only the last one counts: missed runs lose
      nothing. */
  lemma {:induction false} OnlyTheLastScanCounts(businesses: seq<Business>, lots: seq<Lot>, runs: seq<seq<int>>)
    requires runs != [] && forall r :: r in runs ==> |r| == |lots|
    requires forall k :: 0 < k < |runs| ==> NoEarlier(runs[k - 1], runs[k])
    ensures Scans(businesses, lots, runs) == Scanned(businesses, lots, runs[|runs| - 1])
  {
    var n := |runs| - 1;
    if n > 0 {
      OnlyTheLastScanCounts(businesses, lots, runs[..n]);
      ScansCollapse(businesses, lots, runs[n - 1], runs[n]);
    } else {
      assert runs[..n] == [];
    }
  }

  /** Nothing but an edit brings a hidden lot back: scans and confirmations do not. */
  datatype Event = Scan(nows: seq<int>) | Confirm(lot: nat, now: int)

  function After(businesses: seq<Business>, lots: seq<Lot>, events: seq<Event>): (r: seq<Lot>)
    requires forall e :: e in events && e.Scan? ==> |e.nows| == |lots|
    ensures |r| == |lots|
  {
    if events == [] then lots
    else
      var before := After(businesses, lots, events[..|events| - 1]);
      match events[|events| - 1]
      case Scan(nows) =>
        assert events[|events| - 1] in events;
        Scanned(businesses, before, nows)
      case Confirm(lot, now) => if lot < |before| then before[lot := Confirmed(before[lot], now)] else before
  }

  lemma {:induction false} HiddenStaysHidden(businesses: seq<Business>, lots: seq<Lot>, events: seq<Event>, i: nat)
    requires forall e :: e in events && e.Scan? ==> |e.nows| == |lots|
    requires i < |lots| && lots[i].status.Hidden?
    ensures After(businesses, lots, events)[i].status.Hidden?
  {
    if events != [] {
      HiddenStaysHidden(businesses, lots, events[..|events| - 1], i);
      assert events[|events| - 1] in events;
    }
  }

  // ----- Half-done scans -----

  /** The scan has been at lot `i` when it is about to visit lot `k` of business `b`. */
  predicate Visited(lots: seq<Lot>, i: nat, b: nat, k: nat)
    requires i < |lots|
  {
    lots[i].business < b || (lots[i].business == b && i < k)
  }

  function Progress(businesses: seq<Business>, lots: seq<Lot>, nows: seq<int>, b: nat, k: nat): seq<Lot>
    requires |nows| == |lots|
  {
    seq(|lots|, i requires 0 <= i < |lots| =>
      if Visited(lots, i, b, k) then ScanLot(businesses, lots[i], nows[i]) else lots[i])
  }

  ghost function Seen(businesses: seq<Business>, lots: seq<Lot>, b: nat, k: nat): set<int> {
    set i | 0 <= i < |lots| && Visited(lots, i, b, k) && Eligible(businesses, lots[i])
  }

  ghost function Aged(businesses: seq<Business>, lots: seq<Lot>, nows: seq<int>, b: nat, k: nat): set<int>
    requires |nows| == |lots|
  {
    set i | 0 <= i < |lots| && Visited(lots, i, b, k) && ScanLot(businesses, lots[i], nows[i]).status != lots[i].status
  }

  lemma CountOneMore(before: set<int>, after: set<int>, k: int, counted: bool)
    requires after == before + (if counted then {k} else {}) && (counted ==> k !in before)
    ensures |after| == |before| + if counted then 1 else 0
  {
  }

  lemma SeenByOne(businesses: seq<Business>, lots: seq<Lot>, b: nat, k: nat)
    requires k < |lots|
    ensures |Seen(businesses, lots, b, k + 1)| == |Seen(businesses, lots, b, k)|
              + if lots[k].business == b && Eligible(businesses, lots[k]) then 1 else 0
  {
    CountOneMore(Seen(businesses, lots, b, k), Seen(businesses, lots, b, k + 1), k,
      lots[k].business == b && Eligible(businesses, lots[k]));
  }

  lemma AgedByOne(businesses: seq<Business>, lots: seq<Lot>, nows: seq<int>, b: nat, k: nat)
    requires |nows| == |lots| && k < |lots|
    ensures |Aged(businesses, lots, nows, b, k + 1)| == |Aged(businesses, lots, nows, b, k)|
              + if lots[k].business == b && ScanLot(businesses, lots[k], nows[k]).status != lots[k].status then 1 else 0
  {
    var counted := lots[k].business == b && ScanLot(businesses, lots[k], nows[k]).status != lots[k].status;
    forall i | 0 <= i < |lots|
      ensures Visited(lots, i, b, k + 1) <==> Visited(lots, i, b, k) || (i == k && lots[k].business == b)
    {
    }
    CountOneMore(Aged(businesses, lots, nows, b, k), Aged(businesses, lots, nows, b, k + 1), k, counted);
  }

  lemma ProgressByOne(businesses: seq<Business>, lots: seq<Lot>, nows: seq<int>, b: nat, k: nat)
    requires |nows| == |lots| && k < |lots|
    ensures var before := Progress(businesses, lots, nows, b, k);
            Progress(businesses, lots, nows, b, k + 1)
            == if lots[k].business == b then before[k := ScanLot(businesses, lots[k], nows[k])] else before
    ensures lots[k].business == b ==> Progress(businesses, lots, nows, b, k)[k] == lots[k]
  {
  }

  /** The end of one business's lots is the start of the next one's, and the lots of a
      business that is not active might as well have been visited. */
  lemma NextBusiness(businesses: seq<Business>, lots: seq<Lot>, nows: seq<int>, b: nat, k: nat)
    requires |nows| == |lots| && b < |businesses| && (k == |lots| || (k == 0 && !businesses[b].active))
    ensures Progress(businesses, lots, nows, b + 1, 0) == Progress(businesses, lots, nows, b, k)
    ensures Seen(businesses, lots, b + 1, 0) == Seen(businesses, lots, b, k)
    ensures Aged(businesses, lots, nows, b + 1, 0) == Aged(businesses, lots, nows, b, k)
  {
  }

  lemma ScanFinished(businesses: seq<Business>, lots: seq<Lot>, nows: seq<int>)
    requires |nows| == |lots| && forall i :: 0 <= i < |lots| ==> lots[i].business < |businesses|
    ensures Progress(businesses, lots, nows, |businesses|, 0) == Scanned(businesses, lots, nows)
    ensures Seen(businesses, lots, |businesses|, 0) == EligibleLots(businesses, lots)
    ensures Aged(businesses, lots, nows, |businesses|, 0) == DifferingLots(lots, Scanned(businesses, lots, nows))
  {
  }

  class Inventory {
    var businesses: seq<Business>
    var lots: seq<Lot>

    ghost predicate Valid()
      reads this
    {
      forall i :: 0 <= i < |lots| ==> lots[i].business < |businesses|
    }

    constructor (businesses: seq<Business>, lots: seq<Lot>)
      requires forall i :: 0 <= i < |lots| ==> lots[i].business < |businesses|
      ensures Valid() && this.businesses == businesses && this.lots == lots
    {
      this.businesses, this.lots := businesses, lots;
    }

    method ApplyFreshnessTransition(lot: nat, policy: Policy, now: int)
      requires lot < |lots|
      modifies this`lots
      ensures lots == old(lots)[lot := Transition(old(lots[lot]), policy, now)]
    {
      var status := lots[lot].status;
      if status.Sold? || status.Reserved? || status.ReservationPending? || status.Draft? || status.Expired? {
        return;
      }
      var level := Evaluate(lots[lot], policy, now);
      if level.NeedsConfirmationLevel? || level.StaleLevel? {
        status := NeedsConfirmation;
      } else if level.HiddenLevel? {
        status := Hidden;
      } else if level.FreshLevel? && status.NeedsConfirmation? {
        status := Available;
      }
      if status != lots[lot].status {
        lots := lots[lot := lots[lot].(status := status)];
      }
    }

    /** The body of the inner loop; `was` is the table the scan started from. */
    method VisitLot(b: nat, k: nat, nows: seq<int>, ghost was: seq<Lot>) returns (counted: bool, changed: bool)
      requires |nows| == |was| && b < |businesses| && businesses[b].active && k < |was|
      requires lots == Progress(businesses, was, nows, b, k)
      modifies this`lots
      ensures lots == Progress(businesses, was, nows, b, k + 1)
      ensures |Seen(businesses, was, b, k + 1)| == |Seen(businesses, was, b, k)| + if counted then 1 else 0
      ensures |Aged(businesses, was, nows, b, k + 1)| == |Aged(businesses, was, nows, b, k)| + if changed then 1 else 0
    {
      SeenByOne(businesses, was, b, k);
      AgedByOne(businesses, was, nows, b, k);
      ProgressByOne(businesses, was, nows, b, k);
      var lot := lots[k];
      counted := lot.business == b && !lot.archived && !lot.status.Sold? && !lot.status.Draft? && !lot.status.Expired?;
      if counted {
        ApplyFreshnessTransition(k, businesses[b].policy, nows[k]);
      }
      changed := lots[k].status != lot.status;
    }

    /** The inner loop: the lots of one active business. */
    method ScanBusiness(b: nat, nows: seq<int>, ghost was: seq<Lot>) returns (scanned: nat, updated: nat)
      requires |nows| == |was| && b < |businesses| && businesses[b].active
      requires lots == Progress(businesses, was, nows, b, 0)
      modifies this`lots
      ensures lots == Progress(businesses, was, nows, b, |was|)
      ensures |Seen(businesses, was, b, |was|)| == |Seen(businesses, was, b, 0)| + scanned
      ensures |Aged(businesses, was, nows, b, |was|)| == |Aged(businesses, was, nows, b, 0)| + updated
    {
      scanned, updated := 0, 0;
      for k := 0 to |lots|
        invariant lots == Progress(businesses, was, nows, b, k)
        invariant |Seen(businesses, was, b, k)| == |Seen(businesses, was, b, 0)| + scanned
        invariant |Aged(businesses, was, nows, b, k)| == |Aged(businesses, was, nows, b, 0)| + updated
      {
        var counted, changed := VisitLot(b, k, nows, was);
        scanned := scanned + if counted then 1 else 0;
        updated := updated + if changed then 1 else 0;
      }
    }

    /** The hourly job: business by business, lot by lot. */
    method EvaluateInventoryFreshness(nows: seq<int>) returns (scanned: nat, updated: nat)
      requires Valid() && |nows| == |lots|
      modifies this`lots
      ensures Valid() && lots == Scanned(businesses, old(lots), nows)
      ensures scanned == |EligibleLots(businesses, old(lots))|
      ensures updated == |DifferingLots(old(lots), lots)|
    {
      scanned, updated := 0, 0;
      ghost var was := lots;
      assert Progress(businesses, was, nows, 0, 0) == was;
      for b := 0 to |businesses|
        invariant lots == Progress(businesses, was, nows, b, 0)
        invariant scanned == |Seen(businesses, was, b, 0)| && updated == |Aged(businesses, was, nows, b, 0)|
      {
        if businesses[b].active {
          NextBusiness(businesses, was, nows, b, |was|);
          var s, u := ScanBusiness(b, nows, was);
          scanned, updated := scanned + s, updated + u;
        } else {
          NextBusiness(businesses, was, nows, b, 0);
        }
      }
      ScanFinished(businesses, was, nows);
    }

    method MarkConfirmed(lot: nat, now: int)
      requires Valid() && lot < |lots|
      modifies this`lots
      ensures Valid() && lots == old(lots)[lot := Confirmed(old(lots[lot]), now)]
    {
      var row := lots[lot].(confirmedAt := At(now));
      if row.status.NeedsConfirmation? {
        row := row.(status := Available);
      }
      lots := lots[lot := row];
    }
  }
}
