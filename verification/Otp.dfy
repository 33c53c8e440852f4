/** Login codes: how many a phone may ask for, how often a code may be guessed, and that
    it opens the door once. Times are microseconds; phones and codes are the normalised
    strings. */
module Otp {
  import opened Sequences

  const SECOND := 1_000_000
  const HOUR := 3600 * SECOND

  datatype Config = Config(cooldown: int, maxPerHour: int, maxAttempts: nat, expiry: int)

  datatype Challenge = Challenge(
    phone: string, code: string, attempts: nat, maxAttempts: nat, used: bool, createdAt: int, expiresAt: int)

  datatype User = User(active: bool, lastLogin: Option<int>)

  datatype State = State(challenges: seq<Challenge>, users: map<string, User>)

  /** A request reads the clock at `now` and stamps its row at `created`. `isDigits` is what
      `str.isdigit` says of the code, which holds of other digits than 0 to 9 too. */
  datatype Call =
    | Request(phone: string, now: int, created: int, code: string, smsSent: bool)
    | Verify(phone: string, code: string, isDigits: bool, now: int)

  datatype Outcome =
    | BadPhone | TooSoon | TooMany | SmsFailed | Sent
    | BadCode | NoChallenge | CodeExpired | NoAttemptsLeft
    | WrongCode(challenge: nat) | Inactive | LoggedIn(challenge: nat)

  predicate ValidPhone(phone: string) {
    "09" <= phone && |phone| == 11
  }

  function OfPhone(phone: string): Challenge -> bool {
    (c: Challenge) => c.phone == phone
  }

  function Unused(phone: string): Challenge -> bool {
    (c: Challenge) => c.phone == phone && !c.used
  }

  function Since(phone: string, from: int): Challenge -> bool {
    (c: Challenge) => c.phone == phone && c.createdAt >= from
  }

  function Within(phone: string, from: int, to: int): Challenge -> bool {
    (c: Challenge) => c.phone == phone && from <= c.createdAt <= to
  }

  /** The newest challenge with a property; rows are stored in the order they were made. */
  function Newest(cs: seq<Challenge>, p: Challenge -> bool): (r: Option<nat>)
    ensures r.Some? ==> r.value < |cs| && p(cs[r.value]) && forall i :: r.value < i < |cs| ==> !p(cs[i])
    ensures r.None? ==> forall i :: 0 <= i < |cs| ==> !p(cs[i])
  {
    if cs == [] then None
    else if p(cs[|cs| - 1]) then Some(|cs| - 1)
    else Newest(cs[..|cs| - 1], p)
  }

  function RequestOutcome(cfg: Config, s: State, phone: string, now: int, smsSent: bool): Outcome {
    var recent := Newest(s.challenges, OfPhone(phone));
    if !ValidPhone(phone) then BadPhone
    else if recent.Some? && now - s.challenges[recent.value].createdAt < cfg.cooldown * SECOND then TooSoon
    else if |Filter(s.challenges, Since(phone, now - HOUR))| >= cfg.maxPerHour then TooMany
    else if smsSent then Sent else SmsFailed
  }

  function VerifyOutcome(s: State, phone: string, code: string, isDigits: bool, now: int): (r: Outcome)
    ensures r.WrongCode? || r.LoggedIn? ==>
              r.challenge < |s.challenges|
              && s.challenges[r.challenge].phone == phone && !s.challenges[r.challenge].used
  {
    if !isDigits then BadCode
    else match Newest(s.challenges, Unused(phone))
      case None => NoChallenge
      case Some(k) =>
        var c := s.challenges[k];
        if now >= c.expiresAt then CodeExpired
        else if c.attempts >= c.maxAttempts then NoAttemptsLeft
        else if c.code != code then WrongCode(k)
        else if phone in s.users && !s.users[phone].active then Inactive
        else LoggedIn(k)
  }

  function OutcomeOf(cfg: Config, s: State, call: Call): Outcome {
    match call
    case Request(phone, now, _, _, smsSent) => RequestOutcome(cfg, s, phone, now, smsSent)
    case Verify(phone, code, isDigits, now) => VerifyOutcome(s, phone, code, isDigits, now)
  }

  /** The state after a call. A code that could not be sent is stored all the same, and
      an inactive account rolls the use of the code back. */
  function Step(cfg: Config, s: State, call: Call): State {
    match call
    case Request(phone, now, created, code, smsSent) =>
      var r := RequestOutcome(cfg, s, phone, now, smsSent);
      if !r.Sent? && !r.SmsFailed? then s
      else s.(challenges := s.challenges
        + [Challenge(phone, code, 0, cfg.maxAttempts, false, created, now + cfg.expiry * SECOND)])
    case Verify(phone, code, isDigits, now) =>
      match VerifyOutcome(s, phone, code, isDigits, now)
      case WrongCode(k) =>
        s.(challenges := s.challenges[k := s.challenges[k].(attempts := s.challenges[k].attempts + 1)])
      case LoggedIn(k) =>
        State(s.challenges[k := s.challenges[k].(used := true)], s.users[phone := User(true, Some(now))])
      case _ => s
  }

  // ----- What the calls answer and change -----

  /** The challenge a code is checked against: the newest of the phone not used yet. */
  predicate IsCurrent(cs: seq<Challenge>, phone: string, k: nat) {
    && k < |cs| && cs[k].phone == phone && !cs[k].used
    && forall i :: k < i < |cs| ==> cs[i].phone != phone || cs[i].used
  }

  lemma CurrentIsNewest(cs: seq<Challenge>, phone: string, k: nat)
    requires IsCurrent(cs, phone, k)
    ensures Newest(cs, Unused(phone)) == Some(k)
  {
    assert Unused(phone)(cs[k]);
  }

  /** Which codes log in, and what the others are told: the challenge must be in time, then
      have attempts left, then carry the code, and the account must not be switched off. */
  lemma LoginIff(cfg: Config, s: State, phone: string, code: string, isDigits: bool, now: int, k: nat)
    requires IsCurrent(s.challenges, phone, k)
    ensures var answer, c := OutcomeOf(cfg, s, Verify(phone, code, isDigits, now)), s.challenges[k];
            var open := isDigits && now < c.expiresAt;
            && (answer == LoggedIn(k) <==> (&& open && c.attempts < c.maxAttempts && code == c.code
                                            && (phone in s.users ==> s.users[phone].active)))
            && (answer == WrongCode(k) <==> open && c.attempts < c.maxAttempts && code != c.code)
            && (!isDigits ==> answer == BadCode)
            && (isDigits && now >= c.expiresAt ==> answer == CodeExpired)
            && (open && c.attempts >= c.maxAttempts ==> answer == NoAttemptsLeft)
            && (answer in {BadCode, CodeExpired, NoAttemptsLeft, Inactive, LoggedIn(k), WrongCode(k)})
  {
    CurrentIsNewest(s.challenges, phone, k);
  }

  lemma NothingToCheck(cfg: Config, s: State, phone: string, code: string, isDigits: bool, now: int)
    requires forall i :: 0 <= i < |s.challenges| ==> s.challenges[i].phone != phone || s.challenges[i].used
    ensures OutcomeOf(cfg, s, Verify(phone, code, isDigits, now)) == if isDigits then NoChallenge else BadCode
  {
  }

  /** What a check leaves behind: a login uses its challenge up and leaves an active account
      that has logged in now, a wrong code costs one attempt, and nothing else changes. */
  lemma VerifyLeaves(cfg: Config, s: State, phone: string, code: string, isDigits: bool, now: int)
    ensures var call := Verify(phone, code, isDigits, now);
            var answer, after := OutcomeOf(cfg, s, call), Step(cfg, s, call);
            && ((answer.LoggedIn? || answer.WrongCode?) ==> answer.challenge < |s.challenges|)
            && (answer.LoggedIn? ==>
                  && after.challenges == s.challenges[answer.challenge := s.challenges[answer.challenge].(used := true)]
                  && after.users == s.users[phone := User(true, Some(now))])
            && (answer.WrongCode? ==>
                  var c := s.challenges[answer.challenge];
                  && after.challenges == s.challenges[answer.challenge := c.(attempts := c.attempts + 1)]
                  && after.users == s.users)
            && (!answer.LoggedIn? && !answer.WrongCode? ==> after == s)
  {
  }

  /** The phone's challenges of the hour before `now`, its first moment included. */
  ghost function LastHour(cs: seq<Challenge>, phone: string, now: int): set<int> {
    set i | 0 <= i < |cs| && cs[i].phone == phone && cs[i].createdAt >= now - 3_600_000_000
  }

  lemma {:induction false} CountedInHour(cs: seq<Challenge>, phone: string, now: int)
    ensures |Filter(cs, Since(phone, now - HOUR))| == |LastHour(cs, phone, now)|
  {
    if cs != [] {
      var n := |cs| - 1;
      CountedInHour(cs[..n], phone, now);
      var counted := cs[n].phone == phone && cs[n].createdAt >= now - 3_600_000_000;
      assert LastHour(cs, phone, now) == LastHour(cs[..n], phone, now) + (if counted then {n} else {});
    }
  }

  /** The phone's last challenge, if it has one, was made long enough ago. */
  predicate Waited(cs: seq<Challenge>, phone: string, now: int, cooldown: int) {
    forall i :: 0 <= i < |cs| && cs[i].phone == phone && (forall j :: i < j < |cs| ==> cs[j].phone != phone) ==>
                  now - cs[i].createdAt >= cooldown * 1_000_000
  }

  lemma WaitedForNewest(cs: seq<Challenge>, phone: string, now: int, cooldown: int)
    ensures var recent := Newest(cs, OfPhone(phone));
            Waited(cs, phone, now, cooldown)
            <==> (recent.None? || now - cs[recent.value].createdAt >= cooldown * SECOND)
  {
    var recent := Newest(cs, OfPhone(phone));
    if recent.Some? {
      assert OfPhone(phone)(cs[recent.value]);
      assert forall j :: recent.value < j < |cs| ==> !OfPhone(phone)(cs[j]);
    }
  }

  predicate Mobile(phone: string) {
    |phone| == 11 && phone[0] == '0' && phone[1] == '9'
  }

  lemma ValidPhonesAreMobile(phone: string)
    ensures ValidPhone(phone) <==> Mobile(phone)
  {
  }

  /** Which requests get a code: one for a mobile number, after the cooldown, and while the
      last hour is not full; which error the others get, and that they leave no trace. */
  lemma RequestedIff(cfg: Config, s: State, call: Call)
    requires call.Request?
    ensures var phone, answer, after := call.phone, OutcomeOf(cfg, s, call), Step(cfg, s, call);
            var mobile := Mobile(phone);
            var waited := Waited(s.challenges, phone, call.now, cfg.cooldown);
            if mobile && waited && |LastHour(s.challenges, phone, call.now)| < cfg.maxPerHour then
              && answer == (if call.smsSent then Sent else SmsFailed) && after.users == s.users
              && |after.challenges| == |s.challenges| + 1 && after.challenges[..|s.challenges|] == s.challenges
              && after.challenges[|s.challenges|]
                 == Challenge(phone, call.code, 0, cfg.maxAttempts, false, call.created,
                        call.now + cfg.expiry * 1_000_000)
            else answer == (if !mobile then BadPhone else if !waited then TooSoon else TooMany) && after == s
  {
    ValidPhonesAreMobile(call.phone);
    WaitedForNewest(s.challenges, call.phone, call.now, cfg.cooldown);
    CountedInHour(s.challenges, call.phone, call.now);
  }

  // ----- What every state keeps -----

  predicate CooldownOver(cfg: Config, before: seq<Challenge>, c: Challenge) {
    var recent := Newest(before, OfPhone(c.phone));
    recent.Some? ==> c.createdAt - before[recent.value].createdAt >= cfg.cooldown * SECOND
  }

  predicate HourNotFull(cfg: Config, before: seq<Challenge>, c: Challenge) {
    |Filter(before, Since(c.phone, c.createdAt - HOUR))| < cfg.maxPerHour
  }

  /** Every challenge was made at least the cooldown after its phone's previous one. */
  ghost predicate Spaced(cfg: Config, cs: seq<Challenge>) {
    forall j :: 0 <= j < |cs| ==> CooldownOver(cfg, cs[..j], cs[j])
  }

  /** Every challenge had fewer than the maximum of its phone's in the hour before it. */
  ghost predicate Rationed(cfg: Config, cs: seq<Challenge>) {
    forall j :: 0 <= j < |cs| ==> HourNotFull(cfg, cs[..j], cs[j])
  }

  ghost predicate Bounded(cs: seq<Challenge>) {
    forall j :: 0 <= j < |cs| ==> cs[j].attempts <= cs[j].maxAttempts
  }

  /** Only who and when of a challenge, which no call ever changes. */
  predicate SameRequest(c: Challenge, d: Challenge) {
    c.phone == d.phone && c.createdAt == d.createdAt && c.code == d.code && c.expiresAt == d.expiresAt
    && c.maxAttempts == d.maxAttempts
  }

  lemma {:induction false} NewestIsTheSame(cs: seq<Challenge>, ds: seq<Challenge>, phone: string)
    requires |cs| == |ds| && forall i :: 0 <= i < |cs| ==> SameRequest(cs[i], ds[i])
    ensures Newest(cs, OfPhone(phone)) == Newest(ds, OfPhone(phone))
  {
    if cs != [] {
      NewestIsTheSame(cs[..|cs| - 1], ds[..|cs| - 1], phone);
    }
  }

  lemma {:induction false} CountIsTheSame(cs: seq<Challenge>, ds: seq<Challenge>, phone: string, from: int)
    requires |cs| == |ds| && forall i :: 0 <= i < |cs| ==> SameRequest(cs[i], ds[i])
    ensures |Filter(cs, Since(phone, from))| == |Filter(ds, Since(phone, from))|
  {
    if cs != [] {
      CountIsTheSame(cs[..|cs| - 1], ds[..|cs| - 1], phone, from);
    }
  }

  /** Limits on requests do not depend on what was guessed or used. */
  lemma EditsKeepLimits(cfg: Config, cs: seq<Challenge>, ds: seq<Challenge>)
    requires |cs| == |ds| && forall i :: 0 <= i < |cs| ==> SameRequest(cs[i], ds[i])
    requires Spaced(cfg, cs) && Rationed(cfg, cs)
    ensures Spaced(cfg, ds) && Rationed(cfg, ds)
  {
    forall j | 0 <= j < |ds|
      ensures CooldownOver(cfg, ds[..j], ds[j]) && HourNotFull(cfg, ds[..j], ds[j])
    {
      assert CooldownOver(cfg, cs[..j], cs[j]) && HourNotFull(cfg, cs[..j], cs[j]);
      NewestIsTheSame(cs[..j], ds[..j], cs[j].phone);
      CountIsTheSame(cs[..j], ds[..j], cs[j].phone, cs[j].createdAt - HOUR);
    }
  }

  lemma {:induction false} FewerMatch(cs: seq<Challenge>, p: Challenge -> bool, q: Challenge -> bool)
    requires forall c :: p(c) ==> q(c)
    ensures |Filter(cs, p)| <= |Filter(cs, q)|
  {
    if cs != [] {
      FewerMatch(cs[..|cs| - 1], p, q);
    }
  }

  lemma AppendKeepsLimits(cfg: Config, cs: seq<Challenge>, c: Challenge)
    requires Spaced(cfg, cs) && Rationed(cfg, cs) && CooldownOver(cfg, cs, c) && HourNotFull(cfg, cs, c)
    ensures Spaced(cfg, cs + [c]) && Rationed(cfg, cs + [c])
  {
    var ds := cs + [c];
    forall j | 0 <= j < |ds|
      ensures CooldownOver(cfg, ds[..j], ds[j]) && HourNotFull(cfg, ds[..j], ds[j])
    {
      if j < |cs| {
        assert ds[..j] == cs[..j];
      } else {
        assert ds[..j] == cs;
      }
    }
  }

  function Made(cfg: Config, call: Call): Challenge
    requires call.Request?
  {
    Challenge(call.phone, call.code, 0, cfg.maxAttempts, false, call.created, call.now + cfg.expiry * SECOND)
  }

  lemma AcceptedRequest(cfg: Config, s: State, call: Call)
    requires call.Request? && Step(cfg, s, call) != s
    ensures Step(cfg, s, call).challenges == s.challenges + [Made(cfg, call)]
    ensures var recent := Newest(s.challenges, OfPhone(call.phone));
            recent.Some? ==> call.now - s.challenges[recent.value].createdAt >= cfg.cooldown * SECOND
    ensures |Filter(s.challenges, Since(call.phone, call.now - HOUR))| < cfg.maxPerHour
  {
  }

  lemma RequestKeepsLimits(cfg: Config, s: State, call: Call)
    requires call.Request? && call.now <= call.created
    requires Spaced(cfg, s.challenges) && Rationed(cfg, s.challenges)
    ensures Spaced(cfg, Step(cfg, s, call).challenges) && Rationed(cfg, Step(cfg, s, call).challenges)
  {
    if Step(cfg, s, call) != s {
      AcceptedRequest(cfg, s, call);
      var c := Made(cfg, call);
      FewerMatch(s.challenges, Since(c.phone, c.createdAt - HOUR), Since(c.phone, call.now - HOUR));
      AppendKeepsLimits(cfg, s.challenges, c);
    }
  }

  lemma VerifyOnlyMarks(cfg: Config, s: State, call: Call)
    requires call.Verify?
    ensures var ds := Step(cfg, s, call).challenges;
            |ds| == |s.challenges| && forall i :: 0 <= i < |ds| ==> SameRequest(s.challenges[i], ds[i])
  {
  }

  lemma VerifyKeepsLimits(cfg: Config, s: State, call: Call)
    requires call.Verify? && Spaced(cfg, s.challenges) && Rationed(cfg, s.challenges)
    ensures Spaced(cfg, Step(cfg, s, call).challenges) && Rationed(cfg, Step(cfg, s, call).challenges)
  {
    VerifyOnlyMarks(cfg, s, call);
    EditsKeepLimits(cfg, s.challenges, Step(cfg, s, call).challenges);
  }

  lemma StepKeepsBounded(cfg: Config, s: State, call: Call)
    requires Bounded(s.challenges)
    ensures Bounded(Step(cfg, s, call).challenges)
  {
  }

  // ----- Runs -----

  function Run(cfg: Config, s: State, calls: seq<Call>): State {
    if calls == [] then s else Step(cfg, Run(cfg, s, calls[..|calls| - 1]), calls[|calls| - 1])
  }

  /** What each call of a run answered. */
  function Log(cfg: Config, s: State, calls: seq<Call>): (r: seq<Outcome>)
    ensures |r| == |calls|
  {
    if calls == [] then []
    else Log(cfg, s, calls[..|calls| - 1]) + [OutcomeOf(cfg, Run(cfg, s, calls[..|calls| - 1]), calls[|calls| - 1])]
  }

  /** The one thing asked of the clock: a row is not stamped before its call began. */
  predicate StampedLater(calls: seq<Call>) {
    forall k :: 0 <= k < |calls| && calls[k].Request? ==> calls[k].now <= calls[k].created
  }

  predicate Fresh(s: State) {
    s.challenges == []
  }

  lemma {:induction false} EveryRunKeepsLimits(cfg: Config, s: State, calls: seq<Call>)
    requires Fresh(s) && StampedLater(calls)
    ensures var cs := Run(cfg, s, calls).challenges;
            Spaced(cfg, cs) && Rationed(cfg, cs) && Bounded(cs)
  {
    if calls != [] {
      var n := |calls| - 1;
      var before := Run(cfg, s, calls[..n]);
      EveryRunKeepsLimits(cfg, s, calls[..n]);
      StepKeepsBounded(cfg, before, calls[n]);
      if calls[n].Request? {
        RequestKeepsLimits(cfg, before, calls[n]);
      } else {
        VerifyKeepsLimits(cfg, before, calls[n]);
      }
    }
  }

  lemma PrefixIsRationed(cfg: Config, cs: seq<Challenge>, n: nat)
    requires Rationed(cfg, cs) && n <= |cs|
    ensures Rationed(cfg, cs[..n])
  {
    forall j | 0 <= j < n
      ensures HourNotFull(cfg, cs[..n][..j], cs[..n][j])
    {
      assert cs[..n][..j] == cs[..j];
    }
  }

  lemma {:induction false} WindowOfPrefix(cfg: Config, cs: seq<Challenge>, phone: string, from: int)
    requires Rationed(cfg, cs)
    ensures |Filter(cs, Within(phone, from, from + HOUR))| <= Pos(cfg.maxPerHour)
  {
    if cs != [] {
      var n := |cs| - 1;
      PrefixIsRationed(cfg, cs, n);
      WindowOfPrefix(cfg, cs[..n], phone, from);
      if Within(phone, from, from + HOUR)(cs[n]) {
        assert HourNotFull(cfg, cs[..n], cs[n]);
        FewerMatch(cs[..n], Within(phone, from, from + HOUR), Since(phone, cs[n].createdAt - HOUR));
      }
    }
  }

  /** On every run, any one hour, wherever it starts and with both ends counted, holds at
      most the configured number of challenges of a phone; none at all if that is not
      positive. */
  lemma EveryHourIsRationed(cfg: Config, s: State, calls: seq<Call>, phone: string, from: int)
    requires Fresh(s) && StampedLater(calls)
    ensures |Filter(Run(cfg, s, calls).challenges, Within(phone, from, from + HOUR))| <= Pos(cfg.maxPerHour)
  {
    EveryRunKeepsLimits(cfg, s, calls);
    WindowOfPrefix(cfg, Run(cfg, s, calls).challenges, phone, from);
  }

  lemma {:induction false} LaterByCooldown(cfg: Config, cs: seq<Challenge>, i: nat, j: nat)
    requires Spaced(cfg, cs) && cfg.cooldown >= 0 && i < j < |cs| && cs[i].phone == cs[j].phone
    ensures cs[j].createdAt - cs[i].createdAt >= cfg.cooldown * SECOND
    decreases j
  {
    var previous := Newest(cs[..j], OfPhone(cs[j].phone));
    assert cs[..j][i] == cs[i];
    assert CooldownOver(cfg, cs[..j], cs[j]);
    if previous.value > i {
      LaterByCooldown(cfg, cs, i, previous.value);
    }
  }

  /** On every run any two challenges of a phone are at least the cooldown apart. */
  lemma ChallengesAreSpaced(cfg: Config, s: State, calls: seq<Call>, i: nat, j: nat)
    requires Fresh(s) && StampedLater(calls) && cfg.cooldown >= 0
    requires i < j < |Run(cfg, s, calls).challenges|
    requires Run(cfg, s, calls).challenges[i].phone == Run(cfg, s, calls).challenges[j].phone
    ensures var cs := Run(cfg, s, calls).challenges;
            cs[j].createdAt - cs[i].createdAt >= cfg.cooldown * SECOND
  {
    EveryRunKeepsLimits(cfg, s, calls);
    LaterByCooldown(cfg, Run(cfg, s, calls).challenges, i, j);
  }

  // ----- Guesses and logins -----

  /** How often a run answered `o`. */
  function Times(log: seq<Outcome>, o: Outcome): nat {
    multiset(log)[o]
  }

  /** The stored counters are the answers given: `attempts` counts the wrong codes, and
      `used` whether there was a login. */
  ghost predicate Tallied(cs: seq<Challenge>, log: seq<Outcome>) {
    forall c: nat ::
      && Times(log, WrongCode(c)) == (if c < |cs| then cs[c].attempts else 0)
      && Times(log, LoggedIn(c)) == (if c < |cs| && cs[c].used then 1 else 0)
  }

  lemma StepKeepsTally(cfg: Config, s: State, call: Call, log: seq<Outcome>)
    requires Tallied(s.challenges, log)
    ensures Tallied(Step(cfg, s, call).challenges, log + [OutcomeOf(cfg, s, call)])
  {
    var o := OutcomeOf(cfg, s, call);
    assert multiset(log + [o]) == multiset(log) + multiset{o};
    var ds := Step(cfg, s, call).challenges;
    forall c: nat
      ensures Times(log + [o], WrongCode(c)) == (if c < |ds| then ds[c].attempts else 0)
      ensures Times(log + [o], LoggedIn(c)) == (if c < |ds| && ds[c].used then 1 else 0)
    {
      assert Times(log, WrongCode(c)) == (if c < |s.challenges| then s.challenges[c].attempts else 0);
    }
  }

  lemma {:induction false} EveryRunIsTallied(cfg: Config, s: State, calls: seq<Call>)
    requires Fresh(s)
    ensures Tallied(Run(cfg, s, calls).challenges, Log(cfg, s, calls))
  {
    if calls != [] {
      var n := |calls| - 1;
      EveryRunIsTallied(cfg, s, calls[..n]);
      StepKeepsTally(cfg, Run(cfg, s, calls[..n]), calls[n], Log(cfg, s, calls[..n]));
    }
  }

  /** On every run a challenge takes at most the configured number of wrong codes, and
      yields at most one login. */
  lemma GuessesAreBoundedAndLoginsSingle(cfg: Config, s: State, calls: seq<Call>, c: nat)
    requires Fresh(s) && StampedLater(calls)
    ensures Times(Log(cfg, s, calls), WrongCode(c)) <= cfg.maxAttempts
    ensures Times(Log(cfg, s, calls), LoggedIn(c)) <= 1
  {
    EveryRunKeepsLimits(cfg, s, calls);
    EveryRunIsTallied(cfg, s, calls);
    EveryRunKnowsItsRequests(cfg, s, calls);
  }

  /** Call `j` made the challenge. */
  ghost predicate MadeBy(cfg: Config, c: Challenge, calls: seq<Call>, log: seq<Outcome>, j: nat)
    requires |log| == |calls|
  {
    && j < |calls| && calls[j].Request? && (log[j].Sent? || log[j].SmsFailed?)
    && c.phone == calls[j].phone && c.code == calls[j].code
    && c.expiresAt == calls[j].now + cfg.expiry * SECOND && c.maxAttempts == cfg.maxAttempts
  }

  ghost predicate WasRequested(cfg: Config, c: Challenge, calls: seq<Call>, log: seq<Outcome>)
    requires |log| == |calls|
  {
    exists j: nat :: MadeBy(cfg, c, calls, log, j)
  }

  ghost predicate Requested(cfg: Config, cs: seq<Challenge>, calls: seq<Call>, log: seq<Outcome>)
    requires |log| == |calls|
  {
    forall c :: 0 <= c < |cs| ==> WasRequested(cfg, cs[c], calls, log)
  }

  lemma StillRequested(cfg: Config, c: Challenge, d: Challenge, calls: seq<Call>, log: seq<Outcome>)
    requires calls != [] && |log| == |calls| && SameRequest(c, d)
    requires WasRequested(cfg, c, calls[..|calls| - 1], log[..|calls| - 1])
    ensures WasRequested(cfg, d, calls, log)
  {
    var j: nat :| MadeBy(cfg, c, calls[..|calls| - 1], log[..|calls| - 1], j);
    assert MadeBy(cfg, d, calls, log, j);
  }

  /** One more call: its outcome is the next line of the log. */
  lemma StepKnowsItsRequests(cfg: Config, s: State, calls: seq<Call>, log: seq<Outcome>)
    requires calls != [] && |log| == |calls|
    requires var n := |calls| - 1;
             Requested(cfg, s.challenges, calls[..n], log[..n]) && log[n] == OutcomeOf(cfg, s, calls[n])
    ensures Requested(cfg, Step(cfg, s, calls[|calls| - 1]).challenges, calls, log)
  {
    var n := |calls| - 1;
    var call := calls[n];
    var before, after := s.challenges, Step(cfg, s, call).challenges;
    if call.Verify? {
      VerifyOnlyMarks(cfg, s, call);
    } else if Step(cfg, s, call) != s {
      AcceptedRequest(cfg, s, call);
      assert MadeBy(cfg, Made(cfg, call), calls, log, n);
    }
    forall c | 0 <= c < |after|
      ensures WasRequested(cfg, after[c], calls, log)
    {
      if c < |before| {
        StillRequested(cfg, before[c], after[c], calls, log);
      }
    }
  }

  lemma {:induction false} EveryRunKnowsItsRequests(cfg: Config, s: State, calls: seq<Call>)
    requires Fresh(s)
    ensures Requested(cfg, Run(cfg, s, calls).challenges, calls, Log(cfg, s, calls))
  {
    if calls != [] {
      var n := |calls| - 1;
      var log := Log(cfg, s, calls);
      EveryRunKnowsItsRequests(cfg, s, calls[..n]);
      assert log[..n] == Log(cfg, s, calls[..n]);
      StepKnowsItsRequests(cfg, Run(cfg, s, calls[..n]), calls, log);
    }
  }

  /** A login means the newest unused code of that phone, in time. */
  lemma LoginMatches(cfg: Config, s: State, call: Call)
    requires OutcomeOf(cfg, s, call).LoggedIn?
    ensures call.Verify?
    ensures var k := OutcomeOf(cfg, s, call).challenge;
            && k < |s.challenges| && s.challenges[k].phone == call.phone && s.challenges[k].code == call.code
            && call.now < s.challenges[k].expiresAt
  {
  }

  /** The request asked for the code that the other call gave, and not too long before. */
  predicate AskedFor(cfg: Config, request: Call, verify: Call) {
    && request.Request? && verify.Verify?
    && request.phone == verify.phone && request.code == verify.code
    && verify.now < request.now + cfg.expiry * SECOND
  }

  ghost predicate WasAskedFor(cfg: Config, calls: seq<Call>, k: nat)
    requires k < |calls|
  {
    exists j: nat :: j < k && AskedFor(cfg, calls[j], calls[k])
  }

  /** Every login line of the log is of a call that gives a code asked for before. */
  ghost predicate LoginsAsked(cfg: Config, calls: seq<Call>, log: seq<Outcome>)
    requires |log| == |calls|
  {
    forall k :: 0 <= k < |log| && log[k].LoggedIn? ==> WasAskedFor(cfg, calls, k)
  }

  lemma LastLoginAsked(cfg: Config, s: State, calls: seq<Call>, log: seq<Outcome>)
    requires calls != [] && |log| == |calls|
    requires var n := |calls| - 1;
             Requested(cfg, s.challenges, calls[..n], log[..n]) && OutcomeOf(cfg, s, calls[n]).LoggedIn?
    ensures WasAskedFor(cfg, calls, |calls| - 1)
  {
    var n := |calls| - 1;
    LoginMatches(cfg, s, calls[n]);
    var c := OutcomeOf(cfg, s, calls[n]).challenge;
    assert WasRequested(cfg, s.challenges[c], calls[..n], log[..n]);
    var j: nat :| MadeBy(cfg, s.challenges[c], calls[..n], log[..n], j);
    assert AskedFor(cfg, calls[j], calls[n]);
  }

  lemma EarlierLoginsAsked(cfg: Config, calls: seq<Call>, log: seq<Outcome>)
    requires calls != [] && |log| == |calls| && LoginsAsked(cfg, calls[..|calls| - 1], log[..|calls| - 1])
    requires log[|calls| - 1].LoggedIn? ==> WasAskedFor(cfg, calls, |calls| - 1)
    ensures LoginsAsked(cfg, calls, log)
  {
    var n := |calls| - 1;
    forall k | 0 <= k < n && log[k].LoggedIn?
      ensures WasAskedFor(cfg, calls, k)
    {
      assert log[..n][k].LoggedIn?;
      var j: nat :| j < k && AskedFor(cfg, calls[..n][j], calls[..n][k]);
      assert AskedFor(cfg, calls[j], calls[k]);
    }
  }

  lemma {:induction false} EveryLoginAsked(cfg: Config, s: State, calls: seq<Call>)
    requires Fresh(s)
    ensures LoginsAsked(cfg, calls, Log(cfg, s, calls))
  {
    if calls != [] {
      var n := |calls| - 1;
      var log := Log(cfg, s, calls);
      EveryLoginAsked(cfg, s, calls[..n]);
      EveryRunKnowsItsRequests(cfg, s, calls[..n]);
      assert log[..n] == Log(cfg, s, calls[..n]);
      if log[n].LoggedIn? {
        LastLoginAsked(cfg, Run(cfg, s, calls[..n]), calls, log);
      }
      EarlierLoginsAsked(cfg, calls, log);
    }
  }

  /** On every run a login was preceded by a request of the same phone for the same code,
      no longer ago than a code lives. */
  lemma LoginsWereRequested(cfg: Config, s: State, calls: seq<Call>, k: nat) returns (j: nat)
    requires Fresh(s) && k < |calls| && Log(cfg, s, calls)[k].LoggedIn?
    ensures j < k && AskedFor(cfg, calls[j], calls[k])
  {
    EveryLoginAsked(cfg, s, calls);
    assert WasAskedFor(cfg, calls, k);
    j :| j < k && AskedFor(cfg, calls[j], calls[k]);
  }

  class OtpService {
    var challenges: seq<Challenge>
    var users: map<string, User>
    const cfg: Config

    function Contents(): State
      reads this
    {
      State(challenges, users)
    }

    constructor (cfg: Config, users: map<string, User>)
      ensures this.cfg == cfg && Contents() == State([], users)
    {
      this.cfg, challenges, this.users := cfg, [], users;
    }

    method RequestLoginOtp(phone: string, now: int, created: int, code: string, smsSent: bool) returns (r: Outcome)
      modifies this`challenges
      ensures var call := Request(phone, now, created, code, smsSent);
              r == OutcomeOf(cfg, old(Contents()), call) && Contents() == Step(cfg, old(Contents()), call)
    {
      if !ValidPhone(phone) { return BadPhone; }
      var recent := Newest(challenges, OfPhone(phone));
      if recent.Some? && now - challenges[recent.value].createdAt < cfg.cooldown * SECOND { return TooSoon; }
      var hourly := |Filter(challenges, Since(phone, now - HOUR))|;
      if hourly >= cfg.maxPerHour { return TooMany; }
      var expiresAt := now + cfg.expiry * SECOND;
      challenges := challenges + [Challenge(phone, code, 0, cfg.maxAttempts, false, created, expiresAt)];
      return if smsSent then Sent else SmsFailed;
    }

    method VerifyLoginOtp(phone: string, code: string, isDigits: bool, now: int) returns (r: Outcome)
      modifies this
      ensures var call := Verify(phone, code, isDigits, now);
              r == OutcomeOf(cfg, old(Contents()), call) && Contents() == Step(cfg, old(Contents()), call)
    {
      if !isDigits { return BadCode; }
      var newest := Newest(challenges, Unused(phone));
      if newest.None? { return NoChallenge; }
      var k := newest.value;
      var challenge := challenges[k];
      if now >= challenge.expiresAt { return CodeExpired; }
      if challenge.attempts >= challenge.maxAttempts { return NoAttemptsLeft; }
      if challenge.code != code {
        challenges := challenges[k := challenge.(attempts := challenge.attempts + 1)];
        return WrongCode(k);
      }
      // One transaction: the inactive branch rolls `used` and a new user back.
      if phone !in users {
        users := users[phone := User(true, None)];
      }
      if !users[phone].active { return Inactive; }
      challenges := challenges[k := challenge.(used := true)];
      users := users[phone := users[phone].(lastLogin := Some(now))];
      return LoggedIn(k);
    }
  }
}
