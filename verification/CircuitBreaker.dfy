/** The per-backend circuit breaker against its own call history. Every field is a scan of the history, and every
    call's outcome is decided by those scans. */
module CircuitBreakers {
  import opened Options
  import opened Numbers

  datatype Phase = Closed | Open | HalfOpen

  datatype Call = Success | Failure | Poll

  /** One call, when it was made, and the phase before and after it. */
  datatype Entry = Entry(call: Call, time: nat, before: Phase, after: Phase)

  /** Times are nanoseconds since creation; durations scaled by the flap backoff are real. */
  datatype Config = Config(
    threshold: nat, required: nat, cooldown: real, multiplier: real, maxCooldown: real, streakReset: nat)

  function Pow(m: real, n: nat): real {
    if n == 0 then 1.0 else m * Pow(m, n - 1)
  }

  function MinReal(a: real, b: real): real {
    if a < b then a else b
  }

  function EffectiveCooldown(c: Config, streak: nat): real {
    MinReal(c.cooldown * Pow(c.multiplier, AtLeastOne(streak) - 1), c.maxCooldown)
  }

  // ---- Scans of the history ----

  function Init(h: seq<Entry>): seq<Entry>
    requires h != []
  {
    h[..|h| - 1]
  }

  function Last(h: seq<Entry>): Entry
    requires h != []
  {
    h[|h| - 1]
  }

  function PhaseAfter(h: seq<Entry>): Phase {
    if h == [] then Closed else Last(h).after
  }

  predicate IsTrip(e: Entry) {
    e.before != Open && e.after == Open
  }

  predicate IsClose(e: Entry) {
    e.before == HalfOpen && e.after == Closed
  }

  predicate IsReopening(e: Entry) {
    e.before == Open && e.after == HalfOpen
  }

  /** Failures since the last success. */
  function RecentFailures(h: seq<Entry>): nat {
    if h == [] || Last(h).call == Success then 0
    else RecentFailures(Init(h)) + if Last(h).call == Failure then 1 else 0
  }

  /** Successes since the breaker last went half-open. */
  function RecentSuccesses(h: seq<Entry>): nat {
    if h == [] || IsReopening(Last(h)) then 0
    else RecentSuccesses(Init(h)) + if Last(h).call == Success then 1 else 0
  }

  function LastTrip(h: seq<Entry>): Option<nat> {
    if h == [] then None else if IsTrip(Last(h)) then Some(Last(h).time) else LastTrip(Init(h))
  }

  /** When the breaker last became closed; creation counts. */
  function LastClose(h: seq<Entry>): nat {
    if h == [] then 0 else if IsClose(Last(h)) then Last(h).time else LastClose(Init(h))
  }

  function Elapsed(now: nat, since: nat): nat {
    if now < since then 0 else now - since
  }

  /** A trip at this time would start a new flap streak. */
  predicate StartsStreak(c: Config, h: seq<Entry>, time: nat) {
    c.streakReset <= Elapsed(time, LastClose(h))
  }

  function Streak(c: Config, h: seq<Entry>): nat {
    if h == [] then 0
    else if !IsTrip(Last(h)) then Streak(c, Init(h))
    else if StartsStreak(c, Init(h), Last(h).time) then 1
    else Streak(c, Init(h)) + 1
  }

  /** The phase a call leaves, from the history alone. */
  function Decide(c: Config, h: seq<Entry>, call: Call, time: nat): Phase {
    match (PhaseAfter(h), call)
    case (Closed, Failure) => if AtLeastOne(c.threshold) <= RecentFailures(h) + 1 then Open else Closed
    case (HalfOpen, Failure) => Open
    case (HalfOpen, Success) => if AtLeastOne(c.required) <= RecentSuccesses(h) + 1 then Closed else HalfOpen
    case (Open, Poll) =>
      (match LastTrip(h)
       case None => Open
       case Some(t) => if EffectiveCooldown(c, Streak(c, h)) <= Elapsed(time, t) as real then HalfOpen else Open)
    case (phase, _) => phase
  }

  /** The clock has not gone back since the last call. */
  predicate NotBefore(h: seq<Entry>, now: nat) {
    h == [] || Last(h).time <= now
  }

  function Extend(c: Config, h: seq<Entry>, call: Call, time: nat): seq<Entry> {
    h + [Entry(call, time, PhaseAfter(h), Decide(c, h, call, time))]
  }

  lemma ExtendParts(c: Config, h: seq<Entry>, call: Call, time: nat)
    ensures var r := Extend(c, h, call, time);
            r != [] && Init(r) == h && Last(r) == Entry(call, time, PhaseAfter(h), Decide(c, h, call, time))
  {
  }

  /** A history a breaker can have: each call decided as above, on a clock that does not go back. */
  ghost predicate Lawful(c: Config, h: seq<Entry>) {
    h == [] ||
    (&& Lawful(c, Init(h))
     && Last(h).before == PhaseAfter(Init(h))
     && Last(h).after == Decide(c, Init(h), Last(h).call, Last(h).time)
     && NotBefore(Init(h), Last(h).time))
  }

  // ---- The breaker itself ----

  class CircuitBreaker {
    const c: Config
    var phase: Phase
    var consecutiveFailures: nat
    var consecutiveSuccesses: nat
    var openedAt: Option<nat>
    var tripStreak: nat
    var closedSince: nat
    ghost var h: seq<Entry>

    /** The history is lawful, and every field is what it says. */
    ghost predicate Valid()
      reads this
    {
      && Lawful(c, h)
      && phase == PhaseAfter(h)
      && (phase == Closed ==> consecutiveFailures == RecentFailures(h))
      && (phase == HalfOpen ==> consecutiveSuccesses == RecentSuccesses(h))
      && (phase != HalfOpen ==> consecutiveSuccesses == 0)
      && openedAt == LastTrip(h) && tripStreak == Streak(c, h) && closedSince == LastClose(h)
    }

    constructor (c: Config)
      ensures Valid() && this.c == c && h == []
    {
      this.c := c;
      phase, consecutiveFailures, consecutiveSuccesses := Closed, 0, 0;
      openedAt, tripStreak, closedSince, h := None, 0, 0, [];
    }

    /** Reports the phase, after the cooldown check that may move Open to HalfOpen. */
    method State(now: nat) returns (r: Phase)
      requires Valid() && NotBefore(h, now)
      modifies this`phase, this`h
      ensures Valid() && h == Extend(c, old(h), Poll, now) && r == phase
      ensures old(phase) != Open ==> phase == old(phase)
    {
      ExtendParts(c, h, Poll, now);
      ghost var h' := Extend(c, h, Poll, now);
      if phase == Open && openedAt.Some? {
        if EffectiveCooldown(c, tripStreak) <= Elapsed(now, openedAt.value) as real {
          phase := HalfOpen;
        }
      }
      h := h';
      r := phase;
    }

    method RecordSuccess(now: nat)
      requires Valid() && NotBefore(h, now)
      modifies this
      ensures Valid() && h == Extend(c, old(h), Success, now)
      ensures old(phase) != HalfOpen ==> phase == old(phase)
    {
      ExtendParts(c, h, Success, now);
      ghost var h' := Extend(c, h, Success, now);
      consecutiveFailures := 0;
      if phase == HalfOpen {
        var successes := consecutiveSuccesses + 1;
        consecutiveSuccesses := successes;
        if c.required <= successes {
          phase := Closed;
          consecutiveSuccesses := 0;
          closedSince := now;
        }
      }
      h := h';
    }

    method RecordFailure(now: nat)
      requires Valid() && NotBefore(h, now)
      modifies this
      ensures Valid() && h == Extend(c, old(h), Failure, now)
      ensures old(phase) != Closed ==> phase == Open
    {
      ExtendParts(c, h, Failure, now);
      ghost var h' := Extend(c, h, Failure, now);
      if phase == HalfOpen {
        Trip(now);
      } else if phase == Closed {
        var failures := consecutiveFailures + 1;
        consecutiveFailures := failures;
        if c.threshold <= failures {
          Trip(now);
        }
      }
      h := h';
    }

    /** Opens, and continues or restarts the flap streak. */
    method Trip(now: nat)
      modifies this
      ensures phase == Open && openedAt == Some(now) && consecutiveFailures == consecutiveSuccesses == 0
      ensures tripStreak == if c.streakReset <= Elapsed(now, old(closedSince)) then 1 else old(tripStreak) + 1
      ensures closedSince == old(closedSince) && h == old(h)
    {
      phase, openedAt := Open, Some(now);
      consecutiveFailures, consecutiveSuccesses := 0, 0;
      if c.streakReset <= Elapsed(now, closedSince) {
        tripStreak := 0;
      }
      tripStreak := tripStreak + 1;
    }
  }

  // ---- What every history satisfies ----

  /** While closed, the failures since the last success stay below the threshold; half-open, likewise the successes. */
  lemma {:induction false} BelowThresholds(c: Config, h: seq<Entry>)
    requires Lawful(c, h)
    ensures PhaseAfter(h) == Closed ==> RecentFailures(h) < AtLeastOne(c.threshold)
    ensures PhaseAfter(h) == HalfOpen ==> RecentSuccesses(h) < AtLeastOne(c.required)
    ensures PhaseAfter(h) != Closed ==> LastTrip(h).Some?
  {
    if h != [] {
      BelowThresholds(c, Init(h));
    }
  }

  /** The breaker trips from Closed exactly at the failure that makes max(1, threshold) since the last success. */
  lemma TripsExactlyAtThreshold(c: Config, h: seq<Entry>)
    requires Lawful(c, h) && h != [] && Last(h).before == Closed
    ensures Last(h).after == Open <==> Last(h).call == Failure && RecentFailures(h) == AtLeastOne(c.threshold)
  {
    BelowThresholds(c, Init(h));
  }

  /** It closes exactly at the success that makes max(1, required) in this half-open episode. */
  lemma ClosesExactlyAtRequired(c: Config, h: seq<Entry>)
    requires Lawful(c, h) && h != [] && Last(h).before == HalfOpen
    ensures Last(h).after == Closed <==> Last(h).call == Success && RecentSuccesses(h) == AtLeastOne(c.required)
  {
    BelowThresholds(c, Init(h));
  }

  /** The other moves: half-open, any failure trips it and nothing else does; open, only a poll moves it, and only to
      half-open; a poll moves it from nowhere else; and closed, it never goes half-open. */
  lemma OtherMoves(c: Config, h: seq<Entry>)
    requires Lawful(c, h) && h != []
    ensures var e := Last(h);
            && (e.before == HalfOpen ==> (e.after == Open <==> e.call == Failure))
            && (e.before == Open && e.after != Open ==> e.call == Poll && e.after == HalfOpen)
            && (e.before != Open && e.call == Poll ==> e.after == e.before)
            && (e.before == Closed ==> e.after != HalfOpen)
  {
  }

  // ---- The scans by position ----

  ghost predicate NoneAfter(h: seq<Entry>, j: nat, p: Entry -> bool) {
    forall k :: j < k < |h| ==> !p(h[k])
  }

  function OfCall(call: Call): Entry -> bool {
    (e: Entry) => e.call == call
  }

  /** The calls of one kind since the last entry of another. */
  ghost function Since(h: seq<Entry>, call: Call, last: Entry -> bool): set<nat> {
    set j: nat | j < |h| && h[j].call == call && NoneAfter(h, j, last)
  }

  lemma StillLast(h: seq<Entry>, p: Entry -> bool)
    requires h != []
    ensures p(Last(h)) ==> NoneAfter(h, |h| - 1, p)
    ensures forall j: nat :: j < |h| - 1 ==> (NoneAfter(h, j, p) <==> NoneAfter(Init(h), j, p) && !p(Last(h)))
    ensures forall j: nat :: j < |h| - 1 ==> h[j] == Init(h)[j]
  {
    forall j: nat | j < |h| - 1 ensures NoneAfter(h, j, p) <==> NoneAfter(Init(h), j, p) && !p(Last(h)) {
      if NoneAfter(h, j, p) {
        assert !p(h[|h| - 1]);
        assert forall k :: j < k < |Init(h)| ==> Init(h)[k] == h[k];
      }
    }
  }

  lemma SinceCleared(h: seq<Entry>, call: Call, last: Entry -> bool)
    requires h != [] && last(Last(h)) && Last(h).call != call
    ensures Since(h, call, last) == {}
  {
    StillLast(h, last);
  }

  lemma SinceKept(h: seq<Entry>, call: Call, last: Entry -> bool)
    requires h != [] && !last(Last(h))
    ensures Since(h, call, last) == Since(Init(h), call, last) + if Last(h).call == call then {|h| - 1} else {}
  {
    StillLast(h, last);
    forall j: nat | j < |h| - 1 ensures j in Since(h, call, last) <==> j in Since(Init(h), call, last) {
    }
    assert NoneAfter(h, |h| - 1, last);
  }

  lemma SinceSnoc(h: seq<Entry>, call: Call, last: Entry -> bool)
    requires h != [] && !(last(Last(h)) && Last(h).call == call)
    ensures |Since(h, call, last)| ==
            if last(Last(h)) then 0 else |Since(Init(h), call, last)| + if Last(h).call == call then 1 else 0
  {
    if last(Last(h)) {
      SinceCleared(h, call, last);
    } else {
      SinceKept(h, call, last);
    }
  }

  /** The failures that count are those with no success after them. */
  lemma {:induction false} RecentFailuresAre(h: seq<Entry>)
    ensures RecentFailures(h) == |Since(h, Failure, OfCall(Success))|
  {
    if h == [] {
      assert Since(h, Failure, OfCall(Success)) == {};
    } else {
      RecentFailuresAre(Init(h));
      SinceSnoc(h, Failure, OfCall(Success));
    }
  }

  /** The successes that count are those with no reopening after them. */
  lemma {:induction false} RecentSuccessesAre(c: Config, h: seq<Entry>)
    requires Lawful(c, h)
    ensures RecentSuccesses(h) == |Since(h, Success, IsReopening)|
  {
    if h == [] {
      assert Since(h, Success, IsReopening) == {};
    } else {
      RecentSuccessesAre(c, Init(h));
      OtherMoves(c, h);
      SinceSnoc(h, Success, IsReopening);
    }
  }

  /** The last trip and the last close are where they should be. */
  lemma {:induction false} LastsAre(h: seq<Entry>)
    ensures LastTrip(h).None? <==> forall j :: 0 <= j < |h| ==> !IsTrip(h[j])
    ensures LastTrip(h).Some? ==>
              exists j: nat :: j < |h| && IsTrip(h[j]) && h[j].time == LastTrip(h).value && NoneAfter(h, j, IsTrip)
    ensures (LastClose(h) == 0 && forall j :: 0 <= j < |h| ==> !IsClose(h[j])) ||
            exists j: nat :: j < |h| && IsClose(h[j]) && h[j].time == LastClose(h) && NoneAfter(h, j, IsClose)
  {
    if h != [] {
      LastsAre(Init(h));
      StillLast(h, IsTrip);
      StillLast(h, IsClose);
    }
  }

  /** A trip starts a streak afresh exactly when creation and every close lie at least the reset time back, and
      otherwise makes it one longer. */
  lemma NewStreakExactly(c: Config, h: seq<Entry>)
    requires Lawful(c, h) && h != [] && IsTrip(Last(h))
    ensures var restarts := c.streakReset <= Last(h).time &&
                            forall j :: 0 <= j < |h| && IsClose(h[j]) ==> h[j].time + c.streakReset <= Last(h).time;
            Streak(c, h) == if restarts then 1 else Streak(c, Init(h)) + 1
  {
    LastCloseInPast(c, Init(h));
    LatestClose(c, Init(h));
    assert forall j :: 0 <= j < |h| && IsClose(h[j]) ==> j < |h| - 1 && h[j] == Init(h)[j];
    if LastClose(Init(h)) != 0 {
      LastsAre(Init(h));
      var j: nat :| j < |h| - 1 && IsClose(Init(h)[j]) && Init(h)[j].time == LastClose(Init(h));
      assert IsClose(h[j]);
    }
  }

  lemma {:induction false} LatestClose(c: Config, h: seq<Entry>)
    requires Lawful(c, h)
    ensures forall j :: 0 <= j < |h| && IsClose(h[j]) ==> h[j].time <= LastClose(h)
  {
    if h != [] {
      LatestClose(c, Init(h));
      LastCloseInPast(c, Init(h));
      assert forall j :: 0 <= j < |h| - 1 ==> h[j] == Init(h)[j];
    }
  }

  function Trips(h: seq<Entry>): nat {
    if h == [] then 0 else Trips(Init(h)) + if IsTrip(Last(h)) then 1 else 0
  }

  /** Where the current flap streak began: before the last trip that started one, or at the very start. */
  function StreakStart(c: Config, h: seq<Entry>): nat {
    if h == [] then 0
    else if IsTrip(Last(h)) && StartsStreak(c, Init(h), Last(h).time) then |h| - 1
    else StreakStart(c, Init(h))
  }

  lemma {:induction false} TripsSplit(a: seq<Entry>, b: seq<Entry>)
    ensures Trips(a + b) == Trips(a) + Trips(b)
  {
    if b == [] {
      assert a + b == a;
    } else {
      assert Init(a + b) == a + Init(b) && Last(a + b) == Last(b);
      TripsSplit(a, Init(b));
    }
  }

  /** The streak is the number of trips since, and counting, the last one made at least the reset time after a close. */
  lemma {:induction false} StreakCountsTrips(c: Config, h: seq<Entry>)
    ensures StreakStart(c, h) <= |h| && Streak(c, h) == Trips(h[StreakStart(c, h)..])
  {
    if h != [] {
      StreakCountsTrips(c, Init(h));
      var i := StreakStart(c, h);
      if i == |h| - 1 && IsTrip(Last(h)) && StartsStreak(c, Init(h), Last(h).time) {
        assert h[i..] == [Last(h)] && Init([Last(h)]) == [];
      } else {
        assert h[i..] == Init(h)[i..] + [Last(h)];
        TripsSplit(Init(h)[i..], [Last(h)]);
        assert Init([Last(h)]) == [];
      }
    }
  }

  // ---- The documented streak ----

  /** As documented, a trip starts a new streak only when it ends a closed spell of at least the reset time. */
  predicate DocumentedStart(c: Config, h: seq<Entry>)
    requires h != []
  {
    IsTrip(Last(h)) && Last(h).before == Closed && StartsStreak(c, Init(h), Last(h).time)
  }

  function DocumentedStreak(c: Config, h: seq<Entry>): nat {
    if h == [] then 0
    else if !IsTrip(Last(h)) then DocumentedStreak(c, Init(h))
    else if DocumentedStart(c, h) then 1
    else DocumentedStreak(c, Init(h)) + 1
  }

  /** The trip that began the current streak came out of HalfOpen. */
  predicate StreakFromHalfOpen(c: Config, h: seq<Entry>) {
    var i := StreakStart(c, h);
    i < |h| && IsTrip(h[i]) && h[i].before == HalfOpen && StartsStreak(c, h[..i], h[i].time)
  }

  lemma {:induction false} StreakPositive(c: Config, h: seq<Entry>)
    requires Lawful(c, h)
    ensures PhaseAfter(h) != Closed ==> Streak(c, h) >= 1
  {
    if h != [] {
      StreakPositive(c, Init(h));
    }
  }

  /** The breaker's streak is the documented one unless a re-trip out of HalfOpen began it, and then it is shorter. */
  lemma {:induction false} StreakAsDocumentedExactly(c: Config, h: seq<Entry>)
    requires Lawful(c, h)
    ensures Streak(c, h) <= DocumentedStreak(c, h)
    ensures Streak(c, h) == DocumentedStreak(c, h) <==> !StreakFromHalfOpen(c, h)
  {
    if h != [] {
      StreakAsDocumentedExactly(c, Init(h));
      StreakPositive(c, Init(h));
      StreakCountsTrips(c, h);
      StreakCountsTrips(c, Init(h));
      var i := StreakStart(c, h);
      if i < |h| - 1 {
        assert h[i] == Init(h)[i] && h[..i] == Init(h)[..i];
      } else if i == |h| - 1 {
        assert h[..i] == Init(h);
      }
    }
  }

  // ---- When the cooldown is not shorter than the reset time ----

  lemma {:induction false} LastCloseInPast(c: Config, h: seq<Entry>)
    requires Lawful(c, h)
    ensures LastClose(h) <= if h == [] then 0 else Last(h).time
  {
    if h != [] {
      LastCloseInPast(c, Init(h));
    }
  }

  /** A breaker that is not closed tripped after it last closed. */
  lemma {:induction false} CloseBeforeTrip(c: Config, h: seq<Entry>)
    requires Lawful(c, h) && PhaseAfter(h) != Closed
    ensures LastTrip(h).Some? && LastClose(h) <= LastTrip(h).value <= Last(h).time
  {
    if Last(h).before == Closed {
      LastCloseInPast(c, Init(h));
    } else {
      CloseBeforeTrip(c, Init(h));
    }
  }

  /** A half-open breaker has waited out its effective cooldown. */
  lemma {:induction false} HalfOpenHasWaited(c: Config, h: seq<Entry>)
    requires Lawful(c, h) && PhaseAfter(h) == HalfOpen
    ensures LastTrip(h).Some? && LastTrip(h).value <= Last(h).time
    ensures EffectiveCooldown(c, Streak(c, h)) <= (Last(h).time - LastTrip(h).value) as real
  {
    CloseBeforeTrip(c, h);
    if Last(h).before == HalfOpen {
      HalfOpenHasWaited(c, Init(h));
    } else {
      CloseBeforeTrip(c, Init(h));
    }
  }

  /** How many calls there have been since the last trip. */
  function SinceTrip(h: seq<Entry>): (n: nat)
    ensures n <= |h|
  {
    if h == [] || IsTrip(Last(h)) then 0 else SinceTrip(Init(h)) + 1
  }

  /** And while it is open, no poll since the trip has found the effective cooldown over: the first that does is the one
      that lets it half open. */
  lemma {:induction false} OpenIsNotDue(c: Config, h: seq<Entry>, i: nat)
    requires Lawful(c, h) && PhaseAfter(h) == Open
    requires |h| - SinceTrip(h) <= i < |h| && h[i].call == Poll
    ensures LastTrip(h).Some?
    ensures Elapsed(h[i].time, LastTrip(h).value) as real < EffectiveCooldown(c, Streak(c, h))
  {
    BelowThresholds(c, Init(h));
    if i < |h| - 1 {
      assert h[i] == Init(h)[i];
      OpenIsNotDue(c, Init(h), i);
    }
  }

  lemma {:induction false} PowAtLeastOne(m: real, n: nat)
    requires m >= 1.0
    ensures Pow(m, n) >= 1.0
  {
    if n > 0 {
      PowAtLeastOne(m, n - 1);
      assert m * Pow(m, n - 1) >= m;
    }
  }

  lemma LeastCooldown(c: Config, streak: nat)
    requires c.multiplier >= 1.0 && c.cooldown >= 0.0
    ensures MinReal(c.cooldown, c.maxCooldown) <= EffectiveCooldown(c, streak)
  {
    PowAtLeastOne(c.multiplier, AtLeastOne(streak) - 1);
    assert c.cooldown * Pow(c.multiplier, AtLeastOne(streak) - 1) >= c.cooldown;
  }

  lemma {:induction false} PowGrows(m: real, a: nat, b: nat)
    requires m >= 1.0 && a <= b
    ensures 1.0 <= Pow(m, a) <= Pow(m, b)
  {
    PowAtLeastOne(m, a);
    if a < b {
      PowGrows(m, a, b - 1);
      assert m * Pow(m, b - 1) >= Pow(m, b - 1);
    }
  }

  /** The first trip of a streak waits the plain cooldown, and each further trip no less than the one before, up to the
      cap. */
  lemma CooldownGrows(c: Config, a: nat, b: nat)
    requires c.multiplier >= 1.0 && c.cooldown >= 0.0 && 1 <= a <= b
    ensures EffectiveCooldown(c, 1) == MinReal(c.cooldown, c.maxCooldown)
    ensures EffectiveCooldown(c, a) <= EffectiveCooldown(c, b) <= c.maxCooldown
  {
    PowGrows(c.multiplier, a - 1, b - 1);
    var x, y := Pow(c.multiplier, a - 1), Pow(c.multiplier, b - 1);
    assert c.cooldown * (y - x) >= 0.0;
    assert c.cooldown * y == c.cooldown * x + c.cooldown * (y - x);
  }

  /** Each further trip of a streak waits the multiplier times the wait before it, up to the cap. */
  lemma BacksOffExactly(c: Config, n: nat)
    requires c.multiplier >= 1.0 && c.cooldown >= 0.0 && c.maxCooldown >= 0.0 && 1 <= n
    ensures EffectiveCooldown(c, n + 1) == MinReal(c.multiplier * EffectiveCooldown(c, n), c.maxCooldown)
  {
    var m, d, p, most := c.multiplier, c.cooldown, Pow(c.multiplier, n - 1), c.maxCooldown;
    PowAtLeastOne(m, n - 1);
    assert d * (m * p) == m * (d * p);
    assert 0.0 <= d * p;
    assert m * most >= most;
    if most <= d * p {
      assert m * (d * p) >= d * p;
    }
  }

  /** When the plain cooldown is at least the reset time, every re-trip out of HalfOpen starts a new streak, so a
      backend that keeps failing its probes is never backed off beyond the plain cooldown. */
  lemma RetripsNeverBackOff(c: Config, h: seq<Entry>)
    requires c.multiplier >= 1.0 && c.cooldown >= 0.0
    requires c.streakReset as real <= MinReal(c.cooldown, c.maxCooldown)
    requires Lawful(c, h) && h != [] && IsTrip(Last(h)) && Last(h).before == HalfOpen
    ensures Streak(c, h) == 1 && EffectiveCooldown(c, Streak(c, h)) == MinReal(c.cooldown, c.maxCooldown)
  {
    HalfOpenHasWaited(c, Init(h));
    CloseBeforeTrip(c, Init(h));
    LeastCooldown(c, Streak(c, Init(h)));
  }

  /** What one more call adds to each scan. */
  lemma ExtendScans(c: Config, h: seq<Entry>, call: Call, time: nat)
    requires Lawful(c, h) && NotBefore(h, time)
    ensures var r, e := Extend(c, h, call, time), Entry(call, time, PhaseAfter(h), Decide(c, h, call, time));
            && Lawful(c, r) && r != [] && Init(r) == h && Last(r) == e
            && LastTrip(r) == (if IsTrip(e) then Some(time) else LastTrip(h))
            && LastClose(r) == (if IsClose(e) then time else LastClose(h))
            && Streak(c, r) ==
               (if !IsTrip(e) then Streak(c, h) else if StartsStreak(c, h, time) then 1 else Streak(c, h) + 1)
            && DocumentedStreak(c, r) ==
               (if !IsTrip(e) then DocumentedStreak(c, h)
                else if e.before == Closed && StartsStreak(c, h, time) then 1 else DocumentedStreak(c, h) + 1)
  {
    ExtendParts(c, h, call, time);
  }

  const SECOND: nat := 1_000_000_000

  /** A first failed probe: the documented streak is two, the breaker's is one, and the cooldown does not double. */
  lemma DocumentedStreakCanDiffer()
    ensures exists c, h ::
              && Lawful(c, h) && Streak(c, h) == 1 && DocumentedStreak(c, h) == 2
              && EffectiveCooldown(c, Streak(c, h)) < EffectiveCooldown(c, DocumentedStreak(c, h))
  {
    var minute := 60.0 * (SECOND as real);
    var c := Config(1, 1, minute, 2.0, 10.0 * minute, 60 * SECOND);
    var h1 := Extend(c, [], Failure, 100 * SECOND);
    var h2 := Extend(c, h1, Poll, 160 * SECOND);
    var h3 := Extend(c, h2, Failure, 160 * SECOND);
    ExtendScans(c, [], Failure, 100 * SECOND);
    assert Last(h1).after == Open && Streak(c, h1) == 1 && DocumentedStreak(c, h1) == 1;
    ExtendScans(c, h1, Poll, 160 * SECOND);
    assert Pow(2.0, 0) == 1.0 && Pow(2.0, 1) == 2.0;
    assert Last(h2).after == HalfOpen && Streak(c, h2) == 1 && DocumentedStreak(c, h2) == 1;
    ExtendScans(c, h2, Failure, 160 * SECOND);
    assert Lawful(c, h3) && Streak(c, h3) == 1 && DocumentedStreak(c, h3) == 2;
  }
}
