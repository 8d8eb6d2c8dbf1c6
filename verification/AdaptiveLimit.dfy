/** The adaptive concurrency limit: requests take a slot through a compare-exchange loop while samples and failures move
    the limit. Every atomic access is a step of its own, so limits and counts may be stale when they are used. */
module AdaptiveLimits {
  import opened Options

  datatype Config = Config(initial: nat, least: nat, most: nat, smoothing: real, tolerance: real)

  const LONG_WINDOW: real := 600.0
  const FAILURE_BACKOFF: real := 0.9
  const LEAST_RTT: real := 0.000001

  /** What clamping between the two limits demands. */
  predicate WellFormed(cfg: Config) {
    cfg.least <= cfg.most
  }

  function Clamp(x: real, low: real, high: real): real
    requires low <= high
  {
    if x < low then low else if high < x then high else x
  }

  /** Rounds half away from zero, the estimate being positive. */
  function Round(x: real): int {
    (x + 0.5).Floor
  }

  function ClampInt(x: int, low: nat, high: nat): nat
    requires low <= high
  {
    if x < low then low else if high < x then high else x
  }

  function Published(cfg: Config, estimated: real): nat
    requires cfg.least <= cfg.most
  {
    ClampInt(Round(estimated), cfg.least, cfg.most)
  }

  function Share(x: real, rtt: real): real
    requires rtt > 0.0
  {
    x / rtt
  }

  function LongRtt(long: Option<real>, rtt: real): real
    requires rtt > 0.0
  {
    match long
    case None => rtt
    case Some(l) =>
      var moved := l + (rtt - l) / LONG_WINDOW;
      if Share(moved, rtt) > 2.0 then moved * 0.95 else moved
  }

  /** The estimate blended with its target. */
  function Blended(estimated: real, smoothing: real, gradient: real, queue: real): real {
    var target := estimated * gradient + queue;
    estimated * (1.0 - smoothing) + target * smoothing
  }

  /** The slowest response that costs the estimate nothing. */
  function Tolerated(cfg: Config, long: real): real {
    cfg.tolerance * long
  }

  /** How much of the estimate a response keeps. */
  function Gradient(tolerated: real, rtt: real): real
    requires rtt > 0.0
  {
    Clamp(Share(tolerated, rtt), 0.5, 1.0)
  }

  /** The gradient of a response, the long average having moved by that same response. */
  function GradientOf(cfg: Config, long: Option<real>, rtt: real): real
    requires rtt > 0.0
  {
    Gradient(Tolerated(cfg, LongRtt(long, rtt)), rtt)
  }

  /** `queue` is the square root of the estimate. */
  function SampledEstimate(cfg: Config, estimated: real, gradient: real, queue: real): real
    requires cfg.least <= cfg.most
  {
    Clamp(Blended(estimated, cfg.smoothing, gradient, queue), cfg.least as real, cfg.most as real)
  }

  function FailedEstimate(cfg: Config, estimated: real): real {
    var backed := estimated * FAILURE_BACKOFF;
    if backed < cfg.least as real then cfg.least as real else backed
  }

  // ---- What a sample does to the estimate ----

  lemma ShareOrder(x: real, rtt: real, bound: real)
    requires rtt > 0.0
    ensures Share(x, rtt) >= bound <==> x >= bound * rtt
    ensures Share(x, rtt) <= bound <==> x <= bound * rtt
  {
    var q := x / rtt;
    assert x == q * rtt;
    var d := q - bound;
    assert d * rtt == x - bound * rtt;
    if d > 0.0 {
      assert d * rtt > 0.0;
    } else if d < 0.0 {
      assert (-d) * rtt > 0.0;
    }
  }

  /** The long average moves towards the sample by a six-hundredth of the gap, and falls a further twentieth while it
      is more than twice the sample; it never reaches zero. */
  lemma LongRttMoves(l: real, rtt: real)
    requires l > 0.0 && rtt > 0.0
    ensures var moved, next := l + (rtt - l) / LONG_WINDOW, LongRtt(Some(l), rtt);
            && next == (if moved > 2.0 * rtt then moved * 0.95 else moved) && 0.0 < next
            && (l <= rtt ==> l <= next <= rtt) && (rtt <= l ==> rtt <= next <= l)
  {
    ShareOrder(l + (rtt - l) / LONG_WINDOW, rtt, 2.0);
  }

  lemma ShareCross(x: real, fast: real, y: real, slow: real)
    requires 0.0 < fast && 0.0 < slow && y * fast <= x * slow
    ensures Share(y, slow) <= Share(x, fast)
  {
    var q := Share(x, fast);
    assert q * fast == x;
    assert (q * slow - y) * fast >= 0.0;
    ShareOrder(y, slow, q);
  }

  lemma ScaledCross(times: real, x: real, fast: real, y: real, slow: real)
    requires 0.0 <= times && y * fast <= x * slow
    ensures times * y * fast <= times * x * slow
  {
    assert times * (x * slow - y * fast) >= 0.0;
  }

  /** Both averages having moved from l, the slower sample's is the smaller share of its sample. */
  lemma MovedCross(l: real, fast: real, slow: real, toFast: real, toSlow: real)
    requires 0.0 < l && fast <= slow
    requires toFast == l + (fast - l) / LONG_WINDOW && toSlow == l + (slow - l) / LONG_WINDOW
    ensures toSlow * fast <= toFast * slow
  {
    assert (l - l / LONG_WINDOW) * (slow - fast) >= 0.0;
  }

  lemma AtLeastItself(x: real, times: real)
    requires 0.0 <= x && 1.0 <= times
    ensures x <= times * x
  {
    assert (times - 1.0) * x >= 0.0;
  }

  /** While the long average is decaying the sample is fast enough for the full gradient. */
  lemma DecayingIsFast(cfg: Config, l: real, rtt: real)
    requires 1.0 <= cfg.tolerance && 0.0 < l && 0.0 < rtt && l + (rtt - l) / LONG_WINDOW > 2.0 * rtt
    ensures GradientOf(cfg, Some(l), rtt) == 1.0
  {
    var long := LongRtt(Some(l), rtt);
    LongRttMoves(l, rtt);
    AtLeastItself(long, cfg.tolerance);
    ShareOrder(Tolerated(cfg, long), rtt, 1.0);
  }

  lemma GradientCross(x: real, fast: real, y: real, slow: real)
    requires 0.0 < fast && 0.0 < slow && y * fast <= x * slow
    ensures Gradient(y, slow) <= Gradient(x, fast)
  {
    ShareCross(x, fast, y, slow);
  }

  lemma WithoutDecay(l: real, rtt: real)
    requires 0.0 < rtt && l + (rtt - l) / LONG_WINDOW <= 2.0 * rtt
    ensures LongRtt(Some(l), rtt) == l + (rtt - l) / LONG_WINDOW
  {
    ShareOrder(l + (rtt - l) / LONG_WINDOW, rtt, 2.0);
  }

  /** A slower sample has no greater gradient, the long average having moved by that same sample. */
  lemma GradientFalls(cfg: Config, l: real, fast: real, slow: real)
    requires 1.0 <= cfg.tolerance && 0.0 < l && 0.0 < fast <= slow
    ensures GradientOf(cfg, Some(l), slow) <= GradientOf(cfg, Some(l), fast)
  {
    if l + (fast - l) / LONG_WINDOW > 2.0 * fast {
      DecayingIsFast(cfg, l, fast);
    } else {
      WithoutDecay(l, fast);
      WithoutDecay(l, slow);
      var toFast, toSlow := LongRtt(Some(l), fast), LongRtt(Some(l), slow);
      MovedCross(l, fast, slow, toFast, toSlow);
      ScaledCross(cfg.tolerance, toFast, fast, toSlow, slow);
      GradientCross(Tolerated(cfg, toFast), fast, Tolerated(cfg, toSlow), slow);
    }
  }

  /** So too for the first sample, which is its own long average. */
  lemma AnyGradientFalls(cfg: Config, long: Option<real>, fast: real, slow: real)
    requires 1.0 <= cfg.tolerance && (long.Some? ==> 0.0 < long.value) && 0.0 < fast <= slow
    ensures GradientOf(cfg, long, slow) <= GradientOf(cfg, long, fast)
  {
    if long.Some? {
      GradientFalls(cfg, long.value, fast, slow);
    } else {
      var first := LongRtt(long, fast);
      AtLeastItself(first, cfg.tolerance);
      ShareOrder(Tolerated(cfg, first), fast, 1.0);
    }
  }

  lemma BlendedGrows(estimated: real, smoothing: real, lower: real, higher: real, queue: real)
    requires 0.0 <= estimated && 0.0 <= smoothing && lower <= higher
    ensures Blended(estimated, smoothing, lower, queue) <= Blended(estimated, smoothing, higher, queue)
  {
    assert estimated * (higher - lower) >= 0.0;
    assert smoothing * (estimated * (higher - lower)) >= 0.0;
    assert Blended(estimated, smoothing, higher, queue) - Blended(estimated, smoothing, lower, queue)
        == smoothing * (estimated * (higher - lower));
  }

  // ---- The shared limit ----

  /** A request part-way through `try_acquire`. */
  datatype Attempt = Limited(limit: nat) | Counted(limit: nat, current: nat)

  /** `guards` counts the guards in hand; `publishing` says the lock is held and the new estimate not yet published. */
  datatype State = State(
    estimated: real, long: Option<real>, publishing: bool, limit: nat, inFlight: nat,
    attempts: map<nat, Attempt>, guards: nat)

  datatype Event =
    | ReadLimit(t: nat)
    | ReadCount(t: nat)
    | CompareExchange(t: nat, spurious: bool)
    | DropGuard
    | Sample(rtt: real, inFlightAtStart: nat, queue: real)
    | Failure
    | Publish

  function Begin(cfg: Config): State
    requires WellFormed(cfg)
  {
    var initial := ClampInt(cfg.initial, cfg.least, cfg.most);
    State(initial as real, None, false, initial, 0, map[], 0)
  }

  /** A turn of the retry loop: give up at the limit, take the slot if the count has not moved, or look again. */
  function Exchanged(s: State, t: nat, spurious: bool): State
    requires t in s.attempts && s.attempts[t].Counted?
  {
    var a := s.attempts[t];
    if a.limit <= a.current then s.(attempts := s.attempts - {t})
    else if s.inFlight == a.current && !spurious then
      s.(inFlight := a.current + 1, guards := s.guards + 1, attempts := s.attempts - {t})
    else s.(attempts := s.attempts[t := Counted(a.limit, s.inFlight)])
  }

  function Sampled(cfg: Config, s: State, rtt: real, inFlightAtStart: nat, queue: real): State
    requires WellFormed(cfg)
  {
    var rtt := if rtt < LEAST_RTT then LEAST_RTT else rtt;
    var long := LongRtt(s.long, rtt);
    if inFlightAtStart as real < s.estimated / 2.0 then s.(long := Some(long))
    else
      var gradient := Gradient(Tolerated(cfg, long), rtt);
      s.(long := Some(long), estimated := SampledEstimate(cfg, s.estimated, gradient, queue), publishing := true)
  }

  function Step(cfg: Config, s: State, e: Event): State
    requires WellFormed(cfg)
  {
    match e
    case ReadLimit(t) => s.(attempts := s.attempts[t := Limited(s.limit)])
    case ReadCount(t) =>
      if t in s.attempts && s.attempts[t].Limited?
      then s.(attempts := s.attempts[t := Counted(s.attempts[t].limit, s.inFlight)]) else s
    case CompareExchange(t, spurious) =>
      if t in s.attempts && s.attempts[t].Counted? then Exchanged(s, t, spurious) else s
    case DropGuard =>
      if s.guards == 0 then s
      else s.(guards := s.guards - 1, inFlight := if s.inFlight == 0 then USIZE_MAX else s.inFlight - 1)
    case Sample(rtt, inFlightAtStart, queue) =>
      if s.publishing then s else Sampled(cfg, s, rtt, inFlightAtStart, queue)
    case Failure =>
      if s.publishing then s else s.(estimated := FailedEstimate(cfg, s.estimated), publishing := true)
    case Publish =>
      if s.publishing then s.(limit := Published(cfg, s.estimated), publishing := false) else s
  }

  /** What an unsigned count becomes one below zero. */
  const USIZE_MAX: nat := 0xFFFF_FFFF_FFFF_FFFF

  function Run(cfg: Config, events: seq<Event>): State
    requires WellFormed(cfg)
  {
    if events == [] then Begin(cfg) else Step(cfg, Run(cfg, events[..|events| - 1]), events[|events| - 1])
  }

  ghost predicate Inv(cfg: Config, s: State) {
    && s.inFlight == s.guards <= cfg.most
    && cfg.least <= s.limit <= cfg.most
    && cfg.least as real <= s.estimated <= cfg.most as real
    && (forall t <- s.attempts :: s.attempts[t].limit <= cfg.most)
    && (!s.publishing ==> s.limit == Round(s.estimated))
    && (s.long.Some? ==> 0.0 < s.long.value)
  }

  /** Between two integers, rounding stays between them. */
  lemma RoundWithin(x: real, low: nat, high: nat)
    requires low as real <= x <= high as real
    ensures low <= Round(x) <= high
  {
    assert (low as real).Floor == low && (high as real).Floor == high;
  }

  lemma BackoffShrinks(cfg: Config, estimated: real)
    requires cfg.least as real <= estimated
    ensures cfg.least as real <= FailedEstimate(cfg, estimated) <= estimated
  {
  }

  lemma StepKeepsInv(cfg: Config, s: State, e: Event)
    requires WellFormed(cfg) && Inv(cfg, s)
    ensures Inv(cfg, Step(cfg, s, e))
  {
    RoundWithin(s.estimated, cfg.least, cfg.most);
    BackoffShrinks(cfg, s.estimated);
    if e.Sample? && s.long.Some? {
      LongRttMoves(s.long.value, if e.rtt < LEAST_RTT then LEAST_RTT else e.rtt);
    }
  }

  /** Under every interleaving of requests, guard drops, samples and failures, and whatever is stale: the count is the
      guards in hand and never past the maximum, limit and estimate stay between their bounds, and at rest the limit is
      the rounded estimate. */
  lemma {:induction false} EveryInterleaving(cfg: Config, events: seq<Event>)
    requires WellFormed(cfg)
    ensures Inv(cfg, Run(cfg, events))
  {
    if events == [] {
      assert Round(Begin(cfg).limit as real) == Begin(cfg).limit;
    } else {
      EveryInterleaving(cfg, events[..|events| - 1]);
      StepKeepsInv(cfg, Run(cfg, events[..|events| - 1]), events[|events| - 1]);
    }
  }

  /** A slot is taken only while the guards in hand are below the limit the request read. */
  lemma GrantedBelowItsLimit(cfg: Config, events: seq<Event>, t: nat, spurious: bool)
    requires WellFormed(cfg)
    ensures var s := Run(cfg, events);
            var u := Step(cfg, s, CompareExchange(t, spurious));
            u.guards > s.guards ==> t in s.attempts && u.guards == s.guards + 1 <= s.attempts[t].limit
  {
    EveryInterleaving(cfg, events);
  }

  /** A request alone at its three steps is granted exactly when the guards in hand are below the limit. */
  lemma UndisturbedIsGranted(cfg: Config, events: seq<Event>, t: nat)
    requires WellFormed(cfg)
    ensures var s := Run(cfg, events);
            var u := Step(cfg, Step(cfg, Step(cfg, s, ReadLimit(t)), ReadCount(t)), CompareExchange(t, false));
            && t !in u.attempts && u.limit == s.limit
            && u.guards == u.inFlight == if s.guards < s.limit then s.guards + 1 else s.guards
  {
    EveryInterleaving(cfg, events);
  }

  function Within(cfg: Config, x: real): real {
    if x < cfg.least as real then cfg.least as real else if cfg.most as real < x then cfg.most as real else x
  }

  lemma BlendedEnds(estimated: real, smoothing: real, queue: real)
    ensures Blended(estimated, smoothing, 1.0, queue) == estimated + smoothing * queue
    ensures Blended(estimated, smoothing, 0.5, queue) == estimated - smoothing * estimated / 2.0 + smoothing * queue
  {
  }

  lemma GradientEnds(tolerated: real, rtt: real)
    requires 0.0 < rtt
    ensures rtt <= tolerated ==> Gradient(tolerated, rtt) == 1.0
    ensures 2.0 * tolerated <= rtt ==> Gradient(tolerated, rtt) == 0.5
  {
    ShareOrder(tolerated, rtt, 1.0);
    ShareOrder(tolerated, rtt, 0.5);
  }

  /** A response no slower than the tolerance times the long average adds the smoothed queue; one at least twice that
      slow also takes off half the estimate, smoothed; and the estimate stays within its bounds. */
  ghost predicate MovedBy(cfg: Config, before: real, long: real, rtt: real, queue: real, after: real) {
    && (rtt <= cfg.tolerance * long ==> after == Within(cfg, before + cfg.smoothing * queue))
    && (2.0 * (cfg.tolerance * long) <= rtt ==>
          after == Within(cfg, before - cfg.smoothing * before / 2.0 + cfg.smoothing * queue))
  }

  lemma EstimateMoves(cfg: Config, estimated: real, long: real, rtt: real, queue: real)
    requires WellFormed(cfg) && 0.0 < rtt
    ensures MovedBy(cfg, estimated, long, rtt, queue,
                    SampledEstimate(cfg, estimated, Gradient(Tolerated(cfg, long), rtt), queue))
  {
    GradientEnds(Tolerated(cfg, long), rtt);
    BlendedEnds(estimated, cfg.smoothing, queue);
  }

  /** A sample by the numbers, after any run. Less than half the limit in use, it leaves the estimate and the limit;
      otherwise it moves the estimate as above, by the long average this same sample has moved. */
  lemma SampleByNumbers(cfg: Config, events: seq<Event>, rtt: real, inFlightAtStart: nat, queue: real)
    requires WellFormed(cfg) && !Run(cfg, events).publishing
    ensures var s := Run(cfg, events);
            var r := if rtt < 0.000001 then 0.000001 else rtt;
            var u := Step(cfg, s, Sample(rtt, inFlightAtStart, queue));
            && u.long.Some? && (s.long.None? ==> u.long.value == r) && u.limit == s.limit
            && if 2.0 * inFlightAtStart as real < s.estimated then u.estimated == s.estimated && !u.publishing
               else u.publishing && MovedBy(cfg, s.estimated, u.long.value, r, queue, u.estimated)
  {
    var s := Run(cfg, events);
    var r := if rtt < LEAST_RTT then LEAST_RTT else rtt;
    EstimateMoves(cfg, s.estimated, LongRtt(s.long, r), r, queue);
  }

  /** A failure takes a tenth off the estimate, down to its least; publishing rounds it to the nearest limit. */
  lemma FailureByNumbers(cfg: Config, events: seq<Event>)
    requires WellFormed(cfg) && !Run(cfg, events).publishing
    ensures var s := Run(cfg, events);
            var u := Step(cfg, s, Failure);
            var v := Step(cfg, u, Publish);
            && u.estimated == Within(cfg, s.estimated * 0.9) && v.estimated == u.estimated && !v.publishing
            && v.limit as real - 0.5 <= v.estimated < v.limit as real + 0.5
  {
    EveryInterleaving(cfg, events);
    StepKeepsInv(cfg, Run(cfg, events), Failure);
    var u := Step(cfg, Run(cfg, events), Failure);
    RoundWithin(u.estimated, cfg.least, cfg.most);
  }

  /** With the tolerance and smoothing the configuration admits, after any run a slower response never leaves a higher
      estimate than a faster one would have, the decay of the long average included. */
  lemma SlowerNeverHigher(cfg: Config, events: seq<Event>, fast: real, slow: real, inFlightAtStart: nat, queue: real)
    requires WellFormed(cfg) && 1.0 <= cfg.tolerance && 0.0 < cfg.smoothing <= 1.0
    requires fast <= slow
    ensures var s := Run(cfg, events);
            Step(cfg, s, Sample(slow, inFlightAtStart, queue)).estimated
            <= Step(cfg, s, Sample(fast, inFlightAtStart, queue)).estimated
  {
    EveryInterleaving(cfg, events);
    var s := Run(cfg, events);
    var f := if fast < LEAST_RTT then LEAST_RTT else fast;
    var w := if slow < LEAST_RTT then LEAST_RTT else slow;
    AnyGradientFalls(cfg, s.long, f, w);
    BlendedGrows(s.estimated, cfg.smoothing, GradientOf(cfg, s.long, w), GradientOf(cfg, s.long, f), queue);
  }

  // ---- Samples and failures, under the lock ----

  class AdaptiveLimit {
    const cfg: Config
    var estimated: real
    var long: Option<real>
    var limit: nat
    var inFlight: nat
    ghost var guards: nat

    /** The shared limit with no request part-way and nobody holding the lock. */
    ghost function View(): State
      reads this
    {
      State(estimated, long, false, limit, inFlight, map[], guards)
    }

    constructor (cfg: Config)
      requires WellFormed(cfg)
      ensures this.cfg == cfg && View() == Begin(cfg) && Inv(cfg, View())
    {
      this.cfg := cfg;
      var initial := ClampInt(cfg.initial, cfg.least, cfg.most);
      estimated, long, limit, inFlight, guards := initial as real, None, initial, 0, 0;
      new;
      assert Round(initial as real) == initial;
    }

    method PublishLimit()
      requires WellFormed(cfg) && cfg.least as real <= estimated <= cfg.most as real
      modifies this`limit
      ensures limit == Published(cfg, estimated) && limit as real - 0.5 <= estimated < limit as real + 0.5
    {
      var rounded := Round(estimated);
      RoundWithin(estimated, cfg.least, cfg.most);
      limit := ClampInt(rounded, cfg.least, cfg.most);
    }

    /** A completed request: moves the long average, and the estimate when the limit was at least half used. */
    method OnSample(rtt: real, inFlightAtStart: nat, queue: real)
      requires WellFormed(cfg) && Inv(cfg, View())
      modifies this
      ensures View() == Step(cfg, Step(cfg, old(View()), Sample(rtt, inFlightAtStart, queue)), Publish)
      ensures Inv(cfg, View())
    {
      StepKeepsInv(cfg, View(), Sample(rtt, inFlightAtStart, queue));
      StepKeepsInv(cfg, Step(cfg, View(), Sample(rtt, inFlightAtStart, queue)), Publish);
      var least := if rtt < LEAST_RTT then LEAST_RTT else rtt;
      var average := LongRtt(long, least);
      long := Some(average);
      if inFlightAtStart as real < estimated / 2.0 {
        return;
      }
      estimated := SampledEstimate(cfg, estimated, Gradient(Tolerated(cfg, average), least), queue);
      PublishLimit();
    }

    method OnFailure()
      requires WellFormed(cfg) && Inv(cfg, View())
      modifies this
      ensures View() == Step(cfg, Step(cfg, old(View()), Failure), Publish)
      ensures Inv(cfg, View()) && estimated <= old(estimated)
    {
      StepKeepsInv(cfg, View(), Failure);
      StepKeepsInv(cfg, Step(cfg, View(), Failure), Publish);
      BackoffShrinks(cfg, estimated);
      estimated := FailedEstimate(cfg, estimated);
      PublishLimit();
    }
  }
}
