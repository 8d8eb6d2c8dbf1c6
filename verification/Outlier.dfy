/** Outlier detection: each round flags the judged backends whose success rate is far below the mean, and lets a flag on
    an unjudged backend run out. */
module Outliers {
  import opened Options
  import opened Numbers
  import opened Deviation
  import opened Ejection

  datatype Config = Config(minVolume: nat, minHosts: nat, factor: real, ejectTicks: nat)

  datatype Counts = Counts(successes: nat, total: nat, flagged: bool, cooldown: nat)

  const FRESH: Counts := Counts(0, 0, false, 0)

  /** The default `stddev_factor`. */
  const DEFAULT_FACTOR: real := 1.9

  predicate Judged(g: Config, c: Counts) {
    g.minVolume <= c.total
  }

  /** The success rate; not a number, and left at zero here, when nothing was recorded. */
  function Rate(c: Counts): real {
    if c.total == 0 then 0.0 else c.successes as real / c.total as real
  }

  /** The judged backends' rates, in iteration order. */
  function Rates(g: Config, counts: map<string, Counts>, order: seq<string>): seq<real>
    requires forall id <- order :: id in counts
  {
    if order == [] then []
    else
      var c := counts[order[|order| - 1]];
      var init := Rates(g, counts, order[..|order| - 1]);
      if Judged(g, c) then init + [Rate(c)] else init
  }

  /** Enough backends are judged. */
  predicate IsActive(g: Config, counts: map<string, Counts>, order: seq<string>)
    requires forall id <- order :: id in counts
  {
    g.minHosts <= |Rates(g, counts, order)|
  }

  function FactorSquared(g: Config): real {
    g.factor * g.factor
  }

  /** Some judged rate is zero over zero, which only a minimum volume of zero allows. */
  predicate HasNaN(g: Config, counts: map<string, Counts>) {
    exists id <- counts :: Judged(g, counts[id]) && counts[id].total == 0
  }

  /** The round's cutoff; none when it is not a number, so that nothing compares below it. */
  ghost predicate IsRoundCutoff(cut: Option<real>, g: Config, counts: map<string, Counts>, rates: seq<real>) {
    CutoffOf(cut, rates, HasNaN(g, counts), FactorSquared(g))
  }

  ghost predicate CutoffOf(cut: Option<real>, rates: seq<real>, nan: bool, kk: real) {
    if rates == [] || nan then cut == None else cut.Some? && IsCutoff(cut.value, rates, kk)
  }

  predicate Low(c: Counts, cut: Option<real>) {
    cut.Some? && Rate(c) < cut.value
  }

  /** Flagged by this very round. */
  predicate FlagsNow(g: Config, c: Counts, active: bool, cut: Option<real>) {
    active && Judged(g, c) && Low(c, cut)
  }

  /** What a round leaves of one backend's counts. */
  function After(g: Config, c: Counts, active: bool, cut: Option<real>): Counts {
    if active && Judged(g, c) then
      Counts(0, 0, Low(c, cut), if Low(c, cut) then AtLeastOne(g.ejectTicks) else 0)
    else if c.flagged then
      Counts(0, 0, 1 < c.cooldown, if c.cooldown == 0 then 0 else c.cooldown - 1)
    else
      c.(successes := 0, total := 0)
  }

  function AfterRound(g: Config, counts: map<string, Counts>, active: bool, cut: Option<real>): map<string, Counts> {
    map id | id in counts :: After(g, counts[id], active, cut)
  }

  /** What a round tells the pool about one backend. */
  function Tells(g: Config, c: Counts, active: bool, cut: Option<real>): Option<bool> {
    if active && Judged(g, c) then Some(Low(c, cut))
    else if c.flagged && c.cooldown <= 1 then Some(false)
    else None
  }

  function Calls(g: Config, counts: map<string, Counts>, order: seq<string>, active: bool, cut: Option<real>): seq<Call>
    requires forall id <- order :: id in counts
  {
    if order == [] then []
    else
      var id, init := order[|order| - 1], Calls(g, counts, order[..|order| - 1], active, cut);
      match Tells(g, counts[id], active, cut)
      case None => init
      case Some(flagged) => init + [Call(id, Outlier, flagged)]
  }

  ghost predicate Distinct(order: seq<string>) {
    forall i, j :: 0 <= i < j < |order| ==> order[i] != order[j]
  }

  /** The ids in some iteration order. */
  ghost predicate Lists(order: seq<string>, counts: map<string, Counts>) {
    Distinct(order) && (forall id <- order :: id in counts) && (forall id <- counts :: id in order)
  }

  ghost predicate IsSqrt(sqrt: real -> real) {
    forall x :: x >= 0.0 ==> sqrt(x) >= 0.0 && sqrt(x) * sqrt(x) == x
  }

  function Zeroed(taken: map<string, Counts>): map<string, Counts> {
    map id | id in taken :: taken[id].(successes := 0, total := 0)
  }

  /** The counts part-way through a round. */
  ghost predicate IsProgress(now: map<string, Counts>, g: Config, taken: map<string, Counts>, done: seq<string>,
                             active: bool, cut: Option<real>)
  {
    && now.Keys == taken.Keys
    && forall id <- taken ::
         now[id] == if id in done then After(g, taken[id], active, cut) else Zeroed(taken)[id]
  }

  lemma ProgressStep(now: map<string, Counts>, g: Config, taken: map<string, Counts>, done: seq<string>, id: string,
                     more: seq<string>, active: bool, cut: Option<real>)
    requires IsProgress(now, g, taken, done, active, cut) && id in taken && more == done + [id]
    ensures IsProgress(now[id := After(g, taken[id], active, cut)], g, taken, more, active, cut)
  {
  }

  lemma ProgressDone(now: map<string, Counts>, g: Config, taken: map<string, Counts>, order: seq<string>,
                     active: bool, cut: Option<real>)
    requires IsProgress(now, g, taken, order, active, cut) && Lists(order, taken)
    ensures now == AfterRound(g, taken, active, cut)
  {
  }

  lemma CallsStep(g: Config, taken: map<string, Counts>, done: seq<string>, id: string, more: seq<string>,
                  active: bool, cut: Option<real>)
    requires id in taken && (forall id <- done :: id in taken) && more == done + [id]
    ensures (forall id <- more :: id in taken)
    ensures var told := Tells(g, taken[id], active, cut);
            Calls(g, taken, more, active, cut) ==
            if told.Some? then Calls(g, taken, done, active, cut) + [Call(id, Outlier, told.value)]
            else Calls(g, taken, done, active, cut)
  {
    assert more[..|more| - 1] == done && more[|more| - 1] == id;
  }

  // ---- A round by the numbers ----

  /** The backends with enough traffic to be judged. */
  ghost function JudgedIds(g: Config, counts: map<string, Counts>): set<string> {
    set id <- counts | g.minVolume <= counts[id].total
  }

  ghost function JudgedIn(g: Config, counts: map<string, Counts>, order: seq<string>): set<string> {
    set id <- order | id in counts && Judged(g, counts[id])
  }

  lemma RatesSnoc(g: Config, counts: map<string, Counts>, order: seq<string>, init: seq<string>, last: string)
    requires order == init + [last] && last !in init && (forall id <- init :: id in counts) && last in counts
    ensures (forall id <- order :: id in counts)
    ensures var rates, c := Rates(g, counts, init), counts[last];
            Rates(g, counts, order) == if Judged(g, c) then rates + [Rate(c)] else rates
  {
    assert order[..|order| - 1] == init && order[|order| - 1] == last;
  }

  lemma JudgedSnoc(g: Config, counts: map<string, Counts>, order: seq<string>, init: seq<string>, last: string)
    requires order == init + [last] && last !in init && last in counts
    ensures var was, now := JudgedIn(g, counts, init), JudgedIn(g, counts, order);
            last !in was && now == if Judged(g, counts[last]) then was + {last} else was
  {
  }

  lemma {:induction false} JudgedCount(g: Config, counts: map<string, Counts>, order: seq<string>)
    requires Distinct(order) && forall id <- order :: id in counts
    ensures |JudgedIn(g, counts, order)| == |Rates(g, counts, order)|
  {
    if order != [] {
      var init, last := order[..|order| - 1], order[|order| - 1];
      assert order == init + [last] && last !in init;
      JudgedCount(g, counts, init);
      RatesSnoc(g, counts, order, init, last);
      JudgedSnoc(g, counts, order, init, last);
    }
  }

  /** One rate for each judged backend; so a round is active exactly when at least `min_hosts` are judged. */
  lemma JudgedAreRated(g: Config, counts: map<string, Counts>, order: seq<string>)
    requires Lists(order, counts)
    ensures |Rates(g, counts, order)| == |JudgedIds(g, counts)|
    ensures IsActive(g, counts, order) <==> g.minHosts <= |JudgedIds(g, counts)|
  {
    JudgedCount(g, counts, order);
    assert JudgedIds(g, counts) == JudgedIn(g, counts, order);
  }

  predicate FallsShort(c: Counts, share: real) {
    c.successes as real < share * c.total as real
  }

  /** What a round makes of one backend. With enough judged, a judged one is flagged exactly when its successes fall
      short of the cutoff's share of its outcomes, for as many rounds as configured; any other flag loses a tick and
      goes with the last, and nobody is newly flagged. Counting starts again. */
  ghost predicate Verdict(g: Config, judged: nat, c: Counts, cut: Option<real>, after: Counts) {
    && after.successes == after.total == 0
    && if g.minHosts <= judged && g.minVolume <= c.total then
         && (after.flagged <==> cut.Some? && FallsShort(c, cut.value))
         && after.cooldown == (if after.flagged then AtLeastOne(g.ejectTicks) else 0)
       else
         && (after.flagged <==> c.flagged && 1 < c.cooldown)
         && (c.flagged ==> after.cooldown == if c.cooldown == 0 then 0 else c.cooldown - 1)
         && (!c.flagged ==> after.cooldown == c.cooldown)
  }

  lemma LowByNumbers(c: Counts, cut: real)
    requires 0 < c.total
    ensures Low(c, Some(cut)) <==> FallsShort(c, cut)
  {
    var x, t := c.successes as real, c.total as real;
    var q := x / t;
    assert q * t == x;
    if q < cut {
      assert (cut - q) * t > 0.0;
    } else {
      assert (q - cut) * t >= 0.0;
    }
  }

  lemma VerdictIs(g: Config, judged: nat, c: Counts, active: bool, cut: Option<real>)
    requires active <==> g.minHosts <= judged
    requires Judged(g, c) && cut.Some? ==> 0 < c.total
    ensures Verdict(g, judged, c, cut, After(g, c, active, cut))
  {
    if Judged(g, c) && cut.Some? {
      LowByNumbers(c, cut.value);
    }
  }

  lemma RoundByNumbers(g: Config, counts: map<string, Counts>, order: seq<string>, cut: Option<real>, id: string)
    requires Lists(order, counts) && id in counts && IsRoundCutoff(cut, g, counts, Rates(g, counts, order))
    ensures Verdict(g, |JudgedIds(g, counts)|, counts[id], cut,
                    AfterRound(g, counts, IsActive(g, counts, order), cut)[id])
  {
    JudgedAreRated(g, counts, order);
    VerdictIs(g, |JudgedIds(g, counts)|, counts[id], IsActive(g, counts, order), cut);
  }

  // ---- The detector ----

  class OutlierDetector {
    const g: Config
    var counts: map<string, Counts>

    ghost predicate Valid()
      reads this
    {
      g.factor > 0.0 && forall id <- counts :: Sound(counts[id])
    }

    constructor (ids: set<string>, g: Config)
      requires g.factor > 0.0
      ensures Valid() && this.g == g && counts == map id | id in ids :: FRESH
    {
      this.g := g;
      counts := map id | id in ids :: FRESH;
    }

    method RecordOutcome(id: string, success: bool)
      requires Valid()
      modifies this
      ensures Valid() && counts.Keys == old(counts).Keys
      ensures forall other <- counts :: other != id ==> counts[other] == old(counts)[other]
      ensures id in counts ==>
                var was := old(counts)[id];
                counts[id] ==
                was.(total := was.total + 1, successes := if success then was.successes + 1 else was.successes)
    {
      if id in counts {
        var c := counts[id].(total := counts[id].total + 1);
        if success {
          c := c.(successes := c.successes + 1);
        }
        counts := counts[id := c];
      }
    }

    /** Keeps what is known of the live backends and starts the others afresh. */
    method Reconcile(live: set<string>)
      requires Valid()
      modifies this
      ensures Valid() && counts.Keys == live
      ensures forall id <- live :: counts[id] == if id in old(counts) then old(counts)[id] else FRESH
    {
      counts := map id | id in live :: if id in counts then counts[id] else FRESH;
    }

    /** The round's verdict on one backend, whose counters were `taken`. */
    method Settle(id: string, taken: Counts, active: bool, cut: Option<real>) returns (told: Option<bool>)
      requires id in counts && counts[id] == taken.(successes := 0, total := 0)
      modifies this`counts
      ensures counts == old(counts)[id := After(g, taken, active, cut)] && told == Tells(g, taken, active, cut)
    {
      var c := counts[id];
      told := None;
      if active && g.minVolume <= taken.total {
        var flagged := Low(taken, cut);
        c := c.(flagged := flagged, cooldown := if flagged then AtLeastOne(g.ejectTicks) else 0);
        told := Some(flagged);
      } else if c.flagged {
        var before := c.cooldown;
        c := c.(cooldown := if before == 0 then 0 else before - 1);
        if before <= 1 {
          c := c.(flagged := false);
          told := Some(false);
        }
      }
      counts := counts[id := c];
    }

    /** The i-th backend of the iteration: its verdict, and what the pool is told. */
    method SettleAt(taken: map<string, Counts>, order: seq<string>, i: nat, active: bool, cut: Option<real>)
      returns (told: seq<Call>)
      requires i < |order| && Lists(order, taken) && IsProgress(counts, g, taken, order[..i], active, cut)
      modifies this`counts
      ensures IsProgress(counts, g, taken, order[..i + 1], active, cut)
      ensures Calls(g, taken, order[..i + 1], active, cut) == Calls(g, taken, order[..i], active, cut) + told
    {
      var id := order[i];
      ghost var done, more, before := order[..i], order[..i + 1], counts;
      assert more == done + [id] && id !in done;
      CallsStep(g, taken, done, id, more, active, cut);
      ProgressStep(before, g, taken, done, id, more, active, cut);
      var flagged := Settle(id, taken[id], active, cut);
      told := if flagged.Some? then [Call(id, Outlier, flagged.value)] else [];
    }

    method SettleAll(taken: map<string, Counts>, order: seq<string>, active: bool, cut: Option<real>)
      returns (calls: seq<Call>)
      requires Lists(order, taken) && IsProgress(counts, g, taken, [], active, cut)
      modifies this`counts
      ensures counts == AfterRound(g, taken, active, cut)
      ensures calls == Calls(g, taken, order, active, cut)
    {
      calls := [];
      for i := 0 to |order|
        invariant calls == Calls(g, taken, order[..i], active, cut)
        invariant IsProgress(counts, g, taken, order[..i], active, cut)
      {
        var told := SettleAt(taken, order, i, active, cut);
        calls := calls + told;
      }
      assert order[..|order|] == order;
      ProgressDone(counts, g, taken, order, active, cut);
    }

    /** One round, in the iteration order of the map; the calls are those made on the pool. */
    method Recompute(order: seq<string>, sqrt: real -> real) returns (calls: seq<Call>, ghost cut: Option<real>)
      requires Valid() && Lists(order, counts) && IsSqrt(sqrt)
      modifies this
      ensures Valid()
      ensures var active := IsActive(g, old(counts), order);
              && IsRoundCutoff(cut, g, old(counts), Rates(g, old(counts), order))
              && calls == Calls(g, old(counts), order, active, cut)
              && counts == AfterRound(g, old(counts), active, cut)
      ensures forall id <- counts :: Verdict(g, |JudgedIds(g, old(counts))|, old(counts)[id], cut, counts[id])
    {
      var taken := counts;
      counts := Zeroed(taken);
      var cutoff := RoundCutoff(g, taken, Rates(g, taken, order), sqrt);
      cut := cutoff;
      calls := SettleAll(taken, order, IsActive(g, taken, order), cutoff);
      forall id | id in taken ensures Verdict(g, |JudgedIds(g, taken)|, taken[id], cut, counts[id]) {
        RoundByNumbers(g, taken, order, cut, id);
      }
    }
  }

  /** No more successes than outcomes, and a flag exactly while ticks remain. */
  ghost predicate Sound(c: Counts) {
    c.successes <= c.total && (c.flagged <==> 0 < c.cooldown)
  }

  lemma {:induction false} SquaresNotNegative(r: seq<real>, at: real)
    ensures Total(SquareFrom(at), r) >= 0.0
  {
    if r != [] {
      SquaresNotNegative(r[..|r| - 1], at);
      SquareNotNegative(r[|r| - 1] - at);
    }
  }

  lemma AverageNotNegative(x: real, n: real)
    requires x >= 0.0 && n > 0.0
    ensures x / n >= 0.0
  {
  }

  lemma DeviationsSquared(k: real, s: real, v: real, t: real, kk: real)
    requires k > 0.0 && s >= 0.0 && s * s == v && t == k * s && kk == k * k
    ensures IsDeviations(t, kk, v)
  {
    NotNegative(k, s);
    calc {
      t * t;
      k * s * (k * s);
      { SquareOfProduct(k, s); }
      k * (k * (s * s));
      { SameProduct(k, s * s, v); SameProduct(k, k * (s * s), k * v); }
      k * (k * v);
      k * k * v;
      { SameProduct(v, kk, k * k); }
      kk * v;
    }
  }

  /** The mean less `factor` standard deviations. */
  method RoundCutoff(g: Config, counts: map<string, Counts>, rates: seq<real>, sqrt: real -> real)
    returns (cut: Option<real>)
    requires g.factor > 0.0 && IsSqrt(sqrt)
    ensures IsRoundCutoff(cut, g, counts, rates)
  {
    if rates == [] || HasNaN(g, counts) {
      cut := None;
    } else {
      var value := MeanLess(rates, g.factor, FactorSquared(g), sqrt);
      cut := Some(value);
    }
  }

  method MeanLess(rates: seq<real>, factor: real, ghost kk: real, sqrt: real -> real) returns (cut: real)
    requires rates != [] && factor > 0.0 && kk == factor * factor && IsSqrt(sqrt)
    ensures IsCutoff(cut, rates, kk)
  {
    var n := |rates| as real;
    var sum := Sum(rates);
    var mean := sum / n;
    var squares := Total(SquareFrom(mean), rates);
    var variance := squares / n;
    var stddev := sqrt(variance);
    var t := factor * stddev;
    cut := mean - t;
    SquaresNotNegative(rates, mean);
    AverageNotNegative(squares, n);
    MeanAndVariance(rates, n, sum, squares, mean, variance);
    DeviationsSquared(factor, stddev, variance, t, kk);
    assert AreDistances(Shifted(rates, mean), n, variance) && IsDeviations(t, kk, variance);
  }
}
