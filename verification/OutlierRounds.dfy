/** What every round of outlier detection guarantees: how few backends it can flag, how long a flag lasts, and that the
    pool's flags follow the detector's. */
module OutlierRounds {
  import opened Options
  import opened Numbers
  import opened Deviation
  import opened Eligibility
  import opened Ejection
  import opened Outliers

  // ---- How many backends a round flags ----

  ghost function LowIn(g: Config, counts: map<string, Counts>, order: seq<string>, cut: Option<real>): set<string> {
    set id <- order | id in counts && Judged(g, counts[id]) && Low(counts[id], cut)
  }

  lemma LowSnoc(g: Config, counts: map<string, Counts>, order: seq<string>, init: seq<string>, last: string,
                cut: Option<real>)
    requires order == init + [last] && last !in init && last in counts
    ensures var was, now := LowIn(g, counts, init, cut), LowIn(g, counts, order, cut);
            last !in was && now == if Judged(g, counts[last]) && Low(counts[last], cut) then was + {last} else was
  {
  }

  lemma CountBelowSnoc(r: seq<real>, x: real, cut: real)
    ensures CountBelow(r + [x], cut) == CountBelow(r, cut) + if x < cut then 1 else 0
  {
    assert (r + [x])[..|r|] == r;
  }

  lemma {:induction false} RatesCount(g: Config, counts: map<string, Counts>, order: seq<string>, cut: real)
    requires Distinct(order) && forall id <- order :: id in counts
    ensures |LowIn(g, counts, order, Some(cut))| == CountBelow(Rates(g, counts, order), cut)
  {
    if order != [] {
      var init, last := order[..|order| - 1], order[|order| - 1];
      assert order == init + [last] && last !in init;
      RatesCount(g, counts, init, cut);
      RatesSnoc(g, counts, order, init, last);
      LowSnoc(g, counts, order, init, last, Some(cut));
      CountBelowSnoc(Rates(g, counts, init), Rate(counts[last]), cut);
    }
  }

  /** The backends this round flags. */
  ghost function FlaggedIds(g: Config, counts: map<string, Counts>, active: bool, cut: Option<real>): set<string> {
    set id <- counts | FlagsNow(g, counts[id], active, cut)
  }

  lemma FactorPositive(g: Config)
    requires g.factor > 0.0
    ensures FactorSquared(g) > 0.0
  {
    SquareGrows(0.0, g.factor);
  }

  /** A round's verdicts are its rates below the cutoff. */
  lemma FlaggedCount(g: Config, counts: map<string, Counts>, order: seq<string>, active: bool, cut: Option<real>)
    requires Lists(order, counts)
    ensures |JudgedIds(g, counts)| == |Rates(g, counts, order)|
    ensures var m := |FlaggedIds(g, counts, active, cut)|;
            m == 0 || (cut.Some? && m == CountBelow(Rates(g, counts, order), cut.value))
  {
    JudgedAreRated(g, counts, order);
    RatesCount(g, counts, order, if cut.Some? then cut.value else 0.0);
    if active && cut.Some? {
      assert FlaggedIds(g, counts, active, cut) == LowIn(g, counts, order, cut);
    } else {
      assert FlaggedIds(g, counts, active, cut) == {};
    }
  }

  lemma CountWithin(rates: seq<real>, nan: bool, cut: Option<real>, kk: real, m: nat, n: nat)
    requires kk > 0.0 && CutoffOf(cut, rates, nan, kk) && n == |rates|
    requires m == 0 || (cut.Some? && m == CountBelow(rates, cut.value))
    ensures m == 0 || m as real * (1.0 + kk) < n as real
  {
    if cut.Some? {
      CantelliBound(rates, kk, cut.value);
    }
  }

  /** A round flags nobody, or m of n judged backends with m(1 + k^2) < n. */
  lemma RoundFlagsFew(g: Config, counts: map<string, Counts>, order: seq<string>, active: bool, cut: Option<real>)
    requires g.factor > 0.0 && Lists(order, counts) && IsRoundCutoff(cut, g, counts, Rates(g, counts, order))
    ensures var m, n := |FlaggedIds(g, counts, active, cut)|, |JudgedIds(g, counts)|;
            m == 0 || m as real * (1.0 + FactorSquared(g)) < n as real
  {
    FactorPositive(g);
    FlaggedCount(g, counts, order, active, cut);
    CountWithin(Rates(g, counts, order), HasNaN(g, counts), cut, FactorSquared(g),
                |FlaggedIds(g, counts, active, cut)|, |JudgedIds(g, counts)|);
  }

  /** A positive number of copies is at least one copy, and of something above one at least the number. */
  lemma CopiesAtLeast(m: nat, c: real)
    requires m > 0 && c >= 1.0
    ensures c <= m as real * c && m as real <= m as real * c
  {
    NotNegative((m - 1) as real, c);
    NotNegative(m as real, c - 1.0);
  }

  /** However the factor is set, some judged backend is spared. */
  lemma NeverFlagsEveryone(g: Config, counts: map<string, Counts>, order: seq<string>, active: bool, cut: Option<real>)
    requires g.factor > 0.0 && Lists(order, counts) && IsRoundCutoff(cut, g, counts, Rates(g, counts, order))
    requires JudgedIds(g, counts) != {}
    ensures FlaggedIds(g, counts, active, cut) < JudgedIds(g, counts)
  {
    var flagged, judged := FlaggedIds(g, counts, active, cut), JudgedIds(g, counts);
    RoundFlagsFew(g, counts, order, active, cut);
    FactorPositive(g);
    if |flagged| > 0 {
      CopiesAtLeast(|flagged|, 1.0 + FactorSquared(g));
    }
    assert |flagged| < |judged|;
    assert flagged <= judged;
    assert flagged != judged;
  }

  /** With the default factor nobody is flagged while fewer than five backends are judged, although detection is
      active from three. */
  lemma DefaultNeedsFive(g: Config, counts: map<string, Counts>, order: seq<string>, active: bool, cut: Option<real>)
    requires g.factor == DEFAULT_FACTOR && Lists(order, counts)
    requires IsRoundCutoff(cut, g, counts, Rates(g, counts, order)) && |JudgedIds(g, counts)| < 5
    ensures FlaggedIds(g, counts, active, cut) == {}
  {
    RoundFlagsFew(g, counts, order, active, cut);
    BelowFive(|FlaggedIds(g, counts, active, cut)|, |JudgedIds(g, counts)|, FactorSquared(g));
  }

  lemma BelowFive(m: nat, n: nat, kk: real)
    requires kk == DEFAULT_FACTOR * DEFAULT_FACTOR && n < 5 && (m == 0 || m as real * (1.0 + kk) < n as real)
    ensures m == 0
  {
    if m > 0 {
      CopiesAtLeast(m, 1.0 + kk);
    }
  }

  // ---- Rounds in which backends fail everything or nothing ----

  ghost predicate AllOrNothing(g: Config, counts: map<string, Counts>) {
    forall id <- counts :: Judged(g, counts[id]) ==> FailsAll(counts[id]) || FailsNothing(counts[id])
  }

  predicate FailsAll(c: Counts) {
    0 < c.total && c.successes == 0
  }

  predicate FailsNothing(c: Counts) {
    0 < c.total && c.successes == c.total
  }

  lemma ExtremeRate(c: Counts)
    ensures FailsAll(c) ==> Rate(c) == 0.0
    ensures FailsNothing(c) ==> Rate(c) == 1.0
  {
  }

  ghost function FailingIn(g: Config, counts: map<string, Counts>, order: seq<string>): set<string> {
    set id <- order | id in counts && Judged(g, counts[id]) && FailsAll(counts[id])
  }

  lemma FailingSnoc(g: Config, counts: map<string, Counts>, order: seq<string>, init: seq<string>, last: string)
    requires order == init + [last] && last !in init && last in counts
    ensures var was, now := FailingIn(g, counts, init), FailingIn(g, counts, order);
            last !in was && now == if Judged(g, counts[last]) && FailsAll(counts[last]) then was + {last} else was
  {
  }

  lemma ZerosSnoc(r: seq<real>, x: real)
    ensures Zeros(r + [x]) == Zeros(r) + if x == 0.0 then 1 else 0
  {
    assert (r + [x])[..|r|] == r;
  }

  lemma {:induction false} RatesZeros(g: Config, counts: map<string, Counts>, order: seq<string>)
    requires Distinct(order) && (forall id <- order :: id in counts) && AllOrNothing(g, counts)
    ensures ZeroOne(Rates(g, counts, order)) && Zeros(Rates(g, counts, order)) == |FailingIn(g, counts, order)|
  {
    if order != [] {
      var init, last := order[..|order| - 1], order[|order| - 1];
      assert order == init + [last] && last !in init;
      RatesZeros(g, counts, init);
      RatesSnoc(g, counts, order, init, last);
      FailingSnoc(g, counts, order, init, last);
      assert Judged(g, counts[last]) ==> FailsAll(counts[last]) || FailsNothing(counts[last]);
      ExtremeRate(counts[last]);
      ZerosSnoc(Rates(g, counts, init), Rate(counts[last]));
    }
  }

  ghost function FailingIds(g: Config, counts: map<string, Counts>): set<string> {
    set id <- counts | Judged(g, counts[id]) && FailsAll(counts[id])
  }

  lemma AllOrNothingRates(g: Config, counts: map<string, Counts>, order: seq<string>)
    requires Lists(order, counts) && AllOrNothing(g, counts)
    ensures var rates := Rates(g, counts, order);
            && ZeroOne(rates) && Zeros(rates) == |FailingIds(g, counts)| && |rates| == |JudgedIds(g, counts)|
  {
    JudgedAreRated(g, counts, order);
    assert FailingIds(g, counts) == FailingIn(g, counts, order);
    RatesZeros(g, counts, order);
  }

  /** When m of n judged backends fail everything and the others nothing, the round flags exactly the failing ones if
      enough are judged and m(1 + k^2) < n, and nobody otherwise. */
  lemma AllOrNothingRound(g: Config, counts: map<string, Counts>, order: seq<string>, cut: Option<real>)
    requires Lists(order, counts) && IsRoundCutoff(cut, g, counts, Rates(g, counts, order)) && AllOrNothing(g, counts)
    requires {} < FailingIds(g, counts) < JudgedIds(g, counts)
    ensures var m, n := |FailingIds(g, counts)|, |JudgedIds(g, counts)|;
            FlaggedIds(g, counts, IsActive(g, counts, order), cut) ==
            if g.minHosts <= n && Few(m, n, FactorSquared(g)) then FailingIds(g, counts) else {}
  {
    SmallerSet(FailingIds(g, counts), JudgedIds(g, counts));
    AllOrNothingRates(g, counts, order);
    JudgedAreRated(g, counts, order);
    CantelliIsTight(Rates(g, counts, order), FactorSquared(g), cut.value);
    if IsActive(g, counts, order) {
      FlaggedAreFailing(g, counts, cut.value);
    }
  }

  lemma SmallerSet(a: set<string>, b: set<string>)
    requires {} < a < b
    ensures 0 < |a| < |b|
  {
    assert b == a + (b - a) && b - a != {};
  }

  lemma FlaggedAreFailing(g: Config, counts: map<string, Counts>, cut: real)
    requires AllOrNothing(g, counts) && cut <= 1.0
    ensures FlaggedIds(g, counts, true, Some(cut)) == if 0.0 < cut then FailingIds(g, counts) else {}
  {
    forall id | id in counts
      ensures FlagsNow(g, counts[id], true, Some(cut)) <==>
              0.0 < cut && Judged(g, counts[id]) && FailsAll(counts[id])
    {
      ExtremeRate(counts[id]);
    }
  }

  /** Five is exact: with the default factor one failing backend among otherwise perfect ones is flagged if and only if
      at least five are judged, and as many as detection waits for. */
  lemma DefaultFlagsFromFive(g: Config, counts: map<string, Counts>, order: seq<string>, cut: Option<real>)
    requires g.factor == DEFAULT_FACTOR && Lists(order, counts) && AllOrNothing(g, counts)
    requires IsRoundCutoff(cut, g, counts, Rates(g, counts, order))
    requires FailingIds(g, counts) < JudgedIds(g, counts) && |FailingIds(g, counts)| == 1
    ensures var n := |JudgedIds(g, counts)|;
            FlaggedIds(g, counts, IsActive(g, counts, order), cut) ==
            if 5 <= n && g.minHosts <= n then FailingIds(g, counts) else {}
  {
    assert FailingIds(g, counts) != {};
    AllOrNothingRound(g, counts, order, cut);
    FromFive(|FailingIds(g, counts)|, |JudgedIds(g, counts)|, FactorSquared(g));
  }

  lemma FromFive(m: nat, n: nat, kk: real)
    requires kk == DEFAULT_FACTOR * DEFAULT_FACTOR && m == 1
    ensures Few(m, n, kk) <==> 5 <= n
  {
  }

  // ---- How long a flag lasts ----

  /** What a backend recorded before a round, and the round. */
  datatype Round = Round(successes: nat, total: nat, active: bool, cut: Option<real>)

  predicate Idle(g: Config, r: Round) {
    !(r.active && g.minVolume <= r.total)
  }

  function AfterRounds(g: Config, c: Counts, rounds: seq<Round>): Counts {
    if rounds == [] then c
    else
      var r := rounds[|rounds| - 1];
      var was := AfterRounds(g, c, rounds[..|rounds| - 1]);
      After(g, was.(successes := r.successes, total := r.total), r.active, r.cut)
  }

  /** A flagged backend that is not judged again stays flagged for exactly its remaining ticks. */
  lemma {:induction false} FlagLastsItsTicks(g: Config, c: Counts, rounds: seq<Round>)
    requires c.flagged && 0 < c.cooldown && forall r <- rounds :: Idle(g, r)
    ensures var now := AfterRounds(g, c, rounds);
            && (now.flagged <==> |rounds| < c.cooldown)
            && now.cooldown == if |rounds| < c.cooldown then c.cooldown - |rounds| else 0
  {
    if rounds != [] {
      assert Idle(g, rounds[|rounds| - 1]);
      FlagLastsItsTicks(g, c, rounds[..|rounds| - 1]);
    }
  }

  /** So a backend flagged by a round is let back in after max(1, eject_ticks) rounds without a verdict. */
  lemma FreshFlagLasts(g: Config, c: Counts, cut: Option<real>, rounds: seq<Round>)
    requires FlagsNow(g, c, true, cut) && forall r <- rounds :: Idle(g, r)
    ensures AfterRounds(g, After(g, c, true, cut), rounds).flagged <==> |rounds| < AtLeastOne(g.ejectTicks)
  {
    FlagLastsItsTicks(g, After(g, c, true, cut), rounds);
  }

  /** Every run of rounds keeps flags and ticks together. */
  lemma {:induction false} RoundsKeepSound(g: Config, c: Counts, rounds: seq<Round>)
    requires Sound(c)
    ensures AfterRounds(g, c, rounds).flagged <==> 0 < AfterRounds(g, c, rounds).cooldown
  {
    if rounds != [] {
      RoundsKeepSound(g, c, rounds[..|rounds| - 1]);
    }
  }

  // ---- The pool follows ----

  /** The pool ejects as outliers only flagged backends, and all of them when exact. */
  ghost predicate Follows(q: seq<Status>, id: string, flagged: bool, exact: bool) {
    Find(q, id).Some? ==>
      && (Find(q, id).value.outlier ==> flagged)
      && (exact && flagged ==> Find(q, id).value.outlier)
  }

  ghost predicate PoolFollows(q: seq<Status>, counts: map<string, Counts>, exact: bool) {
    forall id <- counts :: Follows(q, id, counts[id].flagged, exact)
  }

  /** A call leaves its own backend following the told flag, and the others as they were. */
  lemma CallFollows(q: seq<Status>, id: string, value: bool, maxFraction: Option<real>, other: string, flagged: bool)
    requires other == id || Follows(q, other, flagged, maxFraction.None?)
    ensures Follows(AfterSet(q, id, Outlier, value, maxFraction), other, if other == id then value else flagged,
                    maxFraction.None?)
  {
    if Find(q, other).Some? {
      SetTakesEffect(q, id, Outlier, value, maxFraction, other);
    } else {
      FindAfterSetAt(q, id, Outlier, value, other);
    }
  }

  lemma AfterCallsSnoc(q: seq<Status>, calls: seq<Call>, c: Call, maxFraction: Option<real>)
    ensures AfterCalls(q, calls + [c], maxFraction) ==
            AfterSet(AfterCalls(q, calls, maxFraction), c.id, c.flag, c.value, maxFraction)
  {
    assert (calls + [c])[..|calls|] == calls;
  }

  lemma {:induction false} RoundFollows(q: seq<Status>, g: Config, counts: map<string, Counts>, order: seq<string>,
                                        active: bool, cut: Option<real>, maxFraction: Option<real>, id: string)
    requires Distinct(order) && (forall id <- order :: id in counts) && id in counts
    requires PoolFollows(q, counts, maxFraction.None?)
    ensures Follows(AfterCalls(q, Calls(g, counts, order, active, cut), maxFraction), id,
                    if id in order then After(g, counts[id], active, cut).flagged else counts[id].flagged,
                    maxFraction.None?)
  {
    if order != [] {
      var init, last := order[..|order| - 1], order[|order| - 1];
      var before := Calls(g, counts, init, active, cut);
      var now := if id in init then After(g, counts[id], active, cut).flagged else counts[id].flagged;
      RoundFollows(q, g, counts, init, active, cut, maxFraction, id);
      assert order == init + [last] && last !in init;
      CallsStep(g, counts, init, last, order, active, cut);
      var told := Tells(g, counts[last], active, cut);
      if told.Some? {
        AfterCallsSnoc(q, before, Call(last, Outlier, told.value), maxFraction);
        CallFollows(AfterCalls(q, before, maxFraction), last, told.value, maxFraction, id, now);
      }
    }
  }

  /** After every round the pool's outlier flags follow the detector's: exactly without an ejection ceiling, and never
      beyond them with one. */
  lemma RoundKeepsPoolFollowing(q: seq<Status>, g: Config, counts: map<string, Counts>, order: seq<string>,
                                active: bool, cut: Option<real>, maxFraction: Option<real>)
    requires Lists(order, counts) && PoolFollows(q, counts, maxFraction.None?)
    ensures PoolFollows(AfterCalls(q, Calls(g, counts, order, active, cut), maxFraction),
                        AfterRound(g, counts, active, cut), maxFraction.None?)
  {
    forall id | id in counts
      ensures Follows(AfterCalls(q, Calls(g, counts, order, active, cut), maxFraction), id,
                      After(g, counts[id], active, cut).flagged, maxFraction.None?)
    {
      RoundFollows(q, g, counts, order, active, cut, maxFraction, id);
    }
  }
}
