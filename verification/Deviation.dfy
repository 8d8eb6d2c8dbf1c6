/** Mean, variance and the one-sided Chebyshev (Cantelli) bound on how many values can lie k standard deviations below
    their mean. */
module Deviation {

  /** Sum of f over the values. */
  function Total(f: real -> real, r: seq<real>): real {
    if r == [] then 0.0 else Total(f, r[..|r| - 1]) + f(r[|r| - 1])
  }

  function Itself(): real -> real {
    x => x
  }

  function SquareFrom(at: real): real -> real {
    x => (x - at) * (x - at)
  }

  function Sum(r: seq<real>): real {
    Total(Itself(), r)
  }

  /** The number of values, as a real. */
  function Size(r: seq<real>): real {
    if r == [] then 0.0 else Size(r[..|r| - 1]) + 1.0
  }

  function Square(): real -> real {
    x => x * x
  }

  /** Distances of the values from a point. */
  function Shifted(r: seq<real>, at: real): (d: seq<real>)
    ensures |d| == |r|
  {
    if r == [] then [] else Shifted(r[..|r| - 1], at) + [r[|r| - 1] - at]
  }

  /** d are the distances of n values from their mean, and v is their variance: the distances cancel out, and their
      squares make n v. */
  predicate AreDistances(d: seq<real>, n: real, v: real) {
    Size(d) == n && Sum(d) == 0.0 && Total(Square(), d) == n * v
  }

  /** t is k standard deviations, where v is the variance and kk is k squared. */
  predicate IsDeviations(t: real, kk: real, v: real) {
    t >= 0.0 && t * t == kk * v
  }

  /** cut lies k standard deviations below the mean of the values. */
  ghost predicate IsCutoff(cut: real, r: seq<real>, kk: real) {
    exists at, n, v, t :: AreDistances(Shifted(r, at), n, v) && IsDeviations(t, kk, v) && cut == at - t
  }

  function CountBelow(r: seq<real>, cut: real): nat {
    if r == [] then 0 else CountBelow(r[..|r| - 1], cut) + if r[|r| - 1] < cut then 1 else 0
  }

  // ---- Products ----

  lemma Distribute(a: real, x: real, y: real)
    ensures a * (x + y) == a * x + a * y && (x + y) * a == x * a + y * a
  {
  }

  lemma SameProduct(a: real, x: real, y: real)
    requires x == y
    ensures a * x == a * y
  {
  }

  lemma Positive(x: real, y: real)
    requires x > 0.0 && y > 0.0
    ensures x * y > 0.0
  {
  }

  lemma NotNegative(x: real, y: real)
    requires x >= 0.0 && y >= 0.0
    ensures x * y >= 0.0
  {
  }

  lemma SquareNotNegative(x: real)
    ensures x * x >= 0.0
  {
  }

  lemma SquareGrows(a: real, b: real)
    requires 0.0 <= a < b
    ensures a * a < b * b
  {
    var d := b - a;
    Positive(d, d);
    NotNegative(a, d);
    assert b == a + d;
    assert b * b == a * a + 2.0 * (a * d) + d * d;
  }

  lemma SquareOfProduct(c: real, s: real)
    ensures c * s * (c * s) == c * (c * (s * s))
  {
  }

  lemma ScaleOrder(c: real, a: real, b: real)
    requires c > 0.0
    ensures c * a < c * b <==> a < b
  {
    if a < b {
      Positive(c, b - a);
    } else {
      NotNegative(c, a - b);
    }
  }

  // ---- Totals ----

  lemma {:induction false} SizeIsLength(r: seq<real>)
    ensures Size(r) == |r| as real
  {
    if r != [] {
      SizeIsLength(r[..|r| - 1]);
    }
  }

  /** The total of a quadratic, from the totals of its terms. */
  lemma {:induction false} TotalCombines(h: real -> real, f: real -> real, g: real -> real, r: seq<real>, a: real,
                                         b: real, c: real)
    requires forall x :: h(x) == a * f(x) + b * g(x) + c
    ensures Total(h, r) == a * Total(f, r) + b * Total(g, r) + Size(r) * c
  {
    if r != [] {
      var q, x := r[..|r| - 1], r[|r| - 1];
      TotalCombines(h, f, g, q, a, b, c);
      Distribute(a, Total(f, q), f(x));
      Distribute(b, Total(g, q), g(x));
      Distribute(c, Size(q), 1.0);
    }
  }

  /** n copies of u, added up. */
  function Times(n: nat, u: real): real {
    if n == 0 then 0.0 else Times(n - 1, u) + u
  }

  lemma {:induction false} TimesIsProduct(n: nat, u: real)
    ensures Times(n, u) == n as real * u
  {
    if n > 0 {
      TimesIsProduct(n - 1, u);
      Distribute(u, (n - 1) as real, 1.0);
    }
  }

  /** A non-negative function above u on every low value totals above u times their number. */
  lemma {:induction false} LowValuesWeigh(h: real -> real, r: seq<real>, cut: real, u: real)
    requires forall x :: h(x) >= 0.0
    requires forall x :: x < cut ==> h(x) > u
    ensures var m := CountBelow(r, cut); Times(m, u) <= Total(h, r) && (m > 0 ==> Times(m, u) < Total(h, r))
  {
    if r != [] {
      LowValuesWeigh(h, r[..|r| - 1], cut, u);
    }
  }

  // ---- Distances from the mean ----

  lemma {:induction false} ShiftedTotals(r: seq<real>, at: real)
    ensures Sum(Shifted(r, at)) == Sum(r) - Times(|r|, at)
    ensures Total(Square(), Shifted(r, at)) == Total(SquareFrom(at), r)
  {
    if r != [] {
      var q, d := r[..|r| - 1], Shifted(r, at);
      ShiftedTotals(q, at);
      assert d[..|d| - 1] == Shifted(q, at);
      assert Square()(r[|r| - 1] - at) == SquareFrom(at)(r[|r| - 1]);
    }
  }

  lemma {:induction false} ShiftedBelow(r: seq<real>, at: real, cut: real)
    ensures CountBelow(Shifted(r, at), cut - at) == CountBelow(r, cut)
  {
    if r != [] {
      var d := Shifted(r, at);
      ShiftedBelow(r[..|r| - 1], at, cut);
      assert d[..|d| - 1] == Shifted(r[..|r| - 1], at);
    }
  }

  /** Sum over count is the mean, and the mean of the squares is the variance. */
  lemma MeanAndVariance(r: seq<real>, n: real, sum: real, squares: real, at: real, v: real)
    requires n == |r| as real > 0.0 && sum == Sum(r) && squares == Total(SquareFrom(at), r)
    requires at == sum / n && v == squares / n
    ensures AreDistances(Shifted(r, at), n, v)
  {
    Quotients(sum, squares, n, at, v);
    ShiftedTotals(r, at);
    TimesIsProduct(|r|, at);
    SizeIsLength(Shifted(r, at));
  }

  lemma Quotients(sum: real, squares: real, n: real, at: real, v: real)
    requires n > 0.0 && at == sum / n && v == squares / n
    ensures sum == n * at && squares == n * v
  {
  }

  // ---- Cantelli's bound ----

  lemma CompleteSquare(a: real, b: real, d: real, t: real, v: real, e: real, h: real)
    requires t * t == a * v && b == -2.0 * t && e == d * d && h == a * e + b * d + v
    ensures (t - a * d) * (t - a * d) == a * h
  {
    calc {
      (t - a * d) * (t - a * d);
      t * t + (-2.0 * t) * (a * d) + a * (a * (d * d));
      { SameProduct(a, e, d * d); SameProduct(a, a * e, a * (d * d)); SameProduct(a * d, b, -2.0 * t); }
      a * v + b * (a * d) + a * (a * e);
      a * (a * e + b * d + v);
      { SameProduct(a, h, a * e + b * d + v); }
      a * h;
    }
  }

  lemma LowPoint(a: real, d: real, t: real, c: real)
    requires a > 0.0 && t >= 0.0 && d < -t && c == a + 1.0
    ensures 0.0 <= c * t < t - a * d
  {
    Positive(a, -d - t);
    NotNegative(a, t);
    assert a * (-d - t) == -(a * d) - a * t;
    assert c * t == a * t + t;
  }

  lemma PullOut(a: real, c: real, v: real, tt: real)
    requires tt == a * v
    ensures c * (c * tt) == a * (c * (c * v))
  {
    SameProduct(c, tt, a * v);
    SameProduct(c, c * tt, c * (a * v));
  }

  lemma LowSquare(a: real, d: real, t: real, c: real)
    requires a > 0.0 && t >= 0.0 && c == a + 1.0 && d < -t
    ensures c * (c * (t * t)) < (t - a * d) * (t - a * d)
  {
    LowPoint(a, d, t, c);
    SquareGrows(c * t, t - a * d);
    SquareOfProduct(c, t);
  }

  lemma LowAbove(a: real, v: real, c: real, u: real, h: real, tt: real, square: real)
    requires a > 0.0 && tt == a * v && u == c * (c * v) && c * (c * tt) < square && square == a * h
    ensures h > u
  {
    PullOut(a, c, v, tt);
    SameProduct(a, u, c * (c * v));
    ScaleOrder(a, u, h);
  }

  lemma SignOf(a: real, h: real)
    requires a > 0.0 && a * h >= 0.0
    ensures h >= 0.0
  {
    if h < 0.0 {
      Positive(a, -h);
    }
  }

  /** The weight is never negative, and above u on distances below -t. */
  lemma WeightAbove(a: real, b: real, d: real, t: real, v: real, c: real, u: real, e: real, h: real)
    requires a > 0.0 && b == -2.0 * t && t >= 0.0 && t * t == a * v && c == a + 1.0 && u == c * (c * v)
    requires e == d * d && h == a * e + b * d + v
    ensures h >= 0.0 && (d < -t ==> h > u)
  {
    var square := (t - a * d) * (t - a * d);
    CompleteSquare(a, b, d, t, v, e, h);
    SquareNotNegative(t - a * d);
    SignOf(a, h);
    if d < -t {
      LowSquare(a, d, t, c);
      LowAbove(a, v, c, u, h, t * t, square);
    }
  }

  lemma WeightTotal(total: real, a: real, squares: real, b: real, sum: real, n: real, v: real, w: real)
    requires total == a * squares + b * sum + n * v && squares == n * v && sum == 0.0 && w == (a + 1.0) * v
    ensures total == n * w
  {
  }

  lemma Cancel(m: real, n: real, c: real, w: real, u: real, total: real, low: real)
    requires w >= 0.0 && u == c * w && total == n * w && low == m * u && low < total
    ensures m * c < n
  {
    var e := m * c - n;
    SameProduct(m, u, c * w);
    calc {
      e * w;
      m * (c * w) - n * w;
      low - total;
    }
    if e >= 0.0 {
      NotNegative(e, w);
    }
  }

  lemma CancelTimes(m: nat, n: real, c: real, w: real, u: real, total: real)
    requires w >= 0.0 && u == c * w && total == n * w && Times(m, u) < total
    ensures Times(m, c) < n
  {
    TimesIsProduct(m, u);
    TimesIsProduct(m, c);
    Cancel(m as real, n, c, w, u, total, Times(m, u));
  }

  lemma CombinedTotal(h: real -> real, f: real -> real, g: real -> real, d: seq<real>, a: real, b: real, v: real,
                      n: real, th: real, tf: real, tg: real)
    requires forall x :: h(x) == a * f(x) + b * g(x) + v
    requires Total(h, d) == th && Total(f, d) == tf && Total(g, d) == tg && Size(d) == n
    ensures th == a * tf + b * tg + n * v
  {
    TotalCombines(h, f, g, d, a, b, v);
  }

  lemma WeighedBound(h: real -> real, d: seq<real>, cut: real, n: real, c: real, w: real, u: real, th: real, m: nat)
    requires forall x :: h(x) >= 0.0
    requires forall x :: x < cut ==> h(x) > u
    requires Total(h, d) == th && CountBelow(d, cut) == m > 0
    requires w >= 0.0 && u == c * w && th == n * w
    ensures Times(m, c) < n
  {
    LowValuesWeigh(h, d, cut, u);
    CancelTimes(m, n, c, w, u, th);
  }

  lemma DistancesTotal(h: real -> real, f: real -> real, g: real -> real, d: seq<real>, a: real, b: real, v: real,
                       n: real, w: real, th: real, tf: real, tg: real)
    requires forall x :: h(x) == a * f(x) + b * g(x) + v
    requires Total(h, d) == th && Total(f, d) == tf && Total(g, d) == tg && Size(d) == n
    requires tf == n * v && tg == 0.0 && w == (a + 1.0) * v
    ensures th == n * w
  {
    CombinedTotal(h, f, g, d, a, b, v, n, th, tf, tg);
    WeightTotal(th, a, tf, b, tg, n, v, w);
  }

  lemma VarianceNotNegative(a: real, v: real, t: real, c: real, w: real)
    requires a > 0.0 && t * t == a * v && c == a + 1.0 && w == c * v
    ensures w >= 0.0
  {
    SquareNotNegative(t);
    SignOf(a, v);
    NotNegative(c, v);
  }

  lemma WeightFacts(h: real -> real, f: real -> real, g: real -> real, a: real, b: real, t: real, v: real, c: real,
                    u: real)
    requires a > 0.0 && b == -2.0 * t && t >= 0.0 && t * t == a * v && c == a + 1.0 && u == c * (c * v)
    requires forall x :: h(x) == a * f(x) + b * g(x) + v
    requires forall x :: f(x) == x * x
    requires forall x :: g(x) == x
    ensures forall x :: h(x) >= 0.0
    ensures forall x :: x < -t ==> h(x) > u
  {
    forall x
      ensures h(x) >= 0.0 && (x < -t ==> h(x) > u)
    {
      SameProduct(b, g(x), x);
      WeightAbove(a, b, x, t, v, c, u, f(x), h(x));
    }
  }

  lemma QuadraticBound(h: real -> real, f: real -> real, g: real -> real, d: seq<real>, cut: real, a: real, b: real,
                       v: real, n: real, c: real, w: real, u: real, m: nat, tf: real, tg: real)
    requires forall x :: h(x) == a * f(x) + b * g(x) + v
    requires forall x :: h(x) >= 0.0
    requires forall x :: x < cut ==> h(x) > u
    requires Total(f, d) == tf && Total(g, d) == tg && Size(d) == n && CountBelow(d, cut) == m > 0
    requires tf == n * v && tg == 0.0 && w == (a + 1.0) * v && w >= 0.0 && u == c * w
    ensures Times(m, c) < n
  {
    DistancesTotal(h, f, g, d, a, b, v, n, w, Total(h, d), tf, tg);
    WeighedBound(h, d, cut, n, c, w, u, Total(h, d), m);
  }

  lemma Quadratic(f: real -> real, g: real -> real, a: real, b: real, v: real) returns (h: real -> real)
    ensures forall x :: h(x) == a * f(x) + b * g(x) + v
  {
    h := x => a * f(x) + b * g(x) + v;
  }

  lemma ChooseWeight(f: real -> real, g: real -> real, a: real, t: real, v: real, c: real)
    returns (h: real -> real, b: real, w: real, u: real)
    requires a > 0.0 && t >= 0.0 && t * t == a * v && c == a + 1.0
    requires forall x :: f(x) == x * x
    requires forall x :: g(x) == x
    ensures forall x :: h(x) == a * f(x) + b * g(x) + v
    ensures forall x :: h(x) >= 0.0
    ensures forall x :: x < -t ==> h(x) > u
    ensures w == (a + 1.0) * v && w >= 0.0 && u == c * w
  {
    b, w, u := -2.0 * t, (a + 1.0) * v, c * (c * v);
    h := Quadratic(f, g, a, b, v);
    WeightFacts(h, f, g, a, b, t, v, c, u);
    VarianceNotNegative(a, v, t, c, w);
    SameProduct(c, w, c * v);
  }

  /** The bound for distances about a mean, with t^2 = a v. */
  lemma ScaledBound(f: real -> real, g: real -> real, d: seq<real>, a: real, t: real, v: real, n: real, c: real, m: nat,
                    tf: real, tg: real)
    requires a > 0.0 && t >= 0.0 && t * t == a * v && c == a + 1.0
    requires forall x :: f(x) == x * x
    requires forall x :: g(x) == x
    requires Total(f, d) == tf && Total(g, d) == tg && Size(d) == n && CountBelow(d, -t) == m > 0
    requires tf == n * v && tg == 0.0
    ensures Times(m, c) < n
  {
    var h, b, w, u := ChooseWeight(f, g, a, t, v, c);
    QuadraticBound(h, f, g, d, -t, a, b, v, n, c, w, u, m, tf, tg);
  }

  lemma CantelliTimes(r: seq<real>, kk: real, cut: real)
    requires kk > 0.0 && IsCutoff(cut, r, kk)
    ensures CountBelow(r, cut) == 0 || Times(CountBelow(r, cut), kk + 1.0) < |r| as real
  {
    var at, n, v, t :| AreDistances(Shifted(r, at), n, v) && IsDeviations(t, kk, v) && cut == at - t;
    var d := Shifted(r, at);
    SizeIsLength(d);
    ShiftedBelow(r, at, cut);
    if CountBelow(r, cut) > 0 {
      ScaledBound(Square(), Itself(), d, kk, t, v, n, kk + 1.0, CountBelow(r, cut), n * v, 0.0);
    }
  }

  /** With k > 0, either no value is more than k standard deviations below the mean or m are, with m(1 + k^2) < n. */
  lemma CantelliBound(r: seq<real>, kk: real, cut: real)
    requires kk > 0.0 && IsCutoff(cut, r, kk)
    ensures CountBelow(r, cut) == 0 || CountBelow(r, cut) as real * (1.0 + kk) < |r| as real
  {
    CantelliTimes(r, kk, cut);
    TimesIsProduct(CountBelow(r, cut), 1.0 + kk);
  }

  // ---- The bound is tight ----

  /** m(1 + k^2) < n. */
  predicate Few(m: nat, n: nat, kk: real) {
    m as real * (1.0 + kk) < n as real
  }

  /** Every value is zero or one. */
  predicate ZeroOne(r: seq<real>) {
    forall i :: 0 <= i < |r| ==> r[i] == 0.0 || r[i] == 1.0
  }

  function Zeros(r: seq<real>): (n: nat)
    ensures n <= |r|
  {
    if r == [] then 0 else Zeros(r[..|r| - 1]) + if r[|r| - 1] == 0.0 then 1 else 0
  }

  /** Totals over the distances of zeros and ones from a point. */
  lemma {:induction false} ZeroOneTotal(f: real -> real, r: seq<real>, at: real)
    requires ZeroOne(r)
    ensures Total(f, Shifted(r, at)) == Times(Zeros(r), f(0.0 - at)) + Times(|r| - Zeros(r), f(1.0 - at))
  {
    if r != [] {
      var q, d := r[..|r| - 1], Shifted(r, at);
      ZeroOneTotal(f, q, at);
      assert d[..|d| - 1] == Shifted(q, at);
    }
  }

  lemma {:induction false} ZeroOneBelow(r: seq<real>, cut: real)
    requires ZeroOne(r) && cut <= 1.0
    ensures CountBelow(r, cut) == if 0.0 < cut then Zeros(r) else 0
  {
    if r != [] {
      ZeroOneBelow(r[..|r| - 1], cut);
    }
  }

  /** Zeros and ones have one mean and one variance. */
  lemma GroupMoments(r: seq<real>, at: real, n: real, v: real, p: real, q: real, nv: real, m: nat)
    requires ZeroOne(r) && m == Zeros(r) && AreDistances(Shifted(r, at), n, v)
    requires p == Square()(0.0 - at) && q == Square()(1.0 - at) && nv == n * v
    ensures n == |r| as real && Times(m, 0.0 - at) + Times(|r| - m, 1.0 - at) == 0.0
    ensures Times(m, p) + Times(|r| - m, q) == nv
  {
    SizeIsLength(Shifted(r, at));
    ZeroOneTotal(Itself(), r, at);
    ZeroOneTotal(Square(), r, at);
  }

  lemma ScalarMoments(low: nat, high: nat, at: real, n: real, nv: real, p: real, q: real, m: real)
    requires n == (low + high) as real && Times(low, -at) + Times(high, 1.0 - at) == 0.0 && m == low as real
    requires Times(low, p) + Times(high, q) == nv
    ensures n - m == n * at && m * p + (n - m) * q == nv
  {
    TimesIsProduct(low, -at);
    TimesIsProduct(high, 1.0 - at);
    TimesIsProduct(low, p);
    TimesIsProduct(high, q);
    var h := high as real;
    assert h == n - m;
    SameProduct(q, h, n - m);
    assert m * -at + h * (1.0 - at) == h - (m + h) * at;
    SameProduct(at, m + h, n);
  }

  lemma Spread(n: real, at: real, v: real, m: real)
    requires m == n * (1.0 - at) && n - m == n * at
    ensures m * (at * at) + (n - m) * ((1.0 - at) * (1.0 - at)) == n * (at * (1.0 - at))
  {
    SameProduct(at * at, m, n * (1.0 - at));
    SameProduct((1.0 - at) * (1.0 - at), n - m, n * at);
    calc {
      m * (at * at) + (n - m) * ((1.0 - at) * (1.0 - at));
      n * (1.0 - at) * (at * at) + n * at * ((1.0 - at) * (1.0 - at));
      n * (at * (1.0 - at));
    }
  }

  lemma VarianceOf(n: real, m: real, at: real, v: real, nv: real)
    requires n > 0.0 && n - m == n * at && nv == n * v
    requires m * (at * at) + (n - m) * ((1.0 - at) * (1.0 - at)) == nv
    ensures m == n * (1.0 - at) && v == at * (1.0 - at)
  {
    Distribute(n, 1.0, -at);
    Spread(n, at, v, m);
    SameByScale(n, v, at * (1.0 - at));
  }

  lemma SameByScale(n: real, x: real, y: real)
    requires n > 0.0 && n * x == n * y
    ensures x == y
  {
    ScaleOrder(n, x, y);
    ScaleOrder(n, y, x);
  }

  lemma MeanInRange(n: real, m: real, at: real)
    requires 0.0 < m < n && n * at == n - m
    ensures 0.0 < at < 1.0
  {
    ScaleOrder(n, 0.0, at);
    ScaleOrder(n, at, 1.0);
  }

  lemma SquareOrder(a: real, b: real)
    requires a >= 0.0 && b >= 0.0
    ensures a < b <==> a * a < b * b
  {
    if a < b {
      SquareGrows(a, b);
    } else if b < a {
      SquareGrows(b, a);
    }
  }

  lemma LowCutoff(n: real, m: real, at: real, kk: real, t: real, v: real)
    requires n > 0.0 && at > 0.0 && t >= 0.0 && t * t == kk * v && v == at * (1.0 - at) && m == n * (1.0 - at)
    ensures 0.0 < at - t <==> m * (1.0 + kk) < n
  {
    var y := kk * (1.0 - at);
    SquareOrder(t, at);
    calc {
      t * t;
      kk * v;
      { SameProduct(kk, v, at * (1.0 - at)); }
      kk * (at * (1.0 - at));
      at * y;
    }
    ScaleOrder(at, y, at);
    calc {
      m * (1.0 + kk);
      { SameProduct(1.0 + kk, m, n * (1.0 - at)); }
      n * (1.0 - at) * (1.0 + kk);
      n * (1.0 - at + y);
    }
    ScaleOrder(n, 1.0 - at + y, 1.0);
  }

  lemma TightAt(n: real, m: real, at: real, v: real, nv: real, kk: real, t: real, p: real, q: real)
    requires 0.0 < m < n && t >= 0.0 && t * t == kk * v && n - m == n * at && nv == n * v
    requires p == at * at && q == (1.0 - at) * (1.0 - at) && m * p + (n - m) * q == nv
    ensures at - t <= 1.0 && (0.0 < at - t <==> m * (1.0 + kk) < n)
  {
    SameProduct(m, p, at * at);
    SameProduct(n - m, q, (1.0 - at) * (1.0 - at));
    VarianceOf(n, m, at, v, nv);
    MeanInRange(n, m, at);
    LowCutoff(n, m, at, kk, t, v);
  }

  lemma SquaresAt(at: real)
    ensures Square()(0.0 - at) == at * at && Square()(1.0 - at) == (1.0 - at) * (1.0 - at)
  {
  }

  lemma TightScalars(low: nat, high: nat, at: real, n: real, v: real, nv: real, p: real, q: real, kk: real, t: real)
    requires 0 < low && 0 < high && p == Square()(0.0 - at) && q == Square()(1.0 - at) && nv == n * v
    requires n == (low + high) as real && Times(low, 0.0 - at) + Times(high, 1.0 - at) == 0.0
    requires Times(low, p) + Times(high, q) == nv && IsDeviations(t, kk, v)
    ensures at - t <= 1.0 && (0.0 < at - t <==> Few(low, low + high, kk))
  {
    SquaresAt(at);
    ScalarMoments(low, high, at, n, nv, p, q, low as real);
    TightAt(n, low as real, at, v, nv, kk, t, p, q);
  }

  lemma TightGroups(r: seq<real>, at: real, n: real, v: real, kk: real, t: real, m: nat, p: real, q: real)
    requires ZeroOne(r) && m == Zeros(r) && 0 < m < |r| && p == Square()(0.0 - at) && q == Square()(1.0 - at)
    requires IsDeviations(t, kk, v) && AreDistances(Shifted(r, at), n, v)
    ensures at - t <= 1.0 && (0.0 < at - t <==> Few(m, |r|, kk))
  {
    var nv := n * v;
    GroupMoments(r, at, n, v, p, q, nv, m);
    TightScalars(m, |r| - m, at, n, v, nv, p, q, kk, t);
  }

  /** No better bound holds: when m of n values are zero and the rest one, in any order, the cutoff lies above the zeros
      exactly when m(1 + k^2) < n, and never above the ones. */
  lemma CantelliIsTight(r: seq<real>, kk: real, cut: real)
    requires ZeroOne(r) && 0 < Zeros(r) < |r| && IsCutoff(cut, r, kk)
    ensures cut <= 1.0 && (0.0 < cut <==> Few(Zeros(r), |r|, kk))
    ensures CountBelow(r, cut) == if Few(Zeros(r), |r|, kk) then Zeros(r) else 0
  {
    var at, n, v, t :| AreDistances(Shifted(r, at), n, v) && IsDeviations(t, kk, v) && cut == at - t;
    TightGroups(r, at, n, v, kk, t, Zeros(r), Square()(0.0 - at), Square()(1.0 - at));
    ZeroOneBelow(r, cut);
  }
}
