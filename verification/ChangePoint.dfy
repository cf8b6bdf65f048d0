/** apps/server/scripts/tab_working_set_collector.py: the change point and the correlation of a series,
    over exact real numbers. */
module ChangePoint {
  import opened SquareRoot
  import opened Wrappers

  // ------------------------------------------------------------------------------------- sums

  function Total(f: real -> real, v: seq<real>): real {
    if v == [] then 0.0 else f(v[0]) + Total(f, v[1..])
  }

  function Sum(v: seq<real>): real {
    Total(x => x, v)
  }

  /** `statistics.fmean` */
  function Mean(v: seq<real>): real
    requires v != []
  {
    Sum(v) / |v| as real
  }

  function SquareFrom(c: real): real -> real {
    (x: real) => (x - c) * (x - c)
  }

  /** The squared distances from `c`. */
  function Spread(v: seq<real>, c: real): real {
    Total(SquareFrom(c), v)
  }

  /** `series_sse` */
  function SeriesSse(v: seq<real>): real {
    if v == [] then 0.0 else Spread(v, Mean(v))
  }

  /** `x` added up `n` times. */
  ghost function Times(n: nat, x: real): real {
    if n == 0 then 0.0 else x + Times(n - 1, x)
  }

  lemma {:induction false} TimesIs(n: nat, x: real)
    ensures Times(n, x) == n as real * x
  {
    if n > 0 {
      TimesIs(n - 1, x);
      assert n as real == (n - 1) as real + 1.0;
      assert ((n - 1) as real + 1.0) * x == (n - 1) as real * x + x;
    } else {
      assert 0.0 * x == 0.0;
    }
  }

  lemma MeanTimesCount(v: seq<real>)
    requires v != []
    ensures Times(|v|, Mean(v)) == Sum(v)
  {
    TimesIs(|v|, Mean(v));
    RatioTimes(Sum(v), |v| as real);
  }

  lemma RatioTimes(s: real, n: real)
    requires n != 0.0
    ensures n * (s / n) == s && s / n * n == s
  {
  }

  lemma {:induction false} TotalConcat(f: real -> real, a: seq<real>, b: seq<real>)
    ensures Total(f, a + b) == Total(f, a) + Total(f, b)
  {
    if a == [] {
      assert a + b == b;
    } else {
      assert (a + b)[1..] == a[1..] + b;
      TotalConcat(f, a[1..], b);
    }
  }

  // ------------------------------------------------------------------ moving the centre of a spread

  ghost predicate Adds(h: real -> real, x: real, y: real) {
    h(x + y) == h(x) + h(y)
  }

  ghost predicate Additive(h: real -> real) {
    h(0.0) == 0.0 && forall x, y :: Adds(h, x, y)
  }

  function Scale(k: real): real -> real {
    (x: real) => k * x
  }

  lemma ScaleIsAdditive(k: real)
    ensures Additive(Scale(k))
  {
    assert k * 0.0 == 0.0;
    forall x, y ensures Adds(Scale(k), x, y) {
      assert k * (x + y) == k * x + k * y;
    }
  }

  /** At every point, `f` is `g` plus an additive part of the distance from `m` plus a constant. */
  ghost predicate Shifts(f: real -> real, g: real -> real, h: real -> real, m: real, k: real, x: real) {
    f(x) == g(x) + h(x - m) + k
  }

  lemma {:induction false} TotalShifts(f: real -> real, g: real -> real, h: real -> real, m: real, k: real,
          v: seq<real>)
    requires Additive(h) && forall x :: Shifts(f, g, h, m, k, x)
    ensures Total(f, v) == Total(g, v) + h(Sum(v) - Times(|v|, m)) + Times(|v|, k)
  {
    if v != [] {
      TotalShifts(f, g, h, m, k, v[1..]);
      assert Shifts(f, g, h, m, k, v[0]);
      assert Adds(h, v[0] - m, Sum(v[1..]) - Times(|v[1..]|, m));
      assert Sum(v) - Times(|v|, m) == (v[0] - m) + (Sum(v[1..]) - Times(|v[1..]|, m));
    }
  }

  lemma SquareShifts(m: real, c: real, x: real)
    ensures Shifts(SquareFrom(c), SquareFrom(m), Scale(2.0 * (m - c)), m, SquareFrom(c)(m), x)
  {
    var d, e := x - m, m - c;
    assert x - c == d + e;
    assert (d + e) * (d + e) == d * d + 2.0 * e * d + e * e;
  }

  /** About any point: the spread about the mean, plus the count times the squared distance to it. */
  lemma SpreadAboutMean(v: seq<real>, m: real, c: real)
    requires Times(|v|, m) == Sum(v)
    ensures Spread(v, c) == Spread(v, m) + Times(|v|, SquareFrom(c)(m))
  {
    var f, g, h, k := SquareFrom(c), SquareFrom(m), Scale(2.0 * (m - c)), SquareFrom(c)(m);
    ScaleIsAdditive(2.0 * (m - c));
    forall x ensures Shifts(f, g, h, m, k, x) {
      SquareShifts(m, c, x);
    }
    TotalShifts(f, g, h, m, k, v);
  }

  // ------------------------------------------------------------------------ the gain of a split

  /** n1·n2/(n1+n2)·(mean1-mean2)² */
  function GainOf(p: real, q: real, x: real, y: real): real
    requires p > 0.0 && q > 0.0
  {
    p * q / (p + q) * ((x - y) * (x - y))
  }

  function Gain(a: seq<real>, b: seq<real>): real
    requires a != [] && b != []
  {
    GainOf(|a| as real, |b| as real, Mean(a), Mean(b))
  }

  lemma WeightedMean(p: real, q: real, x: real, y: real, m: real)
    requires p > 0.0 && q > 0.0 && (p + q) * m == p * x + q * y
    ensures (x - m) * (p + q) == q * (x - y) && (y - m) * (p + q) == p * (y - x)
  {
    assert (x - m) * (p + q) == x * (p + q) - (p + q) * m;
    assert x * (p + q) == p * x + q * x;
    assert q * x - q * y == q * (x - y);
    assert (y - m) * (p + q) == y * (p + q) - (p + q) * m;
    assert y * (p + q) == p * y + q * y;
    assert p * y - p * x == p * (y - x);
  }

  lemma Quotient(t: real, n: real, s: real)
    requires n > 0.0 && t * n == s
    ensures t == s / n
  {
  }

  /** With the weighted mean m of x and y, the two parts of the spread about m add up to the gain. */
  lemma TwoMeans(p: real, q: real, x: real, y: real, m: real)
    requires p > 0.0 && q > 0.0 && (p + q) * m == p * x + q * y
    ensures p * ((x - m) * (x - m)) + q * ((y - m) * (y - m)) == p * q / (p + q) * ((x - y) * (x - y))
  {
    var n, d := p + q, x - y;
    var u, w := x - m, y - m;
    WeightedMean(p, q, x, y, m);
    assert u * n == q * d && w * n == -(p * d);
    assert p * (u * u) * n == p * u * (u * n) == p * u * (q * d) == p * q * (d * u);
    assert q * (w * w) * n == q * w * (w * n) == -(q * w * (p * d)) == -(p * q * (d * w));
    assert u - w == d;
    assert p * q * (d * u) - p * q * (d * w) == p * q * (d * (u - w));
    assert (p * (u * u) + q * (w * w)) * n == p * q * (d * d);
    Quotient(p * (u * u) + q * (w * w), n, p * q * (d * d));
    assert p * q * (d * d) / n == p * q / n * (d * d);
  }

  lemma TwoTimes(p: nat, q: nat, x: real, y: real)
    ensures Times(p, x) + Times(q, y) == p as real * x + q as real * y
  {
    TimesIs(p, x);
    TimesIs(q, y);
  }

  lemma MeanOfParts(p: nat, q: nat, x: real, y: real, m: real)
    requires Times(p + q, m) == Times(p, x) + Times(q, y)
    ensures (p as real + q as real) * m == p as real * x + q as real * y
  {
    TimesIs(p + q, m);
    TwoTimes(p, q, x, y);
  }

  lemma SquaresAddUp(p: real, q: real, x: real, y: real, m: real, u: real, w: real)
    requires p > 0.0 && q > 0.0 && (p + q) * m == p * x + q * y && u == SquareFrom(m)(x) && w == SquareFrom(m)(y)
    ensures p * u + q * w == GainOf(p, q, x, y)
  {
    TwoMeans(p, q, x, y, m);
  }

  lemma GainOfParts(p: nat, q: nat, x: real, y: real, m: real)
    requires p > 0 && q > 0 && Times(p + q, m) == Times(p, x) + Times(q, y)
    ensures Times(p, SquareFrom(m)(x)) + Times(q, SquareFrom(m)(y)) == GainOf(p as real, q as real, x, y)
  {
    var u, w := SquareFrom(m)(x), SquareFrom(m)(y);
    assert p as real * u + q as real * w == GainOf(p as real, q as real, x, y) by {
      MeanOfParts(p, q, x, y, m);
      SquaresAddUp(p as real, q as real, x, y, m, u, w);
    }
    TwoTimes(p, q, u, w);
  }

  /** For numbers x, y and m that are the means of two parts and of the whole. */
  lemma SplitAbout(a: seq<real>, b: seq<real>, x: real, y: real, m: real)
    requires a != [] && b != []
    requires Times(|a|, x) == Sum(a) && Times(|b|, y) == Sum(b) && Times(|a| + |b|, m) == Sum(a + b)
    ensures Spread(a + b, m) - (Spread(a, x) + Spread(b, y)) == GainOf(|a| as real, |b| as real, x, y)
  {
    TotalConcat(SquareFrom(m), a, b);
    TotalConcat(t => t, a, b);
    SpreadAboutMean(a, x, m);
    SpreadAboutMean(b, y, m);
    GainOfParts(|a|, |b|, x, y, m);
  }

  /** What a split takes off the spread. */
  lemma SplitGain(a: seq<real>, b: seq<real>)
    requires a != [] && b != []
    ensures SeriesSse(a + b) - (SeriesSse(a) + SeriesSse(b)) == Gain(a, b)
  {
    MeanTimesCount(a);
    MeanTimesCount(b);
    MeanTimesCount(a + b);
    SplitAbout(a, b, Mean(a), Mean(b), Mean(a + b));
  }

  lemma SameSigns(a: real, b: real, s: real)
    requires ((a > 0.0 && b > 0.0) || (a < 0.0 && b < 0.0)) && s == a * b
    ensures s > 0.0
  {
  }

  lemma SquareSign(d: real, s: real)
    requires s == d * d
    ensures s >= 0.0 && (s == 0.0 <==> d == 0.0)
  {
    if d == 0.0 {
      assert 0.0 * d == 0.0;
    } else {
      SameSigns(d, d, s);
    }
  }

  lemma ProductSign(w: real, e: real)
    requires w > 0.0 && e >= 0.0
    ensures w * e >= 0.0 && (w * e == 0.0 <==> e == 0.0)
  {
    if e > 0.0 {
      assert w * e > 0.0;
    }
  }

  lemma GainOfSign(p: real, q: real, x: real, y: real, g: real)
    requires p > 0.0 && q > 0.0 && g == GainOf(p, q, x, y)
    ensures g >= 0.0 && (g == 0.0 <==> x == y)
  {
    assert p * q > 0.0;
    assert p * q / (p + q) > 0.0;
    SquareSign(x - y, (x - y) * (x - y));
    ProductSign(p * q / (p + q), (x - y) * (x - y));
  }

  /** No split makes things worse, and only one between equal means gains nothing. */
  lemma GainSign(a: seq<real>, b: seq<real>)
    requires a != [] && b != []
    ensures Gain(a, b) >= 0.0 && (Gain(a, b) == 0.0 <==> Mean(a) == Mean(b))
  {
    GainOfSign(|a| as real, |b| as real, Mean(a), Mean(b), Gain(a, b));
  }

  // ------------------------------------------------------------------------ the change point

  datatype Point = Point(sampledAt: int, tabWorkingSetMb: real)

  /** The report, before its numbers are rounded for display. */
  datatype Change = Change(index: nat, sampledAt: int, score: real, delta: real, before: real, after: real)

  function Values(points: seq<Point>): seq<real> {
    seq(|points|, i requires 0 <= i < |points| => points[i].tabWorkingSetMb)
  }

  predicate Admissible(n: nat, k: nat) {
    2 <= k < n - 2
  }

  function GainAt(v: seq<real>, k: nat): real
    requires 0 < k < |v|
  {
    Gain(v[..k], v[k..])
  }

  /** The earliest of the admissible splits with the greatest gain, among those before `limit`. */
  ghost predicate IsBest(v: seq<real>, limit: nat, k: nat)
    requires |v| >= 5 && limit <= |v| - 2
  {
    && 2 <= k < limit
    && (forall j {:trigger GainAt(v, j)} :: 2 <= j < limit ==> GainAt(v, j) <= GainAt(v, k))
    && (forall j {:trigger GainAt(v, j)} :: 2 <= j < k ==> GainAt(v, j) < GainAt(v, k))
  }

  /** How much a split takes off the spread of the whole series. */
  function Score(v: seq<real>, baseline: real, k: nat): (score: real)
    requires 0 < k < |v|
  {
    baseline - (SeriesSse(v[..k]) + SeriesSse(v[k..]))
  }

  lemma ScoreIsGain(v: seq<real>, k: nat)
    requires 0 < k < |v|
    ensures Score(v, SeriesSse(v), k) == GainAt(v, k)
  {
    assert v == v[..k] + v[k..];
    SplitGain(v[..k], v[k..]);
  }

  method BestSplit(v: seq<real>) returns (best: (real, nat))
    requires |v| >= 5
    ensures IsBest(v, |v| - 2, best.1) && best.0 == GainAt(v, best.1)
  {
    var baseline := SeriesSse(v);
    var found := false;
    best := (0.0, 2);
    for index := 2 to |v| - 2
      invariant found <==> index > 2
      invariant found ==> IsBest(v, index, best.1) && best.0 == GainAt(v, best.1)
    {
      ScoreIsGain(v, index);
      var score := Score(v, baseline, index);
      if !found || score > best.0 {
        best, found := (score, index), true;
      }
    }
  }

  /** `best_change_point` */
  method BestChangePoint(points: seq<Point>) returns (r: Option<Change>)
    ensures |points| < 5 ==> r == None
    ensures |points| >= 5 ==>
              var v := Values(points);
              (r == None <==> forall k: nat :: Admissible(|v|, k) ==> Mean(v[..k]) == Mean(v[k..]))
    ensures r.Some? ==>
              var v, c := Values(points), r.value;
              && |v| >= 5 && IsBest(v, |v| - 2, c.index) && c.score == GainAt(v, c.index) > 0.0
              && c.sampledAt == points[c.index].sampledAt && c.before == v[c.index - 1] && c.after == v[c.index]
              && c.before + c.delta == c.after
  {
    if |points| < 5 {
      return None;
    }
    var values := Values(points);
    var best := BestSplit(values);
    forall k: nat | Admissible(|values|, k)
      ensures GainAt(values, k) >= 0.0 && (GainAt(values, k) == 0.0 <==> Mean(values[..k]) == Mean(values[k..]))
    {
      GainSign(values[..k], values[k..]);
    }
    assert Admissible(|values|, best.1);
    if best.0 <= 0.0 {
      return None;
    }
    var index := best.1;
    var previous, current := points[index - 1], points[index];
    r := Some(Change(index, current.sampledAt, best.0, current.tabWorkingSetMb - previous.tabWorkingSetMb,
                     previous.tabWorkingSetMb, current.tabWorkingSetMb));
  }

  // -------------------------------------------------------------------------- the correlation

  function Total2(h: (real, real) -> real, xs: seq<real>, ys: seq<real>): real
    requires |xs| == |ys|
  {
    if xs == [] then 0.0 else h(xs[0], ys[0]) + Total2(h, xs[1..], ys[1..])
  }

  function ProductFrom(p: real, q: real): (real, real) -> real {
    (x: real, y: real) => (x - p) * (y - q)
  }

  /** The numerator of the correlation: products of the deviations of both series, summed. */
  function Products(xs: seq<real>, ys: seq<real>, p: real, q: real): real
    requires |xs| == |ys|
  {
    Total2(ProductFrom(p, q), xs, ys)
  }

  /** A quadratic in t with these coefficients. */
  function Value(x: real, n: real, y: real, t: real): real {
    x - Scale(2.0 * t)(n) + Scale(t * t)(y)
  }

  ghost predicate NonNegative(f: real -> real, g: real -> real, h: (real, real) -> real, s: real -> real,
          u: real -> real, x: real, y: real)
  {
    f(x) - s(h(x, y)) + u(g(y)) >= 0.0
  }

  lemma {:induction false} TotalNonNegative(f: real -> real, g: real -> real, h: (real, real) -> real, s: real -> real,
          u: real -> real, xs: seq<real>, ys: seq<real>)
    requires |xs| == |ys| && Additive(s) && Additive(u) && forall x, y :: NonNegative(f, g, h, s, u, x, y)
    ensures Total(f, xs) - s(Total2(h, xs, ys)) + u(Total(g, ys)) >= 0.0
  {
    if xs != [] {
      TotalNonNegative(f, g, h, s, u, xs[1..], ys[1..]);
      assert NonNegative(f, g, h, s, u, xs[0], ys[0]);
      assert Adds(s, h(xs[0], ys[0]), Total2(h, xs[1..], ys[1..]));
      assert Adds(u, g(ys[0]), Total(g, ys[1..]));
    }
  }

  lemma SquareOfDifference(a: real, b: real, t: real)
    ensures a * a - 2.0 * t * (a * b) + t * t * (b * b) >= 0.0
  {
    var e := t * b;
    SquareSign(a - e, (a - e) * (a - e));
    assert (a - e) * (a - e) == a * a - 2.0 * (a * e) + e * e;
    assert a * e == t * (a * b) && e * e == t * t * (b * b);
    assert 2.0 * (t * (a * b)) == 2.0 * t * (a * b);
  }

  /** The sum of the squares of (x - p) - t·(y - q). */
  lemma Quadratic(xs: seq<real>, ys: seq<real>, p: real, q: real, t: real)
    requires |xs| == |ys|
    ensures Value(Spread(xs, p), Products(xs, ys, p, q), Spread(ys, q), t) >= 0.0
  {
    ScaleIsAdditive(2.0 * t);
    ScaleIsAdditive(t * t);
    var f, g, h, s, u := SquareFrom(p), SquareFrom(q), ProductFrom(p, q), Scale(2.0 * t), Scale(t * t);
    forall x, y ensures NonNegative(f, g, h, s, u, x, y) {
      SquareOfDifference(x - p, y - q, t);
    }
    TotalNonNegative(f, g, h, s, u, xs, ys);
  }

  ghost predicate Positive(f: real -> real, c: real, x: real) {
    f(x) >= 0.0 && (f(x) == 0.0 <==> x == c)
  }

  lemma {:induction false} TotalSign(f: real -> real, c: real, v: seq<real>)
    requires forall x :: Positive(f, c, x)
    ensures Total(f, v) >= 0.0 && (Total(f, v) == 0.0 <==> forall i :: 0 <= i < |v| ==> v[i] == c)
  {
    if v != [] {
      TotalSign(f, c, v[1..]);
      assert Positive(f, c, v[0]);
      assert forall i :: 1 <= i < |v| ==> v[i] == v[1..][i - 1];
      assert forall i :: 0 <= i < |v[1..]| ==> v[1..][i] == v[i + 1];
    }
  }

  lemma SpreadSign(v: seq<real>, c: real)
    ensures Spread(v, c) >= 0.0 && (Spread(v, c) == 0.0 <==> forall i :: 0 <= i < |v| ==> v[i] == c)
  {
    forall x ensures Positive(SquareFrom(c), c, x) {
      SquareSign(x - c, SquareFrom(c)(x));
    }
    TotalSign(SquareFrom(c), c, v);
  }

  lemma AtVertex(x: real, n: real, y: real, t: real)
    requires y > 0.0 && t * y == n && Value(x, n, y, t) >= 0.0
    ensures n * n <= x * y
  {
    assert t * t * y == t * (t * y) == t * n;
    assert 2.0 * t * n == 2.0 * (t * n);
    assert x - t * n >= 0.0;
    ProductSign(y, x - t * n);
    assert y * (x - t * n) == x * y - t * n * y;
    assert t * n * y == n * (t * y);
  }

  lemma FarOut(x: real, n: real, t: real)
    requires x >= 0.0 && t * n == x + 1.0
    ensures Value(x, n, 0.0, t) < 0.0
  {
    assert t * t * 0.0 == 0.0;
    assert 2.0 * t * n == 2.0 * (t * n);
  }

  /** A quadratic in t that is never negative has no positive discriminant. */
  lemma Discriminant(x: real, n: real, y: real)
    requires x >= 0.0 && y >= 0.0 && forall t: real {:trigger Value(x, n, y, t)} :: Value(x, n, y, t) >= 0.0
    ensures n * n <= x * y
  {
    if y > 0.0 {
      RatioTimes(n, y);
      AtVertex(x, n, y, n / y);
    } else if n != 0.0 {
      RatioTimes(x + 1.0, n);
      FarOut(x, n, (x + 1.0) / n);
    } else {
      assert x * 0.0 == 0.0;
    }
  }

  /** The squared numerator never exceeds the product of the two denominators. */
  lemma CauchySchwarz(xs: seq<real>, ys: seq<real>, p: real, q: real)
    requires |xs| == |ys|
    ensures Products(xs, ys, p, q) * Products(xs, ys, p, q) <= Spread(xs, p) * Spread(ys, q)
  {
    forall t: real ensures Value(Spread(xs, p), Products(xs, ys, p, q), Spread(ys, q), t) >= 0.0 {
      Quadratic(xs, ys, p, q, t);
    }
    SpreadSign(xs, p);
    SpreadSign(ys, q);
    Discriminant(Spread(xs, p), Products(xs, ys, p, q), Spread(ys, q));
  }

  ghost predicate Constant(v: seq<real>) {
    forall i, j :: 0 <= i < j < |v| ==> v[i] == v[j]
  }

  lemma {:induction false} SumOfConstant(v: seq<real>, c: real)
    requires forall i :: 0 <= i < |v| ==> v[i] == c
    ensures Sum(v) == Times(|v|, c)
  {
    if v != [] {
      SumOfConstant(v[1..], c);
    }
  }

  lemma TimesInjective(n: nat, x: real, y: real)
    requires n > 0 && Times(n, x) == Times(n, y)
    ensures x == y
  {
    TimesIs(n, x);
    TimesIs(n, y);
    var k := n as real;
    assert k * (x - y) == 0.0;
    if x > y {
      ProductSign(k, x - y);
    } else {
      ProductSign(k, y - x);
    }
  }

  /** A series has no spread exactly when it is constant. */
  lemma NoSpread(v: seq<real>)
    requires v != []
    ensures SeriesSse(v) >= 0.0 && (SeriesSse(v) == 0.0 <==> Constant(v))
  {
    SpreadSign(v, Mean(v));
    if Constant(v) {
      SumOfConstant(v, v[0]);
      MeanTimesCount(v);
      TimesInjective(|v|, v[0], Mean(v));
    }
  }

  lemma RootBounds(n: real, r: real)
    requires r > 0.0 && n * n <= r * r
    ensures -1.0 <= n / r <= 1.0
  {
    assert n <= r by {
      if n > r {
        Grows(r, n);
      }
    }
    var opposite := 0.0 - n;
    assert opposite * opposite == n * n;
    assert -r <= n by {
      if opposite > r {
        Grows(r, opposite);
      }
    }
    RatioBounds(n, r);
  }

  lemma Grows(r: real, n: real)
    requires 0.0 < r < n
    ensures r * r < n * n
  {
    ProductSign(r, n - r);
    ProductSign(n, n - r);
    assert r * (n - r) == r * n - r * r && n * (n - r) == n * n - n * r;
  }

  lemma RatioBounds(n: real, r: real)
    requires r > 0.0 && -r <= n <= r
    ensures -1.0 <= n / r <= 1.0
  {
  }

  lemma ProductZero(x: real, y: real)
    requires x >= 0.0 && y >= 0.0
    ensures x * y >= 0.0 && (x * y == 0.0 <==> x == 0.0 || y == 0.0)
  {
    if x > 0.0 {
      ProductSign(x, y);
    } else {
      assert 0.0 * y == 0.0;
    }
  }

  function Denominator(root: real -> real, x: real, y: real): real {
    root(x * y)
  }

  predicate IsQuotient(r: real, n: real, d: real) {
    r * d == n
  }

  predicate Bounded(n: real, x: real, y: real) {
    x >= 0.0 && y >= 0.0 && n * n <= x * y
  }

  lemma NumeratorIsBounded(xs: seq<real>, ys: seq<real>)
    requires |xs| == |ys| > 0
    ensures Bounded(Products(xs, ys, Mean(xs), Mean(ys)), SeriesSse(xs), SeriesSse(ys))
  {
    SpreadSign(xs, Mean(xs));
    SpreadSign(ys, Mean(ys));
    CauchySchwarz(xs, ys, Mean(xs), Mean(ys));
  }

  /** The last lines of `pearson`, on its three sums. */
  method Correlate(root: real -> real, numerator: real, x: real, y: real) returns (r: Option<real>)
    requires IsRoot(root) && Bounded(numerator, x, y)
    ensures r == None <==> x == 0.0 || y == 0.0
    ensures r.Some? ==> -1.0 <= r.value <= 1.0 && IsQuotient(r.value, numerator, Denominator(root, x, y))
  {
    ProductZero(x, y);
    var denominator := Denominator(root, x, y);
    SquareSign(denominator, x * y);
    if denominator == 0.0 {
      return None;
    }
    RootBounds(numerator, denominator);
    RatioTimes(numerator, denominator);
    r := Some(numerator / denominator);
  }

  /** `pearson`, before rounding; `root` is the square root. */
  method Pearson(root: real -> real, xs: seq<real>, ys: seq<real>) returns (r: Option<real>)
    requires IsRoot(root)
    ensures r == None <==> |xs| < 3 || |xs| != |ys| || Constant(xs) || Constant(ys)
    ensures r.Some? ==> -1.0 <= r.value <= 1.0
    ensures r.Some? ==> IsQuotient(r.value, Products(xs, ys, Mean(xs), Mean(ys)),
        Denominator(root, SeriesSse(xs), SeriesSse(ys)))
  {
    if |xs| < 3 || |xs| != |ys| {
      return None;
    }
    NoSpread(xs);
    NoSpread(ys);
    NumeratorIsBounded(xs, ys);
    r := Correlate(root, Products(xs, ys, Mean(xs), Mean(ys)), SeriesSse(xs), SeriesSse(ys));
  }

  // ---------------------------------------------------------------------- points on a line

  ghost predicate Line(xs: seq<real>, ys: seq<real>, a: real, b: real) {
    |xs| == |ys| && forall i :: 0 <= i < |xs| ==> ys[i] == a * xs[i] + b
  }

  lemma {:induction false} SumOnLine(xs: seq<real>, ys: seq<real>, a: real, b: real)
    requires Line(xs, ys, a, b)
    ensures Sum(ys) == a * Sum(xs) + Times(|xs|, b)
  {
    if xs != [] {
      SumOnLine(xs[1..], ys[1..], a, b);
      assert a * (xs[0] + Sum(xs[1..])) == a * xs[0] + a * Sum(xs[1..]);
    } else {
      assert a * 0.0 == 0.0;
    }
  }

  lemma MeanOnLine(xs: seq<real>, ys: seq<real>, a: real, b: real)
    requires Line(xs, ys, a, b) && xs != []
    ensures Mean(ys) == a * Mean(xs) + b
  {
    var n, m := |xs| as real, Mean(xs);
    SumOnLine(xs, ys, a, b);
    MeanTimesCount(xs);
    MeanTimesCount(ys);
    TimesIs(|xs|, m);
    TimesIs(|xs|, b);
    TimesIs(|xs|, a * m + b);
    LineTimes(n, m, a, b);
    TimesInjective(|xs|, Mean(ys), a * m + b);
  }

  lemma LineTimes(n: real, m: real, a: real, b: real)
    ensures n * (a * m + b) == a * (n * m) + n * b
  {
    assert n * (a * m) == a * (n * m);
  }

  lemma {:induction false} ProductsScale(h: (real, real) -> real, f: real -> real, s: real -> real, xs: seq<real>,
          ys: seq<real>)
    requires |xs| == |ys| && Additive(s) && forall i :: 0 <= i < |xs| ==> h(xs[i], ys[i]) == s(f(xs[i]))
    ensures Total2(h, xs, ys) == s(Total(f, xs))
  {
    if xs != [] {
      ProductsScale(h, f, s, xs[1..], ys[1..]);
      assert Adds(s, f(xs[0]), Total(f, xs[1..]));
    }
  }

  lemma {:induction false} TotalScales(g: real -> real, f: real -> real, s: real -> real, xs: seq<real>, ys: seq<real>)
    requires |xs| == |ys| && Additive(s) && forall i :: 0 <= i < |xs| ==> g(ys[i]) == s(f(xs[i]))
    ensures Total(g, ys) == s(Total(f, xs))
  {
    if xs != [] {
      TotalScales(g, f, s, xs[1..], ys[1..]);
      assert Adds(s, f(xs[0]), Total(f, xs[1..]));
    }
  }

  lemma TermOnLine(x: real, p: real, a: real, b: real)
    ensures var d, e := x - p, (a * x + b) - (a * p + b);
            d * e == a * (d * d) && e * e == a * a * (d * d)
  {
    var d := x - p;
    assert a * x - a * p == a * d;
    assert d * (a * d) == a * (d * d);
    assert (a * d) * (a * d) == a * a * (d * d);
  }

  lemma SpreadsOnLine(xs: seq<real>, ys: seq<real>, p: real, q: real, a: real, b: real)
    requires Line(xs, ys, a, b) && q == a * p + b
    ensures Products(xs, ys, p, q) == Scale(a)(Spread(xs, p)) && Spread(ys, q) == Scale(a * a)(Spread(xs, p))
  {
    ScaleIsAdditive(a);
    ScaleIsAdditive(a * a);
    forall i | 0 <= i < |xs|
      ensures ProductFrom(p, q)(xs[i], ys[i]) == Scale(a)(SquareFrom(p)(xs[i]))
      ensures SquareFrom(q)(ys[i]) == Scale(a * a)(SquareFrom(p)(xs[i]))
    {
      TermOnLine(xs[i], p, a, b);
    }
    ProductsScale(ProductFrom(p, q), SquareFrom(p), Scale(a), xs, ys);
    TotalScales(SquareFrom(q), SquareFrom(p), Scale(a * a), xs, ys);
  }

  lemma SameSquare(d: real, e: real)
    requires d >= 0.0 && e > 0.0 && d * d == e * e
    ensures d == e
  {
    if d > e {
      Grows(e, d);
    } else if d == 0.0 {
      ProductSign(e, e);
    } else if d < e {
      Grows(d, e);
    }
  }

  lemma UnitQuotient(r: real, d: real, n: real)
    requires d > 0.0 && r * d == n
    ensures n == d ==> r == 1.0
    ensures n == 0.0 - d ==> r == -1.0
  {
  }

  /** With the numerator a·s and the squared denominator s·(a²·s). */
  lemma QuotientOnLine(r: real, s: real, a: real, n: real, d: real, square: real)
    requires s > 0.0 && a != 0.0 && d >= 0.0 && d * d == square && r * d == n
    requires n == a * s && square == s * (a * a * s)
    ensures r == if a > 0.0 then 1.0 else -1.0
  {
    var size := if a > 0.0 then a else 0.0 - a;
    var e := size * s;
    ProductSign(size, s);
    assert size * size == a * a;
    SquareOfProduct(size, s);
    SameSquare(d, e);
    if a < 0.0 {
      assert (0.0 - a) * s == 0.0 - a * s;
    }
    UnitQuotient(r, d, n);
  }

  lemma SquareOfProduct(a: real, s: real)
    ensures (a * s) * (a * s) == s * (a * a * s)
  {
    assert (a * s) * (a * s) == a * (s * (a * s));
    assert s * (a * a * s) == s * (a * (a * s));
    assert a * (s * (a * s)) == s * (a * (a * s));
  }

  lemma SumsOnLine(xs: seq<real>, ys: seq<real>, a: real, b: real)
    requires Line(xs, ys, a, b) && |xs| > 0 && !Constant(xs)
    ensures Products(xs, ys, Mean(xs), Mean(ys)) == Scale(a)(SeriesSse(xs))
    ensures SeriesSse(ys) == Scale(a * a)(SeriesSse(xs))
    ensures SeriesSse(xs) > 0.0 && SeriesSse(ys) >= 0.0
  {
    MeanOnLine(xs, ys, a, b);
    SpreadsOnLine(xs, ys, Mean(xs), Mean(ys), a, b);
    NoSpread(xs);
    NoSpread(ys);
  }

  lemma RootOfProduct(root: real -> real, x: real, y: real)
    requires IsRoot(root) && x >= 0.0 && y >= 0.0
    ensures Denominator(root, x, y) >= 0.0 && Denominator(root, x, y) * Denominator(root, x, y) == x * y
  {
    ProductZero(x, y);
  }

  lemma Scaled(k: real, x: real)
    ensures Scale(k)(x) == k * x
  {
  }

  /** Of points on a rising line the correlation is one, and of points on a falling line minus one. */
  lemma CorrelationOnLine(root: real -> real, xs: seq<real>, ys: seq<real>, a: real, b: real, r: real)
    requires IsRoot(root) && Line(xs, ys, a, b) && |xs| > 0 && !Constant(xs) && a != 0.0
    requires IsQuotient(r, Products(xs, ys, Mean(xs), Mean(ys)), Denominator(root, SeriesSse(xs), SeriesSse(ys)))
    ensures r == if a > 0.0 then 1.0 else -1.0
  {
    SumsOnLine(xs, ys, a, b);
    var s, t, n := SeriesSse(xs), SeriesSse(ys), Products(xs, ys, Mean(xs), Mean(ys));
    RootOfProduct(root, s, t);
    Scaled(a, s);
    Scaled(a * a, s);
    QuotientOnLine(r, s, a, n, Denominator(root, s, t), s * t);
  }
}
