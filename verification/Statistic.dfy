/** Mean, squared deviation and regression slope, over exact reals. */
module Statistic {
  import opened Wrappers

  /** The sum of `f(0)`, ..., `f(n - 1)`. */
  function Total(f: int -> real, n: nat): real {
    if n == 0 then 0.0 else Total(f, n - 1) + f(n - 1)
  }

  function At(xs: seq<real>, i: int): real {
    if 0 <= i < |xs| then xs[i] else 0.0
  }

  function Square(x: real): real { x * x }

  function Product(x: real, y: real): real { x * y }

  function Items(xs: seq<real>): int -> real { i => At(xs, i) }

  function One(): int -> real { i => 1.0 }

  function Deviation(xs: seq<real>, m: real): int -> real { i => At(xs, i) - m }

  function SquaredDeviation(xs: seq<real>, m: real): int -> real { i => Square(At(xs, i) - m) }

  function CrossDeviation(xs: seq<real>, xm: real, ys: seq<real>, ym: real): int -> real {
    i => Product(At(xs, i) - xm, At(ys, i) - ym)
  }

  /** The squared residuals of the line `y = a + b x`. */
  function SquaredResidual(xs: seq<real>, ys: seq<real>, a: real, b: real): int -> real {
    i => Square(At(ys, i) - (a + b * At(xs, i)))
  }

  predicate IsMean(m: real, xs: seq<real>) {
    Product(m, |xs| as real) == Total(Items(xs), |xs|)
  }

  // ---------- The computations; `None` stands for a result that is not a finite number ----------

  method CalculateMean(samples: seq<real>) returns (mean: Option<real>)
    ensures mean.Some? <==> samples != []
    ensures mean.Some? ==> IsMean(mean.value, samples)
  {
    var total := 0.0;
    for i := 0 to |samples|
      invariant total == Total(Items(samples), i)
    {
      total := total + samples[i];
    }
    if |samples| == 0 { return None; }
    mean := Some(Divide(total, |samples| as real));
  }

  /** The square of the standard deviation. */
  method CalculateVariance(samples: seq<real>, mean: real) returns (variance: Option<real>)
    ensures variance.Some? <==> samples != []
    ensures variance.Some? ==>
              Product(variance.value, |samples| as real) == Total(SquaredDeviation(samples, mean), |samples|)
  {
    var deviation := 0.0;
    for i := 0 to |samples|
      invariant deviation == Total(SquaredDeviation(samples, mean), i)
    {
      deviation := deviation + Square(samples[i] - mean);
    }
    if |samples| == 0 { return None; }
    variance := Some(Divide(deviation, |samples| as real));
  }

  /** `root` gives the square root of every number that has one. */
  ghost predicate IsSquareRoot(root: real -> real) {
    forall x :: x >= 0.0 ==> root(x) >= 0.0 && Square(root(x)) == x
  }

  method CalculateStandardDeviation(samples: seq<real>, mean: real, root: real -> real) returns (deviation: Option<real>)
    requires IsSquareRoot(root)
    ensures deviation.Some? <==> samples != []
    ensures deviation.Some? ==>
              && deviation.value >= 0.0
              && Product(Square(deviation.value), |samples| as real) == Total(SquaredDeviation(samples, mean), |samples|)
  {
    var variance := CalculateVariance(samples, mean);
    if variance.None? { return None; }
    SpreadSign(samples, mean, |samples|);
    QuotientSign(variance.value, |samples| as real);
    deviation := Some(root(variance.value));
  }

  method CalculateRegressionSlope(xValues: seq<real>, xMean: real, yValues: seq<real>, yMean: real)
      returns (slope: Option<real>)
    ensures slope.Some? <==>
              |xValues| <= |yValues| && Total(SquaredDeviation(xValues, xMean), |xValues|) != 0.0
    ensures slope.Some? ==>
              slope.value == Divide(Total(CrossDeviation(xValues, xMean, yValues, yMean), |xValues|),
                                    Total(SquaredDeviation(xValues, xMean), |xValues|))
  {
    if |yValues| < |xValues| { return None; }
    var dividendSum, divisorSum := 0.0, 0.0;
    for i := 0 to |xValues|
      invariant dividendSum == Total(CrossDeviation(xValues, xMean, yValues, yMean), i)
      invariant divisorSum == Total(SquaredDeviation(xValues, xMean), i)
    {
      dividendSum := dividendSum + Product(xValues[i] - xMean, yValues[i] - yMean);
      divisorSum := divisorSum + Square(xValues[i] - xMean);
    }
    if divisorSum == 0.0 { return None; }
    slope := Some(Divide(dividendSum, divisorSum));
  }

  function Divide(a: real, b: real): (q: real)
    requires b != 0.0
    ensures Product(q, b) == a
  {
    a / b
  }

  // ---------- Sums are linear ----------

  lemma Distribute(a: real, b: real, c: real)
    ensures a * (b + c) == a * b + a * c
  {
  }

  function Mix(f: real, k: real, g: real, l: real, q: real): real { f + k * g + l * q }

  ghost predicate Linear(h: int -> real, f: int -> real, k: real, g: int -> real, l: real, q: int -> real) {
    forall i :: h(i) == Mix(f(i), k, g(i), l, q(i))
  }

  lemma MixAdds(f: real, k: real, g: real, l: real, q: real, f': real, g': real, q': real)
    ensures Mix(f, k, g, l, q) + Mix(f', k, g', l, q') == Mix(f + f', k, g + g', l, q + q')
  {
    Distribute(k, g, g');
    Distribute(l, q, q');
  }

  lemma {:induction false} TotalLinear(
      h: int -> real, f: int -> real, k: real, g: int -> real, l: real, q: int -> real, n: nat)
    requires Linear(h, f, k, g, l, q)
    ensures Total(h, n) == Mix(Total(f, n), k, Total(g, n), l, Total(q, n))
  {
    if n > 0 {
      TotalLinear(h, f, k, g, l, q, n - 1);
      MixAdds(Total(f, n - 1), k, Total(g, n - 1), l, Total(q, n - 1), f(n - 1), g(n - 1), q(n - 1));
    }
  }

  lemma {:induction false} TotalOne(n: nat)
    ensures Total(One(), n) == n as real
  {
    if n > 0 {
      TotalOne(n - 1);
    }
  }

  // ---------- Squares ----------

  lemma ProductSign(a: real, b: real) returns (p: real)
    requires (a > 0.0 && b > 0.0) || (a < 0.0 && b < 0.0)
    ensures p == a * b && p > 0.0
  {
    p := a * b;
  }

  lemma SquareSign(c: real)
    ensures c != 0.0 ==> Square(c) > 0.0
    ensures c == 0.0 ==> Square(c) == 0.0
  {
    if c != 0.0 { var p := ProductSign(c, c); }
  }

  /** A sum of squares of shifted terms exceeds the original sum by a weight times a square. */
  lemma TotalExcess(
      h: int -> real, f: int -> real, k: real, g: int -> real, c: real, q: int -> real, n: nat) returns (excess: real)
    requires Linear(h, f, k, g, Square(c), q)
    requires Total(g, n) == 0.0 && Total(q, n) > 0.0
    ensures Total(h, n) == Total(f, n) + excess
    ensures excess >= 0.0 && (excess == 0.0 <==> c == 0.0)
  {
    TotalLinear(h, f, k, g, Square(c), q, n);
    excess := ExcessOf(Total(h, n), Total(f, n), k, c, Total(q, n));
  }

  lemma ExcessOf(h: real, f: real, k: real, c: real, q: real) returns (excess: real)
    requires h == Mix(f, k, 0.0, Square(c), q) && q > 0.0
    ensures h == f + excess && excess >= 0.0 && (excess == 0.0 <==> c == 0.0)
  {
    excess := Square(c) * q;
    SquareSign(c);
    if c != 0.0 { var p := ProductSign(Square(c), q); }
  }

  /** A sum of differences vanishes when both sides agree. */
  lemma TotalVanishes(h: int -> real, f: int -> real, k: real, g: int -> real, n: nat)
    requires Linear(h, f, -k, g, 0.0, g)
    requires Total(f, n) == Product(k, Total(g, n))
    ensures Total(h, n) == 0.0
  {
    TotalLinear(h, f, -k, g, 0.0, g, n);
    assert (-k) * Total(g, n) == -(k * Total(g, n));
  }

  /** Deviations from the mean add up to zero. */
  lemma DeviationsVanish(xs: seq<real>, m: real)
    requires IsMean(m, xs)
    ensures Total(Deviation(xs, m), |xs|) == 0.0
  {
    forall i ensures Deviation(xs, m)(i) == Mix(Items(xs)(i), -m, One()(i), 0.0, One()(i)) {
      assert Deviation(xs, m)(i) == At(xs, i) - m;
    }
    TotalOne(|xs|);
    TotalVanishes(Deviation(xs, m), Items(xs), m, One(), |xs|);
  }

  // ---------- The mean minimises the squared deviation ----------

  lemma ShiftedSquare(x: real, m: real, p: real)
    ensures Square(x - p) == Mix(Square(x - m), 2.0 * (m - p), x - m, Square(m - p), 1.0)
  {
    var u, c := x - m, m - p;
    assert x - p == u + c;
    assert Square(u + c) == Square(u) + 2.0 * c * u + Square(c);
  }

  lemma DeviationLinear(xs: seq<real>, m: real, p: real)
    ensures Linear(SquaredDeviation(xs, p), SquaredDeviation(xs, m), 2.0 * (m - p), Deviation(xs, m),
                   Square(m - p), One())
  {
    forall i
      ensures SquaredDeviation(xs, p)(i)
           == Mix(SquaredDeviation(xs, m)(i), 2.0 * (m - p), Deviation(xs, m)(i), Square(m - p), One()(i))
    {
      ShiftedSquare(At(xs, i), m, p);
    }
  }

  /** The squared deviation from the mean is smaller than from any other number. */
  lemma MeanMinimises(xs: seq<real>, m: real, p: real)
    requires xs != [] && IsMean(m, xs)
    ensures Total(SquaredDeviation(xs, m), |xs|) <= Total(SquaredDeviation(xs, p), |xs|)
    ensures Total(SquaredDeviation(xs, m), |xs|) == Total(SquaredDeviation(xs, p), |xs|) <==> p == m
  {
    DeviationLinear(xs, m, p);
    DeviationsVanish(xs, m);
    TotalOne(|xs|);
    var excess := TotalExcess(SquaredDeviation(xs, p), SquaredDeviation(xs, m), 2.0 * (m - p), Deviation(xs, m),
                              m - p, One(), |xs|);
  }

  // ---------- The slope minimises the squared residuals ----------

  function Centred(x: real, xm: real, y: real, ym: real, b: real): real { (y - ym) - b * (x - xm) }

  /** The residuals of the line with slope `b` through the means; their squares; and against x. */
  function CentredResidual(xs: seq<real>, xm: real, ys: seq<real>, ym: real, b: real): int -> real {
    i => Centred(At(xs, i), xm, At(ys, i), ym, b)
  }

  function SquaredCentred(xs: seq<real>, xm: real, ys: seq<real>, ym: real, b: real): int -> real {
    i => Square(Centred(At(xs, i), xm, At(ys, i), ym, b))
  }

  function CentredCross(xs: seq<real>, xm: real, ys: seq<real>, ym: real, b: real): int -> real {
    i => Centred(At(xs, i), xm, At(ys, i), ym, b) * (At(xs, i) - xm)
  }

  lemma OffsetResidual(x: real, xm: real, y: real, ym: real, a: real, b: real, c: real)
    requires c == ym - a - b * xm
    ensures Square(y - (a + b * x))
         == Mix(Square(Centred(x, xm, y, ym, b)), 2.0 * c, Centred(x, xm, y, ym, b), Square(c), 1.0)
  {
    var r := Centred(x, xm, y, ym, b);
    assert y - (a + b * x) == r + c;
    assert Square(r + c) == Square(r) + 2.0 * c * r + Square(c);
  }

  lemma ResidualLinear(xs: seq<real>, xm: real, ys: seq<real>, ym: real, a: real, b: real, c: real)
    requires c == ym - a - b * xm
    ensures Linear(SquaredResidual(xs, ys, a, b), SquaredCentred(xs, xm, ys, ym, b), 2.0 * c,
                   CentredResidual(xs, xm, ys, ym, b), Square(c), One())
  {
    forall i
      ensures SquaredResidual(xs, ys, a, b)(i)
           == Mix(SquaredCentred(xs, xm, ys, ym, b)(i), 2.0 * c, CentredResidual(xs, xm, ys, ym, b)(i),
                  Square(c), One()(i))
    {
      OffsetResidual(At(xs, i), xm, At(ys, i), ym, a, b, c);
    }
  }

  lemma CentredVanishes(xs: seq<real>, xm: real, ys: seq<real>, ym: real, b: real)
    requires |xs| == |ys| && IsMean(xm, xs) && IsMean(ym, ys)
    ensures Total(CentredResidual(xs, xm, ys, ym, b), |xs|) == 0.0
  {
    forall i
      ensures CentredResidual(xs, xm, ys, ym, b)(i)
           == Mix(Deviation(ys, ym)(i), -b, Deviation(xs, xm)(i), 0.0, Deviation(xs, xm)(i))
    {
      assert (-b) * (At(xs, i) - xm) == -(b * (At(xs, i) - xm));
    }
    DeviationsVanish(xs, xm);
    DeviationsVanish(ys, ym);
    TotalVanishes(CentredResidual(xs, xm, ys, ym, b), Deviation(ys, ym), b, Deviation(xs, xm), |xs|);
  }

  /** Moving a line away from the means adds a weighted square of its distance from them. */
  lemma ResidualsOfLine(xs: seq<real>, xm: real, ys: seq<real>, ym: real, a: real, b: real, c: real)
      returns (excess: real)
    requires xs != [] && |xs| == |ys| && IsMean(xm, xs) && IsMean(ym, ys) && c == ym - a - b * xm
    ensures Total(SquaredResidual(xs, ys, a, b), |xs|) == Total(SquaredCentred(xs, xm, ys, ym, b), |xs|) + excess
    ensures excess >= 0.0 && (excess == 0.0 <==> c == 0.0)
  {
    ResidualLinear(xs, xm, ys, ym, a, b, c);
    CentredVanishes(xs, xm, ys, ym, b);
    TotalOne(|xs|);
    excess := TotalExcess(SquaredResidual(xs, ys, a, b), SquaredCentred(xs, xm, ys, ym, b), 2.0 * c,
                          CentredResidual(xs, xm, ys, ym, b), c, One(), |xs|);
  }

  lemma SquareOfSum(r: real, d: real, u: real)
    ensures Square(r + d * u) == Square(r) + (2.0 * d) * (r * u) + Square(d) * Square(u)
  {
  }

  lemma TurnedResidual(x: real, xm: real, y: real, ym: real, m: real, b: real)
    ensures Square(Centred(x, xm, y, ym, b))
         == Mix(Square(Centred(x, xm, y, ym, m)), 2.0 * (m - b), Centred(x, xm, y, ym, m) * (x - xm),
                Square(m - b), Square(x - xm))
  {
    var r, d, u := Centred(x, xm, y, ym, m), m - b, x - xm;
    TurnedBy(y - ym, u, m, b);
    SquareOfSum(r, d, u);
  }

  lemma TurnedBy(v: real, u: real, m: real, b: real)
    ensures v - b * u == (v - m * u) + (m - b) * u
  {
  }

  lemma TurnLinear(xs: seq<real>, xm: real, ys: seq<real>, ym: real, m: real, b: real)
    ensures Linear(SquaredCentred(xs, xm, ys, ym, b), SquaredCentred(xs, xm, ys, ym, m), 2.0 * (m - b),
                   CentredCross(xs, xm, ys, ym, m), Square(m - b), SquaredDeviation(xs, xm))
  {
    forall i
      ensures SquaredCentred(xs, xm, ys, ym, b)(i)
           == Mix(SquaredCentred(xs, xm, ys, ym, m)(i), 2.0 * (m - b), CentredCross(xs, xm, ys, ym, m)(i),
                  Square(m - b), SquaredDeviation(xs, xm)(i))
    {
      TurnedResidual(At(xs, i), xm, At(ys, i), ym, m, b);
    }
  }

  lemma CrossTerm(x: real, xm: real, y: real, ym: real, m: real)
    ensures Centred(x, xm, y, ym, m) * (x - xm) == Mix(Product(x - xm, y - ym), -m, Square(x - xm), 0.0, Square(x - xm))
  {
    var u, v := x - xm, y - ym;
    assert (v - m * u) * u == u * v - m * (u * u);
    assert (-m) * Square(u) == -(m * (u * u));
  }

  lemma CrossLinear(xs: seq<real>, xm: real, ys: seq<real>, ym: real, m: real)
    ensures Linear(CentredCross(xs, xm, ys, ym, m), CrossDeviation(xs, xm, ys, ym), -m, SquaredDeviation(xs, xm),
                   0.0, SquaredDeviation(xs, xm))
  {
    forall i
      ensures CentredCross(xs, xm, ys, ym, m)(i)
           == Mix(CrossDeviation(xs, xm, ys, ym)(i), -m, SquaredDeviation(xs, xm)(i), 0.0, SquaredDeviation(xs, xm)(i))
    {
      CrossTerm(At(xs, i), xm, At(ys, i), ym, m);
    }
  }

  lemma CrossVanishes(xs: seq<real>, xm: real, ys: seq<real>, ym: real, m: real)
    requires Product(m, Total(SquaredDeviation(xs, xm), |xs|)) == Total(CrossDeviation(xs, xm, ys, ym), |xs|)
    ensures Total(CentredCross(xs, xm, ys, ym, m), |xs|) == 0.0
  {
    CrossLinear(xs, xm, ys, ym, m);
    TotalVanishes(CentredCross(xs, xm, ys, ym, m), CrossDeviation(xs, xm, ys, ym), m, SquaredDeviation(xs, xm), |xs|);
  }

  /** Turning a line about the means away from slope `m` adds a weighted square of the turn. */
  lemma {:induction false} ResidualsOfSlope(xs: seq<real>, xm: real, ys: seq<real>, ym: real, m: real, b: real)
      returns (excess: real)
    requires Total(SquaredDeviation(xs, xm), |xs|) > 0.0
    requires Product(m, Total(SquaredDeviation(xs, xm), |xs|)) == Total(CrossDeviation(xs, xm, ys, ym), |xs|)
    ensures Total(SquaredCentred(xs, xm, ys, ym, b), |xs|) == Total(SquaredCentred(xs, xm, ys, ym, m), |xs|) + excess
    ensures excess >= 0.0 && (excess == 0.0 <==> m - b == 0.0)
  {
    TurnLinear(xs, xm, ys, ym, m, b);
    CrossVanishes(xs, xm, ys, ym, m);
    excess := TotalExcess(SquaredCentred(xs, xm, ys, ym, b), SquaredCentred(xs, xm, ys, ym, m), 2.0 * (m - b),
                          CentredCross(xs, xm, ys, ym, m), m - b, SquaredDeviation(xs, xm), |xs|);
  }

  /**
   * With true means and x values that are not all equal, the line with the computed slope
   * through the means has the least squared residuals, and no other line does as well.
   */
  lemma SlopeMinimises(xs: seq<real>, xm: real, ys: seq<real>, ym: real, m: real, a: real, b: real)
    requires |xs| == |ys| && IsMean(xm, xs) && IsMean(ym, ys)
    requires Total(SquaredDeviation(xs, xm), |xs|) != 0.0
    requires Product(m, Total(SquaredDeviation(xs, xm), |xs|)) == Total(CrossDeviation(xs, xm, ys, ym), |xs|)
    ensures var best := Total(SquaredResidual(xs, ys, ym - m * xm, m), |xs|);
            var other := Total(SquaredResidual(xs, ys, a, b), |xs|);
            best <= other && (best == other <==> b == m && a == ym - m * xm)
  {
    SpreadSign(xs, xm, |xs|);
    var e0 := ResidualsOfLine(xs, xm, ys, ym, ym - m * xm, m, 0.0);
    var e1 := ResidualsOfLine(xs, xm, ys, ym, a, b, ym - a - b * xm);
    var e2 := ResidualsOfSlope(xs, xm, ys, ym, m, b);
    Intercept(ym, a, b, m, xm);
  }

  lemma Intercept(ym: real, a: real, b: real, m: real, xm: real)
    ensures m - b == 0.0 && ym - a - b * xm == 0.0 <==> b == m && a == ym - m * xm
  {
  }

  /** The standard deviation from the mean is smaller than from any other centre. */
  lemma DeviationIsLeast(xs: seq<real>, m: real, p: real, dm: real, dp: real)
    requires xs != [] && IsMean(m, xs) && dm >= 0.0 && dp >= 0.0
    requires Product(Square(dm), |xs| as real) == Total(SquaredDeviation(xs, m), |xs|)
    requires Product(Square(dp), |xs| as real) == Total(SquaredDeviation(xs, p), |xs|)
    ensures dm <= dp && (dm == dp <==> m == p)
  {
    MeanMinimises(xs, m, p);
    ProductOrder(Square(dm), Square(dp), |xs| as real);
    SquareOrder(dm, dp);
  }

  lemma ProductOrder(a: real, b: real, c: real)
    requires c > 0.0
    ensures Product(a, c) <= Product(b, c) <==> a <= b
    ensures Product(a, c) == Product(b, c) <==> a == b
  {
    QuotientSign(b - a, c);
    assert Product(b - a, c) == Product(b, c) - Product(a, c);
  }

  lemma QuotientSign(q: real, b: real)
    requires b > 0.0
    ensures Product(q, b) >= 0.0 <==> q >= 0.0
    ensures Product(q, b) == 0.0 <==> q == 0.0
  {
    if q > 0.0 { assert Product(q, b) > 0.0; } else if q < 0.0 { assert Product(q, b) < 0.0; }
  }

  lemma SquareOrder(a: real, b: real)
    requires a >= 0.0 && b >= 0.0
    ensures Square(a) <= Square(b) <==> a <= b
    ensures Square(a) == Square(b) <==> a == b
  {
    assert Square(b) - Square(a) == Product(b - a, b + a);
    if a + b > 0.0 {
      QuotientSign(b - a, b + a);
    }
  }

  /** The squared deviation is zero exactly when every value equals the centre. */
  lemma {:induction false} SpreadSign(xs: seq<real>, m: real, n: nat)
    requires n <= |xs|
    ensures Total(SquaredDeviation(xs, m), n) >= 0.0
    ensures Total(SquaredDeviation(xs, m), n) == 0.0 <==> forall i :: 0 <= i < n ==> xs[i] == m
  {
    if n > 0 {
      SpreadSign(xs, m, n - 1);
      SquareSign(xs[n - 1] - m);
    }
  }
}
