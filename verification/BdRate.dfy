/**
 The Bjontegaard rate difference of two curves (xtask/src/bd_rate.rs), over exact reals, and the
 laws it owes to the least-squares fit. Logarithm and exponential are parameters.
 */
module BdRate {
  import opened Wrappers
  import opened CubicFit
  import opened LeastSquares

  function Min(a: real, b: real): real { if a <= b then a else b }
  function Max(a: real, b: real): real { if a <= b then b else a }

  function Lowest(points: seq<Point>): real
    requires points != []
  {
    if |points| == 1 then points[0].psnr else Min(points[0].psnr, Lowest(points[1..]))
  }

  function Highest(points: seq<Point>): real
    requires points != []
  {
    if |points| == 1 then points[0].psnr else Max(points[0].psnr, Highest(points[1..]))
  }

  /** The shared quality range; an empty curve shares none. */
  function Overlap(anchor: seq<Point>, test: seq<Point>): Option<(real, real)> {
    if anchor == [] || test == [] then None
    else
      var lo := Max(Lowest(anchor), Lowest(test));
      var hi := Min(Highest(anchor), Highest(test));
      if hi <= lo then None else Some((lo, hi))
  }

  function Antiderivative(c: Coefficients, x: real): real {
    Mix(c, Pow(x, 1) / 1.0, Pow(x, 2) / 2.0, Pow(x, 3) / 3.0, Pow(x, 4) / 4.0)
  }

  function Integral(points: seq<Point>, ln: real -> real, lo: real, hi: real): Option<real> {
    var c := Fit(points, ln);
    if c.None? then None else Some(Antiderivative(c.value, hi) - Antiderivative(c.value, lo))
  }

  function MeanDifference(test: Option<real>, anchor: Option<real>, width: real): Option<real>
    requires width > 0.0
  {
    if test.None? || anchor.None? then None else Some((test.value - anchor.value) / width)
  }

  /** The mean log-rate difference over the shared range. */
  function LogDifference(anchor: seq<Point>, test: seq<Point>, ln: real -> real): Option<real> {
    var range := Overlap(anchor, test);
    if range.None? then None
    else
      var (lo, hi) := range.value;
      MeanDifference(Integral(test, ln, lo, hi), Integral(anchor, ln, lo, hi), hi - lo)
  }

  function Rate(anchor: seq<Point>, test: seq<Point>, ln: real -> real, exp: real -> real): Option<real> {
    var diff := LogDifference(anchor, test, ln);
    if diff.None? then None else Some(Percent(exp, diff.value))
  }

  /** The factor a percentage difference stands for. */
  function Factor(percent: real): real { 1.0 + percent / 100.0 }

  predicate ExpOfSum(exp: real -> real, x: real, y: real) { exp(x + y) == exp(x) * exp(y) }

  ghost predicate Exponential(exp: real -> real) {
    exp(0.0) == 1.0 && forall x, y :: ExpOfSum(exp, x, y)
  }

  predicate LogOfProduct(ln: real -> real, x: real, y: real) { ln(x * y) == ln(x) + ln(y) }

  ghost predicate Logarithmic(ln: real -> real) {
    forall x, y | x > 0.0 && y > 0.0 :: LogOfProduct(ln, x, y)
  }

  // ---------- swapping the curves inverts the factor ----------

  lemma MeanNegates(t: Option<real>, a: Option<real>, width: real)
    requires width > 0.0
    ensures MeanDifference(t, a, width).None? <==> MeanDifference(a, t, width).None?
    ensures MeanDifference(t, a, width).Some? ==>
      MeanDifference(a, t, width).value == -MeanDifference(t, a, width).value
  {}

  lemma SwapNegates(anchor: seq<Point>, test: seq<Point>, ln: real -> real)
    ensures LogDifference(anchor, test, ln).None? <==> LogDifference(test, anchor, ln).None?
    ensures LogDifference(anchor, test, ln).Some? ==>
      LogDifference(test, anchor, ln).value == -LogDifference(anchor, test, ln).value
  {
    hide Integral;
    assert Overlap(anchor, test) == Overlap(test, anchor);
    if Overlap(anchor, test).Some? {
      var (lo, hi) := Overlap(anchor, test).value;
      MeanNegates(Integral(test, ln, lo, hi), Integral(anchor, ln, lo, hi), hi - lo);
    }
  }

  function Percent(exp: real -> real, diff: real): real { (exp(diff) - 1.0) * 100.0 }

  lemma PercentFactors(exp: real -> real, d: real)
    requires Exponential(exp)
    ensures Factor(Percent(exp, d)) * Factor(Percent(exp, -d)) == 1.0
  {
    assert ExpOfSum(exp, d, -d);
    assert d + -d == 0.0;
    assert Factor(Percent(exp, d)) == exp(d);
    assert Factor(Percent(exp, -d)) == exp(-d);
  }

  /** Swapping the curves is defined in the same cases and gives the reciprocal factor. */
  lemma SwapInverts(anchor: seq<Point>, test: seq<Point>, ln: real -> real, exp: real -> real)
    requires Exponential(exp)
    ensures Rate(anchor, test, ln, exp).None? <==> Rate(test, anchor, ln, exp).None?
    ensures Rate(anchor, test, ln, exp).Some? ==>
      Factor(Rate(anchor, test, ln, exp).value) * Factor(Rate(test, anchor, ln, exp).value) == 1.0
  {
    hide LogDifference;
    SwapNegates(anchor, test, ln);
    var diff := LogDifference(anchor, test, ln);
    if diff.Some? { PercentFactors(exp, diff.value); }
  }

  // ---------- scaling a curve's rates ----------

  function ScaledPoint(q: Point, s: real): Point { Point(q.rate * s, q.psnr) }

  function Scaled(points: seq<Point>, s: real): (r: seq<Point>)
    ensures |r| == |points|
  {
    if points == [] then []
    else Scaled(points[..|points| - 1], s) + [ScaledPoint(points[|points| - 1], s)]
  }

  predicate PositiveRates(points: seq<Point>) {
    forall q | q in points :: q.rate > 0.0
  }

  lemma {:induction false} ScaledPowers(points: seq<Point>, s: real, k: nat)
    ensures PowerSum(Scaled(points, s), k) == PowerSum(points, k)
  {
    if points != [] {
      var rest := points[..|points| - 1];
      ScaledPowers(rest, s, k);
      assert Scaled(points, s)[..|points| - 1] == Scaled(rest, s);
    }
  }

  lemma MomentOfLast(rest: seq<Point>, last: Point, ln: real -> real, k: nat)
    ensures Moment(rest + [last], ln, k) == Moment(rest, ln, k) + ln(last.rate) * Pow(last.psnr, k)
    ensures PowerSum(rest + [last], k) == PowerSum(rest, k) + Pow(last.psnr, k)
  {
    assert (rest + [last])[..|rest + [last]| - 1] == rest;
  }

  lemma ScaledOfLast(rest: seq<Point>, last: Point, s: real)
    ensures Scaled(rest + [last], s) == Scaled(rest, s) + [ScaledPoint(last, s)]
  {
    assert (rest + [last])[..|rest + [last]| - 1] == rest;
  }

  lemma NoMoments(points: seq<Point>, ln: real -> real, s: real, k: nat)
    requires points == [] && s > 0.0
    ensures Moment(Scaled(points, s), ln, k) == Moment(points, ln, k) == 0.0 && PowerSum(points, k) == 0.0
  {}

  lemma {:induction false} ScaledMoments(points: seq<Point>, ln: real -> real, s: real, k: nat)
    requires Logarithmic(ln) && PositiveRates(points) && s > 0.0
    ensures Moment(Scaled(points, s), ln, k) == Moment(points, ln, k) + ln(s) * PowerSum(points, k)
  {
    hide Moment, PowerSum, Scaled, Pow;
    if points == [] {
      NoMoments(points, ln, s, k);
    } else {
      var rest, last := points[..|points| - 1], points[|points| - 1];
      assert points == rest + [last];
      ScaledMoments(rest, ln, s, k);
      assert last in points;
      ScaledMomentStep(rest, last, ln, s, k);
    }
  }

  lemma LogOfScaled(ln: real -> real, q: Point, s: real)
    requires Logarithmic(ln) && q.rate > 0.0 && s > 0.0
    ensures ln(ScaledPoint(q, s).rate) == ln(q.rate) + ln(s)
  {
    assert LogOfProduct(ln, q.rate, s);
  }

  lemma ScaledMomentStep(rest: seq<Point>, last: Point, ln: real -> real, s: real, k: nat)
    requires Logarithmic(ln) && last.rate > 0.0 && s > 0.0
    requires Moment(Scaled(rest, s), ln, k) == Moment(rest, ln, k) + ln(s) * PowerSum(rest, k)
    ensures Moment(Scaled(rest + [last], s), ln, k) == Moment(rest + [last], ln, k) + ln(s) * PowerSum(rest + [last], k)
  {
    hide Pow, Moment, PowerSum, Scaled;
    ScaledOfLast(rest, last, s);
    MomentOfLast(rest, last, ln, k);
    MomentOfLast(Scaled(rest, s), ScaledPoint(last, s), ln, k);
    LogOfScaled(ln, last, s);
    ShiftedTerm(Moment(rest, ln, k), PowerSum(rest, k), ln(last.rate), ln(s), ln(ScaledPoint(last, s).rate),
                Pow(last.psnr, k),
                PowerSum(rest + [last], k));
  }

  lemma ShiftedTerm(moment: real, sum: real, y: real, shift: real, shifted: real, w: real, total: real)
    requires shifted == y + shift && total == sum + w
    ensures (moment + shift * sum) + shifted * w == (moment + y * w) + shift * total
  {
    assert shifted * w == y * w + shift * w;
    assert shift * total == shift * sum + shift * w;
  }

  lemma {:induction false} ScaledQualities(points: seq<Point>, s: real, i: nat)
    requires i < |points|
    ensures Scaled(points, s)[i].psnr == points[i].psnr
  {
    if i < |points| - 1 { ScaledQualities(points[..|points| - 1], s, i); }
  }

  lemma {:induction false} SameQualitiesSameRange(a: seq<Point>, b: seq<Point>)
    requires |a| == |b| > 0 && forall i | 0 <= i < |a| :: a[i].psnr == b[i].psnr
    ensures Lowest(a) == Lowest(b) && Highest(a) == Highest(b)
  {
    if |a| > 1 { SameQualitiesSameRange(a[1..], b[1..]); }
  }

  predicate SameRow(r: Row, n: Row) {
    r[0] == n[0] && r[1] == n[1] && r[2] == n[2] && r[3] == n[3]
  }

  /** Matrices that differ in the right-hand side only. */
  predicate SameLeft(m: Matrix, n: Matrix) {
    forall i | 0 <= i < 4 :: SameRow(m[i], n[i])
  }

  lemma SameEntry(r: Row, n: Row, col: nat)
    requires SameRow(r, n) && col < 4
    ensures r[col] == n[col]
  {}

  lemma {:induction false} SamePivot(m: Matrix, n: Matrix, col: nat, best: nat, next: nat)
    requires SameLeft(m, n) && col < 4 && best < 4 && next <= 4
    ensures PivotFrom(m, col, best, next) == PivotFrom(n, col, best, next)
    decreases 4 - next
  {
    if next < 4 {
      SameEntry(m[best], n[best], col);
      SameEntry(m[next], n[next], col);
      SamePivot(m, n, col, if Abs(m[best][col]) <= Abs(m[next][col]) then next else best, next + 1);
    }
  }

  lemma SameSubtracted(r: Row, n: Row, factor: real, p: Row, q: Row)
    requires SameRow(r, n) && SameRow(p, q)
    ensures SameRow(SubtractRow(r, factor, p), SubtractRow(n, factor, q))
  {
    var a, b := SubtractRow(r, factor, p), SubtractRow(n, factor, q);
    assert a[0] == b[0] && a[1] == b[1] && a[2] == b[2] && a[3] == b[3];
  }

  lemma SameCleared(m: Matrix, n: Matrix, col: nat)
    requires SameLeft(m, n) && col < 4 && m[col][col] != 0.0
    ensures n[col][col] != 0.0 && SameLeft(ClearColumn(m, col), ClearColumn(n, col))
  {
    assert SameRow(m[col], n[col]);
    forall i | 0 <= i < 4 ensures SameRow(ClearedRow(m, col, i), ClearedRow(n, col, i)) {
      assert SameRow(m[i], n[i]);
      SameSubtracted(m[i], n[i], m[i][col] / m[col][col], m[col], n[col]);
    }
  }

  /** Whether elimination succeeds depends on the qualities alone. */
  lemma {:induction false} SameOutcome(m: Matrix, n: Matrix, col: nat)
    requires SameLeft(m, n) && col <= 4
    ensures Reduce(m, col).Some? <==> Reduce(n, col).Some?
    decreases 4 - col
  {
    if col < 4 {
      SamePivot(m, n, col, col, col + 1);
      var pivot := PivotFrom(m, col, col, col + 1);
      var a, b := SwapRows(m, col, pivot), SwapRows(n, col, pivot);
      assert SameRow(m[col], n[col]) && SameRow(m[pivot], n[pivot]);
      assert SameLeft(a, b);
      if Abs(a[col][col]) >= EPSILON {
        SameCleared(a, b, col);
        SameOutcome(ClearColumn(a, col), ClearColumn(b, col), col + 1);
      }
    }
  }

  function Raised(c: Coefficients, shift: real): Coefficients { c.(c0 := c.c0 + shift) }

  lemma RaisedRow(r: Row, n: Row, c: Coefficients, shift: real)
    requires SameRow(r, n)
    requires n[4] == r[4] + shift * r[0] && Dot(r, c) == r[4]
    ensures Dot(n, Raised(c, shift)) == n[4]
  {
    assert n[0] * (c.c0 + shift) == n[0] * c.c0 + shift * r[0];
  }

  lemma ScaledRow(points: seq<Point>, ln: real -> real, s: real, c: Coefficients, k: nat)
    requires Logarithmic(ln) && PositiveRates(points) && s > 0.0
    requires Dot(NormalRow(points, ln, k), c) == NormalRow(points, ln, k)[4]
    ensures Dot(NormalRow(Scaled(points, s), ln, k), Raised(c, ln(s))) == NormalRow(Scaled(points, s), ln, k)[4]
  {
    hide Dot, PowerSum, Moment;
    SameLeftRow(points, ln, s, k);
    ScaledMoments(points, ln, s, k);
    RaisedRow(NormalRow(points, ln, k), NormalRow(Scaled(points, s), ln, k), c, ln(s));
  }

  lemma SameLeftRow(points: seq<Point>, ln: real -> real, s: real, k: nat)
    ensures SameRow(NormalRow(points, ln, k), NormalRow(Scaled(points, s), ln, k))
  {
    ScaledPowers(points, s, k);
    ScaledPowers(points, s, k + 1);
    ScaledPowers(points, s, k + 2);
    ScaledPowers(points, s, k + 3);
  }

  lemma ScaledEquations(points: seq<Point>, ln: real -> real, s: real)
    ensures SameLeft(NormalEquations(points, ln), NormalEquations(Scaled(points, s), ln))
  {
    SameLeftRow(points, ln, s, 0);
    SameLeftRow(points, ln, s, 1);
    SameLeftRow(points, ln, s, 2);
    SameLeftRow(points, ln, s, 3);
  }

  lemma RaisedSolves(points: seq<Point>, ln: real -> real, s: real, c: Coefficients)
    requires Logarithmic(ln) && PositiveRates(points) && s > 0.0
    requires Solves(NormalEquations(points, ln), c)
    ensures Solves(NormalEquations(Scaled(points, s), ln), Raised(c, ln(s)))
  {
    FourRows(NormalEquations(points, ln), c);
    ScaledRow(points, ln, s, c, 0);
    ScaledRow(points, ln, s, c, 1);
    ScaledRow(points, ln, s, c, 2);
    ScaledRow(points, ln, s, c, 3);
    FourRows(NormalEquations(Scaled(points, s), ln), Raised(c, ln(s)));
  }

  /** Scaling every rate raises the fitted constant by the logarithm of the scale, and nothing else. */
  lemma ScaledFit(points: seq<Point>, ln: real -> real, s: real)
    requires Logarithmic(ln) && PositiveRates(points) && s > 0.0
    ensures Fit(Scaled(points, s), ln)
         == if Fit(points, ln).None? then None else Some(Raised(Fit(points, ln).value, ln(s)))
  {
    ScaledEquations(points, ln, s);
    SameOutcome(NormalEquations(points, ln), NormalEquations(Scaled(points, s), ln), 0);
    if Fit(points, ln).Some? {
      var c := Fit(points, ln).value;
      FitSolvesUniquely(points, ln, c);
      RaisedSolves(points, ln, s, c);
      FitSolvesUniquely(Scaled(points, s), ln, Raised(c, ln(s)));
    }
  }

  lemma RaisedIntegral(c: Coefficients, shift: real, x: real)
    ensures Antiderivative(Raised(c, shift), x) == Antiderivative(c, x) + shift * x
  {
    assert Pow(x, 1) == x;
    assert (c.c0 + shift) * (x / 1.0) == c.c0 * (x / 1.0) + shift * x;
  }

  /** A curve whose rates are all multiplied by s differs from the original by exactly (s-1)*100 percent. */
  lemma ScaledCurveRate(points: seq<Point>, ln: real -> real, exp: real -> real, s: real)
    requires Logarithmic(ln) && PositiveRates(points) && s > 0.0
    requires exp(ln(s)) == s
    ensures Rate(points, Scaled(points, s), ln, exp)
         == if Overlap(points, points).None? || Fit(points, ln).None? then None else Some((s - 1.0) * 100.0)
  {
    hide LogDifference, Fit, Overlap, Scaled;
    ScaledDifference(points, ln, s);
  }

  lemma ScaledDifference(points: seq<Point>, ln: real -> real, s: real)
    requires Logarithmic(ln) && PositiveRates(points) && s > 0.0
    ensures LogDifference(points, Scaled(points, s), ln)
         == if Overlap(points, points).None? || Fit(points, ln).None? then None else Some(ln(s))
  {
    hide Fit, Antiderivative, MeanDifference, Scaled;
    ScaledFit(points, ln, s);
    MeanIsMissing();
    if points != [] {
      ScaledOverlap(points, s);
      if Overlap(points, points).Some? && Fit(points, ln).Some? {
        var (lo, hi) := Overlap(points, points).value;
        ScaledMean(Fit(points, ln).value, ln(s), lo, hi);
      }
    }
  }

  lemma MeanIsMissing()
    ensures forall test, anchor, width: real | width > 0.0 && (test == None || anchor == None) ::
        MeanDifference(test, anchor, width) == None
  {}

  lemma ScaledOverlap(points: seq<Point>, s: real)
    requires points != []
    ensures Overlap(points, Scaled(points, s)) == Overlap(points, points)
  {
    forall i | 0 <= i < |points| ensures Scaled(points, s)[i].psnr == points[i].psnr { ScaledQualities(points, s, i); }
    SameQualitiesSameRange(points, Scaled(points, s));
  }

  /** A raised curve lies above the original by its shift on average. */
  lemma ScaledMean(c: Coefficients, shift: real, lo: real, hi: real)
    requires lo < hi
    ensures MeanDifference(Some(Antiderivative(Raised(c, shift), hi) - Antiderivative(Raised(c, shift), lo)),
                           Some(Antiderivative(c, hi) - Antiderivative(c, lo)), hi - lo) == Some(shift)
  {
    hide Antiderivative;
    RaisedIntegral(c, shift, lo);
    RaisedIntegral(c, shift, hi);
    var gain := (Antiderivative(Raised(c, shift), hi) - Antiderivative(Raised(c, shift), lo))
              - (Antiderivative(c, hi) - Antiderivative(c, lo));
    assert gain == shift * hi - shift * lo == shift * (hi - lo);
    Quotient(shift, hi - lo, gain);
  }

  lemma Quotient(x: real, y: real, product: real)
    requires y != 0.0 && product == x * y
    ensures product / y == x
  {}
}
