/**
 What the BD-rate averages (xtask/src/bd_rate.rs): the mean difference of the two fitted cubics over the
 qualities both curves reach, told without the antiderivative the code integrates with.
 */
module MeanRate {
  import opened Wrappers
  import opened CubicFit
  import opened LeastSquares
  import opened BdRate

  // ---------- the shared range ----------

  /** The quality lies between two qualities of the curve. */
  ghost predicate Spans(points: seq<Point>, x: real) {
    exists i, j | 0 <= i < |points| && 0 <= j < |points| :: points[i].psnr <= x <= points[j].psnr
  }

  ghost predicate Shared(anchor: seq<Point>, test: seq<Point>, x: real) { Spans(anchor, x) && Spans(test, x) }

  /** The shared qualities are those from lo to hi. */
  ghost predicate Bounds(anchor: seq<Point>, test: seq<Point>, lo: real, hi: real) {
    forall x :: lo <= x <= hi <==> Shared(anchor, test, x)
  }

  ghost predicate TwoShared(anchor: seq<Point>, test: seq<Point>) {
    exists x, y :: Shared(anchor, test, x) && Shared(anchor, test, y) && x != y
  }

  lemma {:induction false} LowestIs(points: seq<Point>)
    requires points != []
    ensures exists i | 0 <= i < |points| :: points[i].psnr == Lowest(points)
    ensures forall i | 0 <= i < |points| :: Lowest(points) <= points[i].psnr
  {
    if |points| == 1 {
      assert points[0].psnr == Lowest(points);
    } else {
      LowestIs(points[1..]);
      var j :| 0 <= j < |points[1..]| && points[1..][j].psnr == Lowest(points[1..]);
      assert points[j + 1].psnr == Lowest(points[1..]);
      assert Lowest(points) == points[0].psnr || Lowest(points) == points[j + 1].psnr;
      forall i | 0 < i < |points| ensures Lowest(points) <= points[i].psnr { assert points[i] == points[1..][i - 1]; }
    }
  }

  lemma {:induction false} HighestIs(points: seq<Point>)
    requires points != []
    ensures exists i | 0 <= i < |points| :: points[i].psnr == Highest(points)
    ensures forall i | 0 <= i < |points| :: Highest(points) >= points[i].psnr
  {
    if |points| == 1 {
      assert points[0].psnr == Highest(points);
    } else {
      HighestIs(points[1..]);
      var j :| 0 <= j < |points[1..]| && points[1..][j].psnr == Highest(points[1..]);
      assert points[j + 1].psnr == Highest(points[1..]);
      assert Highest(points) == points[0].psnr || Highest(points) == points[j + 1].psnr;
      forall i | 0 < i < |points| ensures Highest(points) >= points[i].psnr { assert points[i] == points[1..][i - 1]; }
    }
  }

  lemma SpansBetween(points: seq<Point>, x: real)
    ensures Spans(points, x) <==> points != [] && Lowest(points) <= x <= Highest(points)
  {
    if points != [] {
      LowestIs(points);
      HighestIs(points);
      var i :| 0 <= i < |points| && points[i].psnr == Lowest(points);
      var j :| 0 <= j < |points| && points[j].psnr == Highest(points);
      if Lowest(points) <= x <= Highest(points) { assert points[i].psnr <= x <= points[j].psnr; }
    }
  }

  /** The range integrated over is exactly the set of shared qualities; there is none unless two are shared. */
  lemma OverlapIsShared(anchor: seq<Point>, test: seq<Point>)
    ensures Overlap(anchor, test).Some? ==> var (lo, hi) := Overlap(anchor, test).value;
              lo < hi && Bounds(anchor, test, lo, hi)
    ensures Overlap(anchor, test).Some? <==> TwoShared(anchor, test)
  {
    hide Spans, Lowest, Highest;
    forall x ensures Spans(anchor, x) <==> anchor != [] && Lowest(anchor) <= x <= Highest(anchor) {
      SpansBetween(anchor, x);
    }
    forall x ensures Spans(test, x) <==> test != [] && Lowest(test) <= x <= Highest(test) { SpansBetween(test, x); }
    if Overlap(anchor, test).Some? {
      var (lo, hi) := Overlap(anchor, test).value;
      assert Shared(anchor, test, lo) && Shared(anchor, test, hi);
    }
  }

  // ---------- the mean of a cubic ----------

  /** The mean of a cubic over a range, by Simpson's rule, which is exact for cubics. */
  function Mean(c: Coefficients, lo: real, hi: real): real {
    (Cubic(c, lo) + 4.0 * Cubic(c, (lo + hi) / 2.0) + Cubic(c, hi)) / 6.0
  }

  lemma SquareMean(m: real, h: real)
    ensures ((m + h) * (m + h) - (m - h) * (m - h)) / 2.0 == 2.0 * h * m
  {
    assert (m + h) * (m + h) - (m - h) * (m - h) == 4.0 * (h * m);
  }

  lemma CubeMean(m: real, h: real)
    ensures ((m + h) * ((m + h) * (m + h)) - (m - h) * ((m - h) * (m - h))) / 3.0
         == 2.0 * h * (((m - h) * (m - h) + 4.0 * (m * m) + (m + h) * (m + h)) / 6.0)
  {
    assert (m + h) * (m + h) == m * m + 2.0 * (m * h) + h * h;
    assert (m - h) * (m - h) == m * m - 2.0 * (m * h) + h * h;
    assert (m + h) * ((m + h) * (m + h)) - (m - h) * ((m - h) * (m - h)) == 6.0 * (h * (m * m)) + 2.0 * (h * (h * h));
    assert 2.0 * h * ((6.0 * (m * m) + 2.0 * (h * h)) / 6.0) == 2.0 * (h * (m * m)) + 2.0 * (h * (h * h)) / 3.0;
  }

  lemma FourthMean(m: real, h: real)
    ensures ((m + h) * ((m + h) * ((m + h) * (m + h))) - (m - h) * ((m - h) * ((m - h) * (m - h)))) / 4.0
         == 2.0 * h * (((m - h) * ((m - h) * (m - h)) + 4.0 * (m * (m * m)) + (m + h) * ((m + h) * (m + h))) / 6.0)
  {
    assert (m + h) * (m + h) == m * m + 2.0 * (m * h) + h * h;
    assert (m - h) * (m - h) == m * m - 2.0 * (m * h) + h * h;
    var p, q := m * (m * m) + 3.0 * (h * (h * m)), 3.0 * (m * (m * h)) + h * (h * h);
    assert (m + h) * ((m + h) * (m + h)) == p + q;
    assert (m - h) * ((m - h) * (m - h)) == p - q;
    assert (m + h) * (p + q) - (m - h) * (p - q) == 2.0 * (m * q) + 2.0 * (h * p);
    assert m * q == 3.0 * (h * (m * (m * m))) + h * (h * (h * m));
    assert h * p == h * (m * (m * m)) + 3.0 * (h * (h * (h * m)));
    assert 2.0 * h * ((2.0 * p + 4.0 * (m * (m * m))) / 6.0) == 2.0 * (h * (m * (m * m))) + 2.0 * (h * (h * (h * m)));
  }

  lemma FourPowers(x: real)
    ensures Pow(x, 0) == 1.0 && Pow(x, 1) == x && Pow(x, 2) == x * x && Pow(x, 3) == x * (x * x)
    ensures Pow(x, 4) == x * (x * (x * x))
  {
    assert Pow(x, 2) == x * Pow(x, 1) && Pow(x, 3) == x * Pow(x, 2) && Pow(x, 4) == x * Pow(x, 3);
  }

  lemma Weighed(c: Coefficients, w: real, x0: real, x1: real, x2: real, x3: real,
                y0: real, y1: real, y2: real, y3: real)
    requires x0 == w * y0 && x1 == w * y1 && x2 == w * y2 && x3 == w * y3
    ensures Mix(c, x0, x1, x2, x3) == w * Mix(c, y0, y1, y2, y3)
  {
    assert c.c0 * (w * y0) == w * (c.c0 * y0) && c.c1 * (w * y1) == w * (c.c1 * y1);
    assert c.c2 * (w * y2) == w * (c.c2 * y2) && c.c3 * (w * y3) == w * (c.c3 * y3);
  }

  lemma MixMinus(c: Coefficients, x0: real, x1: real, x2: real, x3: real, y0: real, y1: real, y2: real, y3: real)
    ensures Mix(c, x0, x1, x2, x3) - Mix(c, y0, y1, y2, y3) == Mix(c, x0 - y0, x1 - y1, x2 - y2, x3 - y3)
  {}

  /** The integrals of the powers, and their means. */
  function Gain(lo: real, hi: real, k: nat): real
    requires 0 < k <= 4
  {
    Pow(hi, k) / (k as real) - Pow(lo, k) / (k as real)
  }

  function PowerMean(lo: real, hi: real, k: nat): real {
    (Pow(lo, k) + 4.0 * Pow((lo + hi) / 2.0, k) + Pow(hi, k)) / 6.0
  }

  lemma AntiderivativeGains(c: Coefficients, lo: real, hi: real)
    ensures Antiderivative(c, hi) - Antiderivative(c, lo)
         == Mix(c, Gain(lo, hi, 1), Gain(lo, hi, 2), Gain(lo, hi, 3), Gain(lo, hi, 4))
  {
    hide Pow;
    MixMinus(c, Pow(hi, 1) / 1.0, Pow(hi, 2) / 2.0, Pow(hi, 3) / 3.0, Pow(hi, 4) / 4.0,
             Pow(lo, 1) / 1.0, Pow(lo, 2) / 2.0, Pow(lo, 3) / 3.0, Pow(lo, 4) / 4.0);
  }

  lemma MeanIsMixed(c: Coefficients, lo: real, hi: real)
    ensures Mean(c, lo, hi)
         == Mix(c, PowerMean(lo, hi, 0), PowerMean(lo, hi, 1), PowerMean(lo, hi, 2), PowerMean(lo, hi, 3))
  {
    hide Pow;
    var m := (lo + hi) / 2.0;
    SixthOf(c.c0, Pow(lo, 0), Pow(m, 0), Pow(hi, 0));
    SixthOf(c.c1, Pow(lo, 1), Pow(m, 1), Pow(hi, 1));
    SixthOf(c.c2, Pow(lo, 2), Pow(m, 2), Pow(hi, 2));
    SixthOf(c.c3, Pow(lo, 3), Pow(m, 3), Pow(hi, 3));
  }

  lemma SixthOf(c: real, a: real, b: real, d: real)
    ensures (c * a + 4.0 * (c * b) + c * d) / 6.0 == c * ((a + 4.0 * b + d) / 6.0)
  {
    assert c * a + 4.0 * (c * b) + c * d == 6.0 * (c * ((a + 4.0 * b + d) / 6.0));
  }

  lemma FirstGain(lo: real, hi: real)
    ensures Gain(lo, hi, 1) == (hi - lo) * PowerMean(lo, hi, 0)
  {
    var m, h := (lo + hi) / 2.0, (hi - lo) / 2.0;
    assert lo == m - h && hi == m + h && hi - lo == 2.0 * h;
    FourPowers(lo);
    FourPowers(m);
    FourPowers(hi);
    hide Pow;
  }

  lemma SecondGain(lo: real, hi: real)
    ensures Gain(lo, hi, 2) == (hi - lo) * PowerMean(lo, hi, 1)
  {
    var m, h := (lo + hi) / 2.0, (hi - lo) / 2.0;
    assert lo == m - h && hi == m + h && hi - lo == 2.0 * h;
    FourPowers(lo);
    FourPowers(m);
    FourPowers(hi);
    hide Pow;
    SquareMean(m, h);
  }

  lemma ThirdGain(lo: real, hi: real)
    ensures Gain(lo, hi, 3) == (hi - lo) * PowerMean(lo, hi, 2)
  {
    var m, h := (lo + hi) / 2.0, (hi - lo) / 2.0;
    assert lo == m - h && hi == m + h && hi - lo == 2.0 * h;
    FourPowers(lo);
    FourPowers(m);
    FourPowers(hi);
    hide Pow;
    CubeMean(m, h);
  }

  lemma FourthGain(lo: real, hi: real)
    ensures Gain(lo, hi, 4) == (hi - lo) * PowerMean(lo, hi, 3)
  {
    var m, h := (lo + hi) / 2.0, (hi - lo) / 2.0;
    assert lo == m - h && hi == m + h && hi - lo == 2.0 * h;
    FourPowers(lo);
    FourPowers(m);
    FourPowers(hi);
    hide Pow;
    FourthMean(m, h);
  }

  /** What is integrated over a range is the range's width times the cubic's mean. */
  lemma IntegralIsMean(c: Coefficients, lo: real, hi: real)
    ensures Antiderivative(c, hi) - Antiderivative(c, lo) == (hi - lo) * Mean(c, lo, hi)
  {
    hide Antiderivative, Mean, Mix, Gain, PowerMean;
    AntiderivativeGains(c, lo, hi);
    MeanIsMixed(c, lo, hi);
    FirstGain(lo, hi);
    SecondGain(lo, hi);
    ThirdGain(lo, hi);
    FourthGain(lo, hi);
    Weighed(c, hi - lo, Gain(lo, hi, 1), Gain(lo, hi, 2), Gain(lo, hi, 3), Gain(lo, hi, 4),
            PowerMean(lo, hi, 0), PowerMean(lo, hi, 1), PowerMean(lo, hi, 2), PowerMean(lo, hi, 3));
  }

  // ---------- the rate ----------

  lemma MeanOfDifference(t: Coefficients, a: Coefficients, lo: real, hi: real)
    requires lo < hi
    ensures ((Antiderivative(t, hi) - Antiderivative(t, lo)) - (Antiderivative(a, hi) - Antiderivative(a, lo)))
         / (hi - lo)
         == Mean(t, lo, hi) - Mean(a, lo, hi)
  {
    hide Antiderivative, Mean;
    IntegralIsMean(t, lo, hi);
    IntegralIsMean(a, lo, hi);
    var w, x, y := hi - lo, Mean(t, lo, hi), Mean(a, lo, hi);
    assert w * x - w * y == (x - y) * w;
    Quotient(x - y, w, w * x - w * y);
  }

  /**
   When the qualities from lo to hi, and no others, are shared, the rate is the percentage that the mean
   difference of the two fitted cubics over them stands for; it is missing exactly when a fit is.
   */
  lemma RateIsMeanDifference(anchor: seq<Point>, test: seq<Point>, ln: real -> real, exp: real -> real,
                             lo: real, hi: real)
    requires lo < hi && Bounds(anchor, test, lo, hi)
    ensures Rate(anchor, test, ln, exp)
         == if Fit(anchor, ln).None? || Fit(test, ln).None? then None
            else Some((exp(Mean(Fit(test, ln).value, lo, hi) - Mean(Fit(anchor, ln).value, lo, hi)) - 1.0) * 100.0)
  {
    hide Fit, Mean, Antiderivative, Overlap, Shared;
    OverlapIsShared(anchor, test);
    assert Shared(anchor, test, lo) && Shared(anchor, test, hi);
    var (low, high) := Overlap(anchor, test).value;
    assert Shared(anchor, test, low) && Shared(anchor, test, high);
    assert low == lo && high == hi;
    if Fit(anchor, ln).Some? && Fit(test, ln).Some? {
      MeanOfDifference(Fit(test, ln).value, Fit(anchor, ln).value, lo, hi);
    }
  }

  /** Curves that share no two qualities have no rate. */
  lemma NoRateWithoutRange(anchor: seq<Point>, test: seq<Point>, ln: real -> real, exp: real -> real)
    requires !TwoShared(anchor, test)
    ensures Rate(anchor, test, ln, exp) == None
  {
    hide Overlap, Shared, Integral;
    OverlapIsShared(anchor, test);
  }

  /** Two qualities are shared exactly when there is such a range. */
  lemma RangeExists(anchor: seq<Point>, test: seq<Point>)
    ensures TwoShared(anchor, test) <==> exists lo, hi :: lo < hi && Bounds(anchor, test, lo, hi)
  {
    hide Overlap, Shared;
    OverlapIsShared(anchor, test);
    if lo, hi :| lo < hi && Bounds(anchor, test, lo, hi) {
      assert Shared(anchor, test, lo) && Shared(anchor, test, hi);
    }
  }
}
