/**
 What the cubic fit promises (xtask/src/bd_rate.rs): its coefficients are the only solution of the
 normal equations and the only cubic of least squared error.
 */
module LeastSquares {
  import opened Wrappers
  import opened CubicFit

  function Mix(c: Coefficients, x0: real, x1: real, x2: real, x3: real): real {
    c.c0 * x0 + c.c1 * x1 + c.c2 * x2 + c.c3 * x3
  }

  function Cubic(c: Coefficients, p: real): real {
    Mix(c, Pow(p, 0), Pow(p, 1), Pow(p, 2), Pow(p, 3))
  }

  function Error(c: Coefficients, point: Point, ln: real -> real): real {
    Cubic(c, point.psnr) - ln(point.rate)
  }

  /** The sum of squared residuals of a cubic over the points. */
  function SquaredError(points: seq<Point>, ln: real -> real, c: Coefficients): real {
    if points == [] then 0.0
    else
      var e := Error(c, points[|points| - 1], ln);
      SquaredError(points[..|points| - 1], ln, c) + e * e
  }

  function Energy(points: seq<Point>, c: Coefficients): real {
    if points == [] then 0.0
    else
      var e := Cubic(c, points[|points| - 1].psnr);
      Energy(points[..|points| - 1], c) + e * e
  }

  function ErrorMoment(points: seq<Point>, ln: real -> real, c: Coefficients, k: nat): real {
    if points == [] then 0.0
    else
      var last := points[|points| - 1];
      ErrorMoment(points[..|points| - 1], ln, c, k) + Error(c, last, ln) * Pow(last.psnr, k)
  }

  function Plus(c: Coefficients, d: Coefficients): Coefficients {
    Coefficients(c.c0 + d.c0, c.c1 + d.c1, c.c2 + d.c2, c.c3 + d.c3)
  }

  function Minus(c: Coefficients, d: Coefficients): Coefficients {
    Coefficients(c.c0 - d.c0, c.c1 - d.c1, c.c2 - d.c2, c.c3 - d.c3)
  }

  // ---------- uniqueness ----------

  lemma DiagonalQuotient(a: real, x: real, b: real)
    requires a != 0.0
    ensures a * x == b <==> x == b / a
  {
    if x == b / a { assert a * x == b; }
    if a * x == b { assert x == b / a; }
  }

  lemma DiagonalSolution(m: Matrix, c: Coefficients)
    requires ClearedBefore(m, 4)
    ensures Solves(m, c) <==> c == ReadOff(m)
  {
    assert Dot(m[0], c) == m[0][0] * c.c0 by { assert m[0][1] == 0.0 && m[0][2] == 0.0 && m[0][3] == 0.0; }
    assert Dot(m[1], c) == m[1][1] * c.c1 by { assert m[1][0] == 0.0 && m[1][2] == 0.0 && m[1][3] == 0.0; }
    assert Dot(m[2], c) == m[2][2] * c.c2 by { assert m[2][0] == 0.0 && m[2][1] == 0.0 && m[2][3] == 0.0; }
    assert Dot(m[3], c) == m[3][3] * c.c3 by { assert m[3][0] == 0.0 && m[3][1] == 0.0 && m[3][2] == 0.0; }
    DiagonalQuotient(m[0][0], c.c0, m[0][4]);
    DiagonalQuotient(m[1][1], c.c1, m[1][4]);
    DiagonalQuotient(m[2][2], c.c2, m[2][4]);
    DiagonalQuotient(m[3][3], c.c3, m[3][4]);
    FourRows(m, c);
  }

  lemma FourRows(m: Matrix, c: Coefficients)
    ensures Solves(m, c) <==>
      Dot(m[0], c) == m[0][4] && Dot(m[1], c) == m[1][4] && Dot(m[2], c) == m[2][4] && Dot(m[3], c) == m[3][4]
  {}

  /** The returned coefficients are the only solution of the normal equations. */
  lemma FitSolvesUniquely(points: seq<Point>, ln: real -> real, c: Coefficients)
    requires Fit(points, ln).Some?
    ensures Solves(NormalEquations(points, ln), c) <==> c == Fit(points, ln).value
  {
    var m := NormalEquations(points, ln);
    ReduceClears(m, 0);
    ReduceKeepsSolutions(m, 0, c);
    DiagonalSolution(Reduce(m, 0).value, c);
  }

  // ---------- the normal equations state a stationary point ----------

  lemma {:induction false} PowAdd(p: real, i: nat, j: nat)
    ensures Pow(p, i + j) == Pow(p, i) * Pow(p, j)
  {
    if j > 0 {
      PowAdd(p, i, j - 1);
      assert i + j - 1 == i + (j - 1);
      assert p * (Pow(p, i) * Pow(p, j - 1)) == Pow(p, i) * (p * Pow(p, j - 1));
    }
  }

  lemma ErrorTerm(point: Point, ln: real -> real, c: Coefficients, k: nat)
    ensures Error(c, point, ln) * Pow(point.psnr, k)
         == c.c0 * Pow(point.psnr, k) + c.c1 * Pow(point.psnr, k + 1) + c.c2 * Pow(point.psnr, k + 2)
            + c.c3 * Pow(point.psnr, k + 3) - ln(point.rate) * Pow(point.psnr, k)
  {
    var p, y := point.psnr, ln(point.rate);
    PowAdd(p, k, 1);
    PowAdd(p, k, 2);
    PowAdd(p, k, 3);
    var w := Pow(p, k);
    var p1, p2, p3 := Pow(p, 1), Pow(p, 2), Pow(p, 3);
    assert Pow(p, 0) == 1.0;
    assert (c.c0 + c.c1 * p1 + c.c2 * p2 + c.c3 * p3 - y) * w
        == c.c0 * w + c.c1 * (w * p1) + c.c2 * (w * p2) + c.c3 * (w * p3) - y * w;
  }

  /** Row k of the normal equations, read at c, is the k-th moment of c's errors. */
  lemma {:induction false} NormalRowIsMoment(points: seq<Point>, ln: real -> real, c: Coefficients, k: nat)
    ensures Residual(NormalRow(points, ln, k), c) == ErrorMoment(points, ln, c, k)
  {
    if points != [] {
      var rest, last := points[..|points| - 1], points[|points| - 1];
      NormalRowIsMoment(rest, ln, c, k);
      ErrorTerm(last, ln, c, k);
      var p := last.psnr;
      AddedTerm(PowerSum(rest, k), Pow(p, k), c.c0);
      AddedTerm(PowerSum(rest, k + 1), Pow(p, k + 1), c.c1);
      AddedTerm(PowerSum(rest, k + 2), Pow(p, k + 2), c.c2);
      AddedTerm(PowerSum(rest, k + 3), Pow(p, k + 3), c.c3);
    }
  }

  lemma AddedTerm(a: real, b: real, c: real)
    ensures (a + b) * c == a * c + c * b
  {}

  ghost predicate MomentsVanish(points: seq<Point>, ln: real -> real, c: Coefficients) {
    && ErrorMoment(points, ln, c, 0) == 0.0 && ErrorMoment(points, ln, c, 1) == 0.0
    && ErrorMoment(points, ln, c, 2) == 0.0 && ErrorMoment(points, ln, c, 3) == 0.0
  }

  /** Solving the normal equations is having errors orthogonal to every power. */
  lemma SolvedMomentsVanish(points: seq<Point>, ln: real -> real, c: Coefficients)
    ensures Solves(NormalEquations(points, ln), c) <==> MomentsVanish(points, ln, c)
  {
    FourRows(NormalEquations(points, ln), c);
    NormalRowIsMoment(points, ln, c, 0);
    NormalRowIsMoment(points, ln, c, 1);
    NormalRowIsMoment(points, ln, c, 2);
    NormalRowIsMoment(points, ln, c, 3);
  }

  lemma CubicPlus(c: Coefficients, d: Coefficients, p: real)
    ensures Cubic(Plus(c, d), p) == Cubic(c, p) + Cubic(d, p)
  {
    AddedTerm(c.c0, d.c0, Pow(p, 0));
    AddedTerm(c.c1, d.c1, Pow(p, 1));
    AddedTerm(c.c2, d.c2, Pow(p, 2));
    AddedTerm(c.c3, d.c3, Pow(p, 3));
  }

  function Weighted(points: seq<Point>, ln: real -> real, c: Coefficients, d: Coefficients): real {
    Mix(d, ErrorMoment(points, ln, c, 0), ErrorMoment(points, ln, c, 1),
        ErrorMoment(points, ln, c, 2), ErrorMoment(points, ln, c, 3))
  }

  lemma WeightedTerm(x: real, a: real, e: real, w: real, b: real)
    requires b == a + e * w
    ensures x * b == x * a + e * (x * w)
  {
    assert x * b == x * a + x * (e * w);
    assert x * (e * w) == e * (x * w);
  }

  lemma WeightedSum(d: Coefficients, e: real, a0: real, a1: real, a2: real, a3: real,
                    w0: real, w1: real, w2: real, w3: real, b0: real, b1: real, b2: real, b3: real)
    requires b0 == a0 + e * w0 && b1 == a1 + e * w1 && b2 == a2 + e * w2 && b3 == a3 + e * w3
    ensures Mix(d, b0, b1, b2, b3) == Mix(d, a0, a1, a2, a3) + e * Mix(d, w0, w1, w2, w3)
  {
    WeightedTerm(d.c0, a0, e, w0, b0);
    WeightedTerm(d.c1, a1, e, w1, b1);
    WeightedTerm(d.c2, a2, e, w2, b2);
    WeightedTerm(d.c3, a3, e, w3, b3);
    Distribute(e, d.c0 * w0, d.c1 * w1, d.c2 * w2, d.c3 * w3);
  }

  lemma MomentStep(points: seq<Point>, ln: real -> real, c: Coefficients, k: nat)
    requires points != []
    ensures ErrorMoment(points, ln, c, k)
         == ErrorMoment(points[..|points| - 1], ln, c, k)
            + Error(c, points[|points| - 1], ln) * Pow(points[|points| - 1].psnr, k)
  {}

  lemma WeightedStep(points: seq<Point>, ln: real -> real, c: Coefficients, d: Coefficients)
    requires points != []
    ensures Weighted(points, ln, c, d) == Weighted(points[..|points| - 1], ln, c, d)
                + Error(c, points[|points| - 1], ln) * Cubic(d, points[|points| - 1].psnr)
  {
    hide ErrorMoment, Error, Pow, Mix;
    var rest, last := points[..|points| - 1], points[|points| - 1];
    var e, p := Error(c, last, ln), last.psnr;
    MomentStep(points, ln, c, 0);
    MomentStep(points, ln, c, 1);
    MomentStep(points, ln, c, 2);
    MomentStep(points, ln, c, 3);
    WeightedSum(d, e,
                ErrorMoment(rest, ln, c, 0), ErrorMoment(rest, ln, c, 1),
                ErrorMoment(rest, ln, c, 2), ErrorMoment(rest, ln, c, 3),
                Pow(p, 0), Pow(p, 1), Pow(p, 2), Pow(p, 3),
                ErrorMoment(points, ln, c, 0), ErrorMoment(points, ln, c, 1),
                ErrorMoment(points, ln, c, 2), ErrorMoment(points, ln, c, 3));
  }

  lemma Distribute(e: real, a: real, b: real, c: real, d: real)
    ensures e * (a + b + c + d) == e * a + e * b + e * c + e * d
  {}

  lemma SquareOfSum(e: real, f: real, sum: real)
    requires sum == e + f
    ensures sum * sum == e * e + 2.0 * (e * f) + f * f
  {}

  lemma NoWeight(ln: real -> real, c: Coefficients, d: Coefficients)
    ensures Weighted([], ln, c, d) == 0.0
  {}

  lemma ErrorPlus(c: Coefficients, d: Coefficients, point: Point, ln: real -> real)
    ensures Error(Plus(c, d), point, ln) == Error(c, point, ln) + Cubic(d, point.psnr)
  {
    hide Cubic;
    CubicPlus(c, d, point.psnr);
  }

  /** The squared error at a displaced cubic. */
  lemma {:induction false} DisplacedError(points: seq<Point>, ln: real -> real, c: Coefficients, d: Coefficients)
    ensures SquaredError(points, ln, Plus(c, d))
         == SquaredError(points, ln, c) + 2.0 * Weighted(points, ln, c, d) + Energy(points, d)
  {
    hide Weighted, Error, Cubic;
    if points == [] {
      NoWeight(ln, c, d);
    } else {
      var rest, last := points[..|points| - 1], points[|points| - 1];
      DisplacedError(rest, ln, c, d);
      WeightedStep(points, ln, c, d);
      ErrorPlus(c, d, last, ln);
      SquareOfSum(Error(c, last, ln), Cubic(d, last.psnr), Error(Plus(c, d), last, ln));
    }
  }

  lemma PositiveProduct(a: real, b: real, product: real)
    requires a > 0.0 && b > 0.0 && product == a * b
    ensures product > 0.0
  {}

  lemma SquareVanishes(e: real, square: real)
    requires square == e * e
    ensures square >= 0.0
    ensures square == 0.0 ==> e == 0.0
    decreases e < 0.0
  {
    if e < 0.0 {
      SquareVanishes(-e, square);
    } else if e > 0.0 {
      PositiveProduct(e, e, square);
    }
  }

  lemma EnergyStep(points: seq<Point>, d: Coefficients)
    requires points != [] && Energy(points[..|points| - 1], d) >= 0.0
    ensures Energy(points, d) >= 0.0
    ensures Energy(points, d) == 0.0 ==>
      Energy(points[..|points| - 1], d) == 0.0 && Cubic(d, points[|points| - 1].psnr) == 0.0
  {
    var e := Cubic(d, points[|points| - 1].psnr);
    SquareVanishes(e, e * e);
  }

  lemma {:induction false} EnergyNonNegative(points: seq<Point>, d: Coefficients)
    ensures Energy(points, d) >= 0.0
    ensures Energy(points, d) == 0.0 ==> forall q | q in points :: Cubic(d, q.psnr) == 0.0
  {
    if points != [] {
      EnergyNonNegative(points[..|points| - 1], d);
      EnergyStep(points, d);
      assert points == points[..|points| - 1] + [points[|points| - 1]];
    }
  }

  /** A cubic that vanishes on all the points moves no error. */
  lemma {:induction false} VanishingKeepsMoments(points: seq<Point>, ln: real -> real, c: Coefficients,
                                                 d: Coefficients, k: nat)
    requires forall q | q in points :: Cubic(d, q.psnr) == 0.0
    ensures ErrorMoment(points, ln, Plus(c, d), k) == ErrorMoment(points, ln, c, k)
  {
    hide Cubic, Error, Pow;
    if points != [] {
      var rest, last := points[..|points| - 1], points[|points| - 1];
      VanishingKeepsMoments(rest, ln, c, d, k);
      ErrorPlus(c, d, last, ln);
      assert last in points;
    }
  }

  const ZERO := Coefficients(0.0, 0.0, 0.0, 0.0)

  /** Fitted points leave no room for a cubic that vanishes on all of them, but the zero one. */
  lemma VanishingIsZero(points: seq<Point>, ln: real -> real, d: Coefficients)
    requires Fit(points, ln).Some?
    requires forall q | q in points :: Cubic(d, q.psnr) == 0.0
    ensures d == ZERO
  {
    var c := Fit(points, ln).value;
    VanishingKeepsMoments(points, ln, c, d, 0);
    VanishingKeepsMoments(points, ln, c, d, 1);
    VanishingKeepsMoments(points, ln, c, d, 2);
    VanishingKeepsMoments(points, ln, c, d, 3);
    FitSolvesUniquely(points, ln, c);
    FitSolvesUniquely(points, ln, Plus(c, d));
    SolvedMomentsVanish(points, ln, c);
    SolvedMomentsVanish(points, ln, Plus(c, d));
    assert Plus(c, d) == c;
  }

  lemma MinusThenPlus(other: Coefficients, c: Coefficients)
    ensures Plus(c, Minus(other, c)) == other
    ensures Minus(other, c) == ZERO <==> other == c
  {}

  lemma WeightedVanishes(points: seq<Point>, ln: real -> real, c: Coefficients, d: Coefficients)
    requires MomentsVanish(points, ln, c)
    ensures Weighted(points, ln, c, d) == 0.0
  {}

  /** The fit has the least squared error of all cubics, and no other cubic reaches it. */
  lemma FitIsLeastSquares(points: seq<Point>, ln: real -> real, other: Coefficients)
    requires Fit(points, ln).Some?
    ensures SquaredError(points, ln, Fit(points, ln).value) <= SquaredError(points, ln, other)
    ensures SquaredError(points, ln, Fit(points, ln).value) == SquaredError(points, ln, other)
       <==> other == Fit(points, ln).value
  {
    var c := Fit(points, ln).value;
    var d := Minus(other, c);
    MinusThenPlus(other, c);
    FitSolvesUniquely(points, ln, c);
    SolvedMomentsVanish(points, ln, c);
    DisplacedError(points, ln, c, d);
    WeightedVanishes(points, ln, c, d);
    EnergyNonNegative(points, d);
    if Energy(points, d) == 0.0 { VanishingIsZero(points, ln, d); }
  }

  lemma SmallPowers(p: real)
    ensures Pow(p, 0) == 1.0 && Pow(p, 1) == p && Pow(p, 2) == p * p && Pow(p, 3) == p * (p * p)
  {
    assert Pow(p, 2) == p * Pow(p, 1) && Pow(p, 3) == p * Pow(p, 2);
  }

  /** Points of at most three distinct qualities are never fitted. */
  lemma FewQualitiesAreRejected(points: seq<Point>, ln: real -> real, a: real, b: real, c: real)
    requires forall q | q in points :: q.psnr == a || q.psnr == b || q.psnr == c
    ensures Fit(points, ln) == None
  {
    var d := Roots(a, b, c);
    forall q | q in points ensures Cubic(d, q.psnr) == 0.0 {
      RootsVanish(a, b, c, q.psnr);
    }
    if Fit(points, ln).Some? { VanishingIsZero(points, ln, d); }
  }

  /** The monic cubic with three given roots. */
  function Roots(a: real, b: real, c: real): Coefficients {
    Coefficients(-(a * b * c), a * b + b * c + c * a, -(a + b + c), 1.0)
  }

  lemma RootsVanish(a: real, b: real, c: real, p: real)
    requires p == a || p == b || p == c
    ensures Cubic(Roots(a, b, c), p) == 0.0
  {
    SmallPowers(p);
    assert -(a * b * c) + (a * b + b * c + c * a) * p - (a + b + c) * (p * p) + p * (p * p)
        == (p - a) * (p - b) * (p - c);
  }
}
