/**
 When the cubic fit is rejected (xtask/src/bd_rate.rs): over exact reals, four distinct qualities never
 bring elimination to a zero pivot, so only the smallness test can reject them.
 */
module PivotTest {
  import opened Wrappers
  import opened CubicFit
  import opened LeastSquares

  /** The matrix after the first n columns. */
  function Steps(m: Matrix, n: nat): Option<Matrix>
    requires n <= 4
  {
    if n == 0 then Some(m)
    else
      var before := Steps(m, n - 1);
      if before.None? then None else ReduceColumn(before.value, n - 1)
  }

  /** The entry a column is divided by, once its pivot row is in place. */
  function PivotEntry(m: Matrix, col: nat): real
    requires col < 4
  {
    SwapRows(m, col, PivotFrom(m, col, col, col + 1))[col][col]
  }

  // ---------- the left sides keep what they send to zero ----------

  predicate SendsToZero(m: Matrix, c: Coefficients) { forall i | 0 <= i < 4 :: Dot(m[i], c) == 0.0 }

  lemma ColumnKeepsZeros(m: Matrix, col: nat, c: Coefficients)
    requires col < 4 && ReduceColumn(m, col).Some? && SendsToZero(ReduceColumn(m, col).value, c)
    ensures SendsToZero(m, c)
  {
    var pivot := PivotFrom(m, col, col, col + 1);
    var s := SwapRows(m, col, pivot);
    var t := ClearColumn(s, col);
    assert t[col] == s[col];
    forall i | 0 <= i < 4 ensures Dot(s[i], c) == 0.0 {
      assert t[i] == ClearedRow(s, col, i);
      if i != col { DotSubtract(s[i], s[i][col] / s[col][col], s[col], c); }
    }
    assert s[col] == m[pivot] && s[pivot] == m[col];
    forall i | 0 <= i < 4 ensures Dot(m[i], c) == 0.0 {
      if i != col && i != pivot { assert s[i] == m[i]; }
    }
  }

  lemma {:induction false} StepsKeepZeros(m: Matrix, n: nat, c: Coefficients)
    requires n <= 4 && Steps(m, n).Some? && SendsToZero(Steps(m, n).value, c)
    ensures SendsToZero(m, c)
  {
    hide SendsToZero, ReduceColumn;
    if n > 0 {
      ColumnKeepsZeros(Steps(m, n - 1).value, n - 1, c);
      StepsKeepZeros(m, n - 1, c);
    }
  }

  lemma {:induction false} StepsClear(m: Matrix, n: nat)
    requires n <= 4 && Steps(m, n).Some?
    ensures ClearedBefore(Steps(m, n).value, n)
  {
    hide ReduceColumn;
    if n > 0 {
      StepsClear(m, n - 1);
      hide ClearedBefore;
      ReduceColumnClears(Steps(m, n - 1).value, n - 1);
    }
  }

  // ---------- a zero pivot leaves a cubic that is sent to zero ----------

  lemma {:induction false} PivotIsLargest(m: Matrix, col: nat, best: nat, next: nat, i: nat)
    requires col < 4 && best < 4 && next <= 4 && i < 4 && (i == best || next <= i)
    ensures Abs(m[i][col]) <= Abs(m[PivotFrom(m, col, best, next)][col])
    decreases 4 - next
  {
    if next < 4 {
      var better := if Abs(m[best][col]) <= Abs(m[next][col]) then next else best;
      PivotIsLargest(m, col, better, next + 1, better);
      if i > next { PivotIsLargest(m, col, better, next + 1, i); }
    }
  }

  lemma ZeroBelow(m: Matrix, col: nat)
    requires col < 4 && PivotEntry(m, col) == 0.0
    ensures forall i | col <= i < 4 :: m[i][col] == 0.0
  {
    var pivot := PivotFrom(m, col, col, col + 1);
    assert SwapRows(m, col, pivot)[col] == m[pivot];
    forall i | col <= i < 4 ensures m[i][col] == 0.0 { PivotIsLargest(m, col, col, col + 1, i); }
  }

  /** One in its own column, and what clears the columns before. */
  function KernelOf(m: Matrix, col: nat): Coefficients
    requires col < 4 && ClearedBefore(m, col)
  {
    match col
    case 0 => Coefficients(1.0, 0.0, 0.0, 0.0)
    case 1 => Coefficients(-(m[0][1] / m[0][0]), 1.0, 0.0, 0.0)
    case 2 => Coefficients(-(m[0][2] / m[0][0]), -(m[1][2] / m[1][1]), 1.0, 0.0)
    case _ => Coefficients(-(m[0][3] / m[0][0]), -(m[1][3] / m[1][1]), -(m[2][3] / m[2][2]), 1.0)
  }

  lemma Cancels(a: real, b: real)
    requires a != 0.0
    ensures a * -(b / a) == -b
  {
    assert a * (b / a) == b;
  }

  function At(c: Coefficients, k: nat): real
    requires k < 4
  {
    match k
    case 0 => c.c0
    case 1 => c.c1
    case 2 => c.c2
    case _ => c.c3
  }

  /** What column k contributes to row i. */
  lemma KernelTerm(m: Matrix, col: nat, i: nat, k: nat)
    requires col < 4 && ClearedBefore(m, col) && i < 4 && k < 4
    ensures m[i][k] * At(KernelOf(m, col), k)
         == if k == col then m[i][col] else if k == i && k < col then -m[i][col] else 0.0
  {
    if k < col {
      assert (m[k][k] == 0.0) <==> k != k;
      Cancels(m[k][k], m[k][col]);
      assert At(KernelOf(m, col), k) == -(m[k][col] / m[k][k]);
      if k != i { assert m[i][k] == 0.0; }
    }
  }

  lemma KernelRow(m: Matrix, col: nat, i: nat)
    requires col < 4 && ClearedBefore(m, col) && i < 4 && (i >= col ==> m[i][col] == 0.0)
    ensures Dot(m[i], KernelOf(m, col)) == 0.0
  {
    hide KernelOf, Dot, At;
    DotIsSum(m[i], KernelOf(m, col));
    KernelTerm(m, col, i, 0);
    KernelTerm(m, col, i, 1);
    KernelTerm(m, col, i, 2);
    KernelTerm(m, col, i, 3);
  }

  lemma DotIsSum(r: Row, c: Coefficients)
    ensures Dot(r, c) == r[0] * At(c, 0) + r[1] * At(c, 1) + r[2] * At(c, 2) + r[3] * At(c, 3)
  {}

  lemma KernelIsSentToZero(m: Matrix, col: nat)
    requires col < 4 && ClearedBefore(m, col) && PivotEntry(m, col) == 0.0
    ensures SendsToZero(m, KernelOf(m, col)) && KernelOf(m, col) != ZERO
  {
    assert At(KernelOf(m, col), col) == 1.0;
    ZeroBelow(m, col);
    hide PivotEntry, KernelOf, ClearedBefore;
    forall i | 0 <= i < 4 ensures Dot(m[i], KernelOf(m, col)) == 0.0 { KernelRow(m, col, i); }
  }

  // ---------- such a cubic vanishes on all the points ----------

  function NoLog(rate: real): real { 0.0 }

  lemma {:induction false} NoMoment(points: seq<Point>, k: nat)
    ensures Moment(points, NoLog, k) == 0.0
  {
    if points != [] { NoMoment(points[..|points| - 1], k); }
  }

  lemma ZerosVanish(points: seq<Point>, ln: real -> real, c: Coefficients)
    requires SendsToZero(NormalEquations(points, ln), c)
    ensures MomentsVanish(points, NoLog, c)
  {
    var m := NormalEquations(points, ln);
    assert Dot(m[0], c) == 0.0 && Dot(m[1], c) == 0.0 && Dot(m[2], c) == 0.0 && Dot(m[3], c) == 0.0;
    MomentIsDot(points, ln, c, 0);
    MomentIsDot(points, ln, c, 1);
    MomentIsDot(points, ln, c, 2);
    MomentIsDot(points, ln, c, 3);
  }

  lemma MomentIsDot(points: seq<Point>, ln: real -> real, c: Coefficients, k: nat)
    ensures ErrorMoment(points, NoLog, c, k) == Dot(NormalRow(points, ln, k), c)
  {
    NormalRowIsMoment(points, NoLog, c, k);
    NoMoment(points, k);
  }

  lemma {:induction false} WeightedIsEnergy(points: seq<Point>, c: Coefficients)
    ensures Weighted(points, NoLog, c, c) == Energy(points, c)
  {
    hide Weighted, Cubic;
    if points == [] {
      NoWeight(NoLog, c, c);
    } else {
      WeightedIsEnergy(points[..|points| - 1], c);
      WeightedStep(points, NoLog, c, c);
    }
  }

  // ---------- and four roots are too many ----------

  lemma ZeroFactor(x: real, y: real, product: real)
    requires x != 0.0 && product == x * y && product == 0.0
    ensures y == 0.0
  {}

  lemma CubicIs(c: Coefficients, x: real)
    ensures Cubic(c, x) == c.c0 + c.c1 * x + c.c2 * (x * x) + c.c3 * (x * x * x)
  {
    SmallPowers(x);
  }

  lemma Factored(c0: real, c1: real, c2: real, c3: real, a: real, b: real, y: real)
    requires y == c1 + c2 * (a + b) + c3 * (a * a + a * b + b * b)
    ensures (c0 + c1 * a + c2 * (a * a) + c3 * (a * a * a)) - (c0 + c1 * b + c2 * (b * b) + c3 * (b * b * b))
         == (a - b) * y
  {
    assert (a - b) * (a + b) == a * a - b * b;
    assert (a - b) * (a * a + a * b + b * b) == a * a * a - b * b * b;
    assert (a - b) * y == (a - b) * c1 + c2 * ((a - b) * (a + b)) + c3 * ((a - b) * (a * a + a * b + b * b));
  }

  lemma Divided(c: Coefficients, a: real, b: real)
    requires a != b && Cubic(c, a) == 0.0 && Cubic(c, b) == 0.0
    ensures c.c1 + c.c2 * (a + b) + c.c3 * (a * a + a * b + b * b) == 0.0
  {
    CubicIs(c, a);
    CubicIs(c, b);
    hide Cubic;
    var y := c.c1 + c.c2 * (a + b) + c.c3 * (a * a + a * b + b * b);
    Factored(c.c0, c.c1, c.c2, c.c3, a, b, y);
    ZeroFactor(a - b, y, (a - b) * y);
  }

  lemma FactoredTwice(c1: real, c2: real, c3: real, a: real, b: real, d: real, y: real)
    requires y == c2 + c3 * (a + b + d)
    ensures (c1 + c2 * (a + b) + c3 * (a * a + a * b + b * b)) - (c1 + c2 * (a + d) + c3 * (a * a + a * d + d * d))
         == (b - d) * y
  {
    var p, q := a * a + a * b + b * b, a * a + a * d + d * d;
    assert p - q == (b - d) * (a + b + d);
    Gathered(c2, c3, a + b, a + d, p, q, b - d, a + b + d);
  }

  /** Two sums of two terms differ by a common factor times a sum of two terms. */
  lemma Gathered(c2: real, c3: real, s: real, t: real, p: real, q: real, diff: real, sum: real)
    requires s - t == diff && p - q == diff * sum
    ensures (c2 * s + c3 * p) - (c2 * t + c3 * q) == diff * (c2 + c3 * sum)
  {
    assert c2 * s - c2 * t == c2 * diff;
    assert c3 * p - c3 * q == c3 * (diff * sum);
    assert diff * (c2 + c3 * sum) == diff * c2 + diff * (c3 * sum);
    assert c3 * (diff * sum) == diff * (c3 * sum);
  }

  lemma DividedTwice(c: Coefficients, a: real, b: real, d: real)
    requires a != b && a != d && b != d && Cubic(c, a) == 0.0 && Cubic(c, b) == 0.0 && Cubic(c, d) == 0.0
    ensures c.c2 + c.c3 * (a + b + d) == 0.0
  {
    hide Cubic;
    Divided(c, a, b);
    Divided(c, a, d);
    var y := c.c2 + c.c3 * (a + b + d);
    FactoredTwice(c.c1, c.c2, c.c3, a, b, d, y);
    ZeroFactor(b - d, y, (b - d) * y);
  }

  lemma FourRootsAreTooMany(c: Coefficients, p: real, q: real, r: real, s: real)
    requires p != q && p != r && p != s && q != r && q != s && r != s
    requires Cubic(c, p) == 0.0 && Cubic(c, q) == 0.0 && Cubic(c, r) == 0.0 && Cubic(c, s) == 0.0
    ensures c == ZERO
  {
    DividedTwice(c, p, q, r);
    DividedTwice(c, p, q, s);
    Divided(c, p, q);
    SmallPowers(p);
    assert c.c3 * (p + q + r) - c.c3 * (p + q + s) == (r - s) * c.c3;
    ZeroFactor(r - s, c.c3, (r - s) * c.c3);
    assert c.c2 == 0.0;
    assert c.c1 == 0.0;
  }

  // ---------- only the smallness test rejects ----------

  ghost predicate HasQuality(points: seq<Point>, p: real) { exists q | q in points :: q.psnr == p }

  /** Elimination never meets a zero pivot. */
  lemma PivotsAreNonzero(points: seq<Point>, ln: real -> real, p: real, q: real, r: real, s: real, col: nat)
    requires p != q && p != r && p != s && q != r && q != s && r != s
    requires HasQuality(points, p) && HasQuality(points, q) && HasQuality(points, r) && HasQuality(points, s)
    requires col < 4 && Steps(NormalEquations(points, ln), col).Some?
    ensures PivotEntry(Steps(NormalEquations(points, ln), col).value, col) != 0.0
  {
    hide PivotEntry, Steps, ClearedBefore, Weighted, Energy, MomentsVanish, Cubic;
    var m := NormalEquations(points, ln);
    var reached := Steps(m, col).value;
    if PivotEntry(reached, col) == 0.0 {
      StepsClear(m, col);
      KernelIsSentToZero(reached, col);
      var v := KernelOf(reached, col);
      hide KernelOf;
      StepsKeepZeros(m, col, v);
      ZerosVanish(points, ln, v);
      WeightedVanishes(points, NoLog, v, v);
      WeightedIsEnergy(points, v);
      EnergyNonNegative(points, v);
      FourRootsAreTooMany(v, p, q, r, s);
    }
  }

  lemma {:induction false} StepsReach(m: Matrix, n: nat)
    requires n <= 4 && Steps(m, n).Some?
    ensures Reduce(m, 0) == Reduce(Steps(m, n).value, n)
  {
    hide ReduceColumn;
    if n > 0 { StepsReach(m, n - 1); }
  }

  /** A pivot the test finds too small, though it is not zero. */
  ghost predicate TooSmall(m: Matrix, col: nat) {
    col < 4 && Steps(m, col).Some? && 0.0 < Abs(PivotEntry(Steps(m, col).value, col)) < 1.0 / 1000000000000.0
  }

  /** Points of four distinct qualities are rejected exactly when some pivot is nonzero but below the threshold. */
  lemma OnlySmallPivotsReject(points: seq<Point>, ln: real -> real, p: real, q: real, r: real, s: real)
    requires p != q && p != r && p != s && q != r && q != s && r != s
    requires HasQuality(points, p) && HasQuality(points, q) && HasQuality(points, r) && HasQuality(points, s)
    ensures Fit(points, ln) == None <==> exists col: nat :: TooSmall(NormalEquations(points, ln), col)
  {
    hide HasQuality, NormalEquations;
    var m := NormalEquations(points, ln);
    forall col: nat | col < 4 && Steps(m, col).Some? ensures PivotEntry(Steps(m, col).value, col) != 0.0 {
      PivotsAreNonzero(points, ln, p, q, r, s, col);
    }
    StopsAtSmall(m);
  }

  lemma StopsAtSmall(m: Matrix)
    requires forall col: nat | col < 4 && Steps(m, col).Some? :: PivotEntry(Steps(m, col).value, col) != 0.0
    ensures Reduce(m, 0).None? <==> exists col: nat :: TooSmall(m, col)
  {
    if col: nat :| TooSmall(m, col) { StepsReach(m, col); }
    if Reduce(m, 0).None? {
      if Steps(m, 4).Some? { StepsReach(m, 4); }
      var col := FirstStop(m, 4);
      assert TooSmall(m, col);
    }
  }

  lemma {:induction false} FirstStop(m: Matrix, n: nat) returns (col: nat)
    requires n <= 4 && Steps(m, n).None?
    ensures col < n && Steps(m, col).Some? && ReduceColumn(Steps(m, col).value, col).None?
  {
    hide ReduceColumn;
    if Steps(m, n - 1).None? { col := FirstStop(m, n - 1); } else { col := n - 1; }
  }
}
