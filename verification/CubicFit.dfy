/**
 The least-squares cubic of log rate over quality (xtask/src/bd_rate.rs), over exact reals:
 normal equations, then Gauss-Jordan elimination with row pivoting in place.
 The natural logarithm is a parameter.
 */
module CubicFit {
  import opened Wrappers

  const EPSILON: real := 0.000000000001

  datatype Point = Point(rate: real, psnr: real)

  type Row = r: seq<real> | |r| == 5 witness [0.0, 0.0, 0.0, 0.0, 0.0]
  const ZERO_ROW: Row := [0.0, 0.0, 0.0, 0.0, 0.0]
  type Matrix = m: seq<Row> | |m| == 4 witness [ZERO_ROW, ZERO_ROW, ZERO_ROW, ZERO_ROW]
  /** Constant, linear, quadratic and cubic coefficient. */
  datatype Coefficients = Coefficients(c0: real, c1: real, c2: real, c3: real)

  function Pow(p: real, k: nat): real {
    if k == 0 then 1.0 else p * Pow(p, k - 1)
  }

  function Abs(x: real): real { if x < 0.0 then -x else x }

  // ---------- the normal equations ----------

  function PowerSum(points: seq<Point>, k: nat): real {
    if points == [] then 0.0
    else PowerSum(points[..|points| - 1], k) + Pow(points[|points| - 1].psnr, k)
  }

  function Moment(points: seq<Point>, ln: real -> real, k: nat): real {
    if points == [] then 0.0
    else
      var last := points[|points| - 1];
      Moment(points[..|points| - 1], ln, k) + ln(last.rate) * Pow(last.psnr, k)
  }

  function NormalRow(points: seq<Point>, ln: real -> real, i: nat): Row {
    [PowerSum(points, i), PowerSum(points, i + 1), PowerSum(points, i + 2), PowerSum(points, i + 3),
     Moment(points, ln, i)]
  }

  function NormalEquations(points: seq<Point>, ln: real -> real): Matrix {
    [NormalRow(points, ln, 0), NormalRow(points, ln, 1), NormalRow(points, ln, 2), NormalRow(points, ln, 3)]
  }

  // ---------- elimination on values ----------

  /** The row at or below `col` with the largest entry in that column; the last of equals. */
  function PivotFrom(m: Matrix, col: nat, best: nat, next: nat): (r: nat)
    requires col < 4 && best < 4 && next <= 4
    ensures r < 4 && (r == best || next <= r)
    decreases 4 - next
  {
    if next == 4 then best
    else PivotFrom(m, col, if Abs(m[best][col]) <= Abs(m[next][col]) then next else best, next + 1)
  }

  function SwapRows(m: Matrix, a: nat, b: nat): Matrix
    requires a < 4 && b < 4
  {
    m[a := m[b]][b := m[a]]
  }

  function SubtractRow(r: Row, factor: real, p: Row): Row {
    [r[0] - factor * p[0], r[1] - factor * p[1], r[2] - factor * p[2], r[3] - factor * p[3], r[4] - factor * p[4]]
  }

  function ClearedRow(m: Matrix, col: nat, i: nat): Row
    requires col < 4 && i < 4 && m[col][col] != 0.0
  {
    if i == col then m[i] else SubtractRow(m[i], m[i][col] / m[col][col], m[col])
  }

  function ClearColumn(m: Matrix, col: nat): Matrix
    requires col < 4 && m[col][col] != 0.0
  {
    [ClearedRow(m, col, 0), ClearedRow(m, col, 1), ClearedRow(m, col, 2), ClearedRow(m, col, 3)]
  }

  function ReduceColumn(m: Matrix, col: nat): Option<Matrix>
    requires col < 4
  {
    var swapped := SwapRows(m, col, PivotFrom(m, col, col, col + 1));
    if Abs(swapped[col][col]) < EPSILON then None else Some(ClearColumn(swapped, col))
  }

  function Reduce(m: Matrix, col: nat): Option<Matrix>
    requires col <= 4
    decreases 4 - col
  {
    if col == 4 then Some(m)
    else
      var next := ReduceColumn(m, col);
      if next.None? then None else Reduce(next.value, col + 1)
  }

  function ReadOff(m: Matrix): Coefficients
    requires forall i | 0 <= i < 4 :: m[i][i] != 0.0
  {
    Coefficients(m[0][4] / m[0][0], m[1][4] / m[1][1], m[2][4] / m[2][2], m[3][4] / m[3][3])
  }

  function Fit(points: seq<Point>, ln: real -> real): Option<Coefficients> {
    var reduced := Reduce(NormalEquations(points, ln), 0);
    if reduced.None? then None
    else
      ReducedIsDiagonal(NormalEquations(points, ln), 0);
      Some(ReadOff(reduced.value))
  }

  // ---------- elimination in place ----------

  ghost function Values(m: array2<real>): Matrix
    requires m.Length0 == 4 && m.Length1 == 5
    reads m
  {
    seq(4, i requires 0 <= i < 4 reads m => [m[i, 0], m[i, 1], m[i, 2], m[i, 3], m[i, 4]])
  }

  method Power(p: real, k: nat) returns (r: real)
    ensures r == Pow(p, k)
  {
    r := 1.0;
    for i := 0 to k
      invariant r == Pow(p, i)
    {
      r := p * r;
    }
  }

  ghost predicate Accumulated(m: array2<real>, points: seq<Point>, ln: real -> real)
    requires m.Length0 == 4 && m.Length1 == 5
    reads m
  {
    && (forall i, j | 0 <= i < 4 && 0 <= j < 4 :: m[i, j] == PowerSum(points, i + j))
    && (forall i | 0 <= i < 4 :: m[i, 4] == Moment(points, ln, i))
  }

  lemma SumsOfLast(before: seq<Point>, point: Point, ln: real -> real)
    ensures forall k: nat :: PowerSum(before + [point], k) == PowerSum(before, k) + Pow(point.psnr, k)
    ensures forall k: nat ::
        Moment(before + [point], ln, k) == Moment(before, ln, k) + ln(point.rate) * Pow(point.psnr, k)
  {
    hide Pow;
    var after := before + [point];
    assert after[..|after| - 1] == before;
  }

  method AddPoint(m: array2<real>, point: Point, ghost before: seq<Point>, ln: real -> real)
    requires m.Length0 == 4 && m.Length1 == 5 && Accumulated(m, before, ln)
    modifies m
    ensures Accumulated(m, before + [point], ln)
  {
    hide PowerSum, Moment, Pow;
    ghost var after := before + [point];
    SumsOfLast(before, point, ln);
    var y := ln(point.rate);
    for i := 0 to 4
      invariant forall a, b | 0 <= a < 4 && 0 <= b < 4 :: m[a, b] == PowerSum(if a < i then after else before, a + b)
      invariant forall a | 0 <= a < 4 :: m[a, 4] == Moment(if a < i then after else before, ln, a)
    {
      for j := 0 to 4
        invariant forall a, b | 0 <= a < 4 && 0 <= b < 4 ::
                    m[a, b] == PowerSum(if a < i || (a == i && b < j) then after else before, a + b)
        invariant forall a | 0 <= a < 4 :: m[a, 4] == Moment(if a < i then after else before, ln, a)
      {
        var power := Power(point.psnr, i + j);
        m[i, j] := m[i, j] + power;
      }
      var power := Power(point.psnr, i);
      m[i, 4] := m[i, 4] + y * power;
    }
  }

  method FindPivot(m: array2<real>, col: nat) returns (pivot: nat)
    requires m.Length0 == 4 && m.Length1 == 5 && col < 4
    ensures pivot < 4 && pivot == PivotFrom(Values(m), col, col, col + 1)
  {
    pivot := col;
    for next := col + 1 to 4
      invariant pivot < 4
      invariant PivotFrom(Values(m), col, pivot, next) == PivotFrom(Values(m), col, col, col + 1)
    {
      if Abs(m[pivot, col]) <= Abs(m[next, col]) { pivot := next; }
    }
  }

  method SwapInPlace(m: array2<real>, a: nat, b: nat)
    requires m.Length0 == 4 && m.Length1 == 5 && a < 4 && b < 4
    modifies m
    ensures Values(m) == SwapRows(old(Values(m)), a, b)
  {
    for j := 0 to 5
      invariant forall k | 0 <= k < j :: m[a, k] == old(m[b, k]) && m[b, k] == old(m[a, k])
      invariant forall i, k | 0 <= i < 4 && 0 <= k < 5 && (k >= j || (i != a && i != b)) :: m[i, k] == old(m[i, k])
    {
      m[a, j], m[b, j] := m[b, j], m[a, j];
    }
  }

  method SubtractInPlace(m: array2<real>, row: nat, factor: real, col: nat)
    requires m.Length0 == 4 && m.Length1 == 5 && row < 4 && col < 4 && row != col
    modifies m
    ensures Values(m) == old(Values(m))[row := SubtractRow(old(Values(m))[row], factor, old(Values(m))[col])]
  {
    for k := 0 to 5
      invariant forall j | 0 <= j < k :: m[row, j] == old(m[row, j]) - factor * old(m[col, j])
      invariant forall i, j | 0 <= i < 4 && 0 <= j < 5 && (i != row || j >= k) :: m[i, j] == old(m[i, j])
    {
      m[row, k] := m[row, k] - factor * m[col, k];
    }
    ghost var was := old(Values(m));
    ghost var now, target := Values(m)[row], SubtractRow(was[row], factor, was[col]);
    assert now[0] == target[0] && now[1] == target[1] && now[2] == target[2] && now[3] == target[3]
           && now[4] == target[4];
    assert Values(m)[row] == SubtractRow(was[row], factor, was[col]);
    assert forall i | 0 <= i < 4 && i != row :: Values(m)[i] == was[i];
  }

  method ClearInPlace(m: array2<real>, col: nat)
    requires m.Length0 == 4 && m.Length1 == 5 && col < 4 && m[col, col] != 0.0
    modifies m
    ensures Values(m) == ClearColumn(old(Values(m)), col)
  {
    for row := 0 to 4
      invariant forall i | 0 <= i < 4 ::
                  Values(m)[i] == if i < row then ClearedRow(old(Values(m)), col, i) else old(Values(m))[i]
    {
      if row != col {
        assert Values(m)[col] == old(Values(m))[col];
        assert m[col, col] == Values(m)[col][col] && m[row, col] == Values(m)[row][col];
        var factor := m[row, col] / m[col, col];
        SubtractInPlace(m, row, factor, col);
      }
    }
  }

  method BuildEquations(points: seq<Point>, ln: real -> real) returns (m: array2<real>)
    ensures fresh(m) && m.Length0 == 4 && m.Length1 == 5
    ensures Values(m) == NormalEquations(points, ln)
  {
    m := new real[4, 5]((i, j) => 0.0);
    for k := 0 to |points|
      invariant Accumulated(m, points[..k], ln)
    {
      assert points[..k + 1] == points[..k] + [points[k]];
      AddPoint(m, points[k], points[..k], ln);
    }
    assert points[..|points|] == points;
    ghost var goal := NormalEquations(points, ln);
    assert forall i | 0 <= i < 4 :: Values(m)[i] == goal[i];
  }

  /** One column as written: pivot, swap, test, clear. */
  method ReduceInPlace(m: array2<real>, col: nat) returns (ok: bool)
    requires m.Length0 == 4 && m.Length1 == 5 && col < 4
    modifies m
    ensures ok == ReduceColumn(old(Values(m)), col).Some?
    ensures ok ==> Values(m) == ReduceColumn(old(Values(m)), col).value
  {
    var pivot := FindPivot(m, col);
    SwapInPlace(m, col, pivot);
    assert m[col, col] == Values(m)[col][col];
    if Abs(m[col, col]) < EPSILON { return false; }
    ClearInPlace(m, col);
    return true;
  }

  /** The fit as written: accumulate, eliminate in place, divide by the diagonal. */
  lemma ReduceStep(m: Matrix, col: nat)
    requires col <= 4
    ensures Reduce(m, col) == if col == 4 then Some(m)
                              else if ReduceColumn(m, col).None? then None
                              else Reduce(ReduceColumn(m, col).value, col + 1)
  {
    hide ReduceColumn;
  }

  lemma FitIsReadOff(points: seq<Point>, ln: real -> real)
    ensures var reduced := Reduce(NormalEquations(points, ln), 0);
      && (reduced.None? ==> Fit(points, ln) == None)
      && (reduced.Some? ==> (forall i | 0 <= i < 4 :: reduced.value[i][i] != 0.0)
                            && Fit(points, ln) == Some(ReadOff(reduced.value)))
  {
    hide Reduce, NormalEquations, ReadOff;
    ReducedIsDiagonal(NormalEquations(points, ln), 0);
  }

  lemma ValuesAt(m: array2<real>)
    requires m.Length0 == 4 && m.Length1 == 5
    ensures forall i | 0 <= i < 4 :: Values(m)[i][i] == m[i, i] && Values(m)[i][4] == m[i, 4]
  {
    var v := Values(m);
    assert forall i | 0 <= i < 4 :: v[i] == [m[i, 0], m[i, 1], m[i, 2], m[i, 3], m[i, 4]];
  }

  method FitCubic(points: seq<Point>, ln: real -> real) returns (r: Option<Coefficients>)
    ensures r == Fit(points, ln)
  {
    hide ReduceColumn, NormalEquations, Values, Reduce, Fit;
    var m := BuildEquations(points, ln);
    ghost var start := Values(m);
    FitIsReadOff(points, ln);
    for col := 0 to 4
      invariant Reduce(Values(m), col) == Reduce(start, 0)
    {
      ReduceStep(Values(m), col);
      var ok := ReduceInPlace(m, col);
      if !ok { return None; }
    }
    ReduceStep(Values(m), 4);
    ValuesAt(m);
    r := Some(Coefficients(m[0, 4] / m[0, 0], m[1, 4] / m[1, 1], m[2, 4] / m[2, 2], m[3, 4] / m[3, 3]));
  }

  // ---------- every step keeps the solution set ----------

  function Dot(r: Row, c: Coefficients): real {
    r[0] * c.c0 + r[1] * c.c1 + r[2] * c.c2 + r[3] * c.c3
  }

  predicate Solves(m: Matrix, c: Coefficients) {
    forall i | 0 <= i < 4 :: Dot(m[i], c) == m[i][4]
  }

  lemma DotSubtract(r: Row, factor: real, p: Row, c: Coefficients)
    ensures Dot(SubtractRow(r, factor, p), c) == Dot(r, c) - factor * Dot(p, c)
  {
    assert (r[0] - factor * p[0]) * c.c0 == r[0] * c.c0 - factor * (p[0] * c.c0);
    assert (r[1] - factor * p[1]) * c.c1 == r[1] * c.c1 - factor * (p[1] * c.c1);
    assert (r[2] - factor * p[2]) * c.c2 == r[2] * c.c2 - factor * (p[2] * c.c2);
    assert (r[3] - factor * p[3]) * c.c3 == r[3] * c.c3 - factor * (p[3] * c.c3);
  }

  lemma SwapKeepsSolutions(m: Matrix, a: nat, b: nat, c: Coefficients)
    requires a < 4 && b < 4
    ensures Solves(SwapRows(m, a, b), c) <==> Solves(m, c)
  {
    var s := SwapRows(m, a, b);
    assert s[a] == m[b] && s[b] == m[a];
    assert forall i | 0 <= i < 4 && i != a && i != b :: s[i] == m[i];
  }

  function Residual(r: Row, c: Coefficients): real { Dot(r, c) - r[4] }

  lemma ClearedResidual(m: Matrix, col: nat, i: nat, c: Coefficients)
    requires col < 4 && i < 4 && m[col][col] != 0.0
    ensures i != col ==>
      Residual(ClearedRow(m, col, i), c) == Residual(m[i], c) - m[i][col] / m[col][col] * Residual(m[col], c)
  {
    if i != col {
      var factor := m[i][col] / m[col][col];
      DotSubtract(m[i], factor, m[col], c);
      assert factor * Residual(m[col], c) == factor * Dot(m[col], c) - factor * m[col][4];
    }
  }

  lemma SolvesByRows(m: Matrix, c: Coefficients)
    ensures Solves(m, c) <==> forall i | 0 <= i < 4 :: Residual(m[i], c) == 0.0
  {}

  lemma ClearKeepsSolutions(m: Matrix, col: nat, c: Coefficients)
    requires col < 4 && m[col][col] != 0.0
    ensures Solves(ClearColumn(m, col), c) <==> Solves(m, c)
  {
    var s := ClearColumn(m, col);
    assert s[col] == m[col];
    SolvesByRows(m, c);
    SolvesByRows(s, c);
    if Residual(m[col], c) == 0.0 {
      forall i | 0 <= i < 4 ensures Residual(s[i], c) == Residual(m[i], c) {
        assert s[i] == ClearedRow(m, col, i);
        ClearedResidual(m, col, i, c);
      }
    }
  }

  lemma {:induction false} ReduceKeepsSolutions(m: Matrix, col: nat, c: Coefficients)
    requires col <= 4 && Reduce(m, col).Some?
    ensures Solves(Reduce(m, col).value, c) <==> Solves(m, c)
    decreases 4 - col
  {
    if col < 4 {
      var pivot := PivotFrom(m, col, col, col + 1);
      SwapKeepsSolutions(m, col, pivot, c);
      ClearKeepsSolutions(SwapRows(m, col, pivot), col, c);
      ReduceKeepsSolutions(ReduceColumn(m, col).value, col + 1, c);
    }
  }

  /** The columns left of `col` hold a nonzero diagonal and zeros elsewhere. */
  predicate ClearedBefore(m: Matrix, col: nat) {
    forall i, k | 0 <= i < 4 && 0 <= k < col && k < 4 :: (m[i][k] == 0.0) <==> i != k
  }

  lemma ClearedEntry(m: Matrix, col: nat, i: nat, k: nat)
    requires col < 4 && i < 4 && k <= col && ClearedBefore(m, col) && m[col][col] != 0.0
    ensures (ClearedRow(m, col, i)[k] == 0.0) <==> i != k
  {
    if i != col {
      var factor := m[i][col] / m[col][col];
      assert ClearedRow(m, col, i)[k] == m[i][k] - factor * m[col][k];
      if k < col { assert m[col][k] == 0.0; }
    }
  }

  lemma ReduceColumnClears(m: Matrix, col: nat)
    requires col < 4 && ClearedBefore(m, col) && ReduceColumn(m, col).Some?
    ensures ClearedBefore(ReduceColumn(m, col).value, col + 1)
  {
    var s := SwapRows(m, col, PivotFrom(m, col, col, col + 1));
    assert ClearedBefore(s, col);
    var t := ClearColumn(s, col);
    forall i, k | 0 <= i < 4 && 0 <= k < col + 1 ensures (t[i][k] == 0.0) <==> i != k {
      assert t[i] == ClearedRow(s, col, i);
      ClearedEntry(s, col, i, k);
    }
  }

  lemma {:induction false} ReduceClears(m: Matrix, col: nat)
    requires col <= 4 && ClearedBefore(m, col) && Reduce(m, col).Some?
    ensures ClearedBefore(Reduce(m, col).value, 4)
    decreases 4 - col
  {
    if col < 4 {
      ReduceColumnClears(m, col);
      ReduceClears(ReduceColumn(m, col).value, col + 1);
    }
  }

  lemma ReducedIsDiagonal(m: Matrix, col: nat)
    requires col == 0
    ensures Reduce(m, col).Some? ==> ClearedBefore(Reduce(m, col).value, 4)
    ensures Reduce(m, col).Some? ==> forall i | 0 <= i < 4 :: Reduce(m, col).value[i][i] != 0.0
  {
    if Reduce(m, col).Some? { ReduceClears(m, col); }
  }
}
