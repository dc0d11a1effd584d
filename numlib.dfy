/** src/lu.c: `NUM_lu`, the column-major Doolittle solver of the numerical library, and
    `NUM_matscale`, which divides every row of a column-major system by its largest truncated
    magnitude. */
module NumLib {
  import opened Numeric
  import opened Linear
  import opened FlatLu

  /** `NUM_lu`: the body is the same as `lu` of lu.c, so it is that solver, with its contract. */
  method NumLu(matrix: array<real>, solution: array<real>, neq: nat) returns (r: int)
    requires matrix.Length >= Cells(neq, neq + 1) && solution.Length >= neq && solution != matrix
    modifies solution
    ensures r == 0 || r == -1
    ensures r == 0 <==> PivotsNonzero(FlatSystem(matrix, neq), neq, neq)
    ensures r == 0 ==> solution[..neq] == XVec(FlatSystem(matrix, neq), neq)
    ensures r == 0 ==> Solves(FlatSystem(matrix, neq), neq, solution[..neq])
    ensures r == -1 ==> forall i :: 0 <= i < neq ==> solution[i] == 0.0
    ensures solution[neq..] == old(solution[neq..])
  {
    r := Lu(matrix, solution, neq);
  }

  /** `abs` applied to a double: the argument is converted to `int` (truncated toward zero)
      before its magnitude is taken, so the fraction is lost. */
  function Mag(x: real): (v: real)
    ensures v >= 0.0
    ensures v <= Abs(x) < v + 1.0
  {
    IntAbs(Trunc(x)) as real
  }

  /** The running maximum of `NUM_matscale` over the first j columns of row i, starting at 0. */
  function RowMax(m: seq<real>, n: nat, i: nat, j: nat): (v: real)
    requires |m| >= Cells(n, n + 1) && i < n && j <= n
    ensures v >= 0.0
    ensures forall c :: 0 <= c < j ==> Mag(m[Idx(n, i, c)]) <= v
    ensures v == 0.0 || exists c :: 0 <= c < j && v == Mag(m[Idx(n, i, c)])
    decreases j
  {
    if j == 0 then 0.0
    else
      var p := RowMax(m, n, i, j - 1);
      var t := Mag(m[Idx(n, i, j - 1)]);
      if t > p then t else p
  }

  /** The first row from i on whose scale is zero, or n when there is none. */
  function ZeroRow(m: seq<real>, n: nat, i: nat): (k: nat)
    requires |m| >= Cells(n, n + 1) && i <= n
    ensures i <= k <= n
    ensures forall t :: i <= t < k ==> RowMax(m, n, t, n) != 0.0
    ensures k < n ==> RowMax(m, n, k, n) == 0.0
    decreases n - i
  {
    if i == n then n
    else if RowMax(m, n, i, n) == 0.0 then i
    else ZeroRow(m, n, i + 1)
  }

  /** Row i's scale is zero exactly when every entry of its square part has magnitude below 1. */
  lemma ZeroScale(m: seq<real>, n: nat, i: nat)
    requires |m| >= Cells(n, n + 1) && i < n
    ensures RowMax(m, n, i, n) == 0.0 <==> forall c :: 0 <= c < n ==> Abs(m[Idx(n, i, c)]) < 1.0
  {
    if forall c :: 0 <= c < n ==> Abs(m[Idx(n, i, c)]) < 1.0 {
      forall c | 0 <= c < n
        ensures Mag(m[Idx(n, i, c)]) == 0.0
      {
      }
    } else {
      var c :| 0 <= c < n && Abs(m[Idx(n, i, c)]) >= 1.0;
      assert Mag(m[Idx(n, i, c)]) > 0.0;
    }
  }

  lemma ScaleRow(A: Matrix, B: Matrix, n: nat, r: nat, k: real, x: seq<real>)
    requires Augmented(A, n) && Augmented(B, n) && r < n
    requires forall c :: 0 <= c <= n ==> B[r][c] == k * A[r][c]
    ensures Sum(n, RowTimes(B, r, x)) == k * Sum(n, RowTimes(A, r, x))
  {
    forall c: nat | c < n
      ensures RowTimes(B, r, x)(c) == Scaled(k, RowTimes(A, r, x))(c)
    {
    }
    SumExt(n, RowTimes(B, r, x), Scaled(k, RowTimes(A, r, x)));
    SumScaled(n, k, RowTimes(A, r, x));
  }

  lemma Cancel(k: real, a: real, b: real)
    requires k != 0.0
    ensures k * a == k * b <==> a == b
  {
    if k * a == k * b {
      assert (1.0 / k) * (k * a) == a && (1.0 / k) * (k * b) == b;
    }
  }

  /** Row r of B is row r of A times k != 0: x satisfies the one equation iff the other. */
  lemma ScaledRowEquation(A: Matrix, B: Matrix, n: nat, r: nat, k: real, x: seq<real>)
    requires Augmented(A, n) && Augmented(B, n) && r < n && k != 0.0
    requires forall c :: 0 <= c <= n ==> B[r][c] == k * A[r][c]
    ensures Sum(n, RowTimes(A, r, x)) == A[r][n] <==> Sum(n, RowTimes(B, r, x)) == B[r][n]
  {
    ScaleRow(A, B, n, r, k, x);
    Cancel(k, Sum(n, RowTimes(A, r, x)), A[r][n]);
  }

  /** Dividing each row of a system (right-hand side included) by a nonzero number keeps its
      solutions: the point of `NUM_matscale`. */
  lemma ScalingKeepsSolutions(A: Matrix, B: Matrix, n: nat, s: seq<real>, x: seq<real>)
    requires Augmented(A, n) && Augmented(B, n) && |s| == n
    requires forall r :: 0 <= r < n ==> s[r] != 0.0
    requires forall r, c :: 0 <= r < n && 0 <= c <= n ==> B[r][c] == A[r][c] / s[r]
    ensures Solves(A, n, x) <==> Solves(B, n, x)
  {
    forall r | 0 <= r < n
      ensures Sum(n, RowTimes(A, r, x)) == A[r][n] <==> Sum(n, RowTimes(B, r, x)) == B[r][n]
    {
      var k := 1.0 / s[r];
      assert k != 0.0;
      forall c | 0 <= c <= n
        ensures B[r][c] == k * A[r][c]
      {
      }
      ScaledRowEquation(A, B, n, r, k, x);
    }
  }

  /** The scaled system `NUM_matscale` leaves when every row has a nonzero scale. */
  lemma ScaledSystem(m0: seq<real>, m1: seq<real>, n: nat)
    requires |m0| >= Cells(n, n + 1) && |m1| >= Cells(n, n + 1)
    requires ZeroRow(m0, n, 0) == n
    requires forall i, c :: 0 <= i < n && 0 <= c <= n ==> m1[Idx(n, i, c)] == Quot(m0[Idx(n, i, c)], RowMax(m0, n, i, n))
    ensures forall x :: Solves(ColumnMajor(m0, n), n, x) <==> Solves(ColumnMajor(m1, n), n, x)
  {
    var s := seq(n, t requires 0 <= t < n => RowMax(m0, n, t, n));
    forall x
      ensures Solves(ColumnMajor(m0, n), n, x) <==> Solves(ColumnMajor(m1, n), n, x)
    {
      ScalingKeepsSolutions(ColumnMajor(m0, n), ColumnMajor(m1, n), n, s, x);
    }
  }

  /** The first loop of `NUM_matscale`: the scale of row i. */
  method RowScale(matrix: array<real>, neq: nat, i: nat, ghost m0: seq<real>) returns (val: real)
    requires matrix.Length >= Cells(neq, neq + 1) && |m0| == matrix.Length && i < neq
    requires forall c :: 0 <= c < neq ==> matrix[Idx(neq, i, c)] == m0[Idx(neq, i, c)]
    ensures val == RowMax(m0, neq, i, neq)
  {
    val := 0.0;
    var j := 0;
    while j < neq
      invariant 0 <= j <= neq
      invariant val == RowMax(m0, neq, i, j)
    {
      var tmp := Mag(matrix[Idx(neq, i, j)]);
      assert tmp == Mag(m0[Idx(neq, i, j)]);
      val := if tmp > val then tmp else val;
      assert val == RowMax(m0, neq, i, j + 1);
      j := j + 1;
    }
  }

  /** The second loop of `NUM_matscale`: row i, right-hand side included, divided by val. */
  method DivideRow(matrix: array<real>, neq: nat, i: nat, val: real, ghost m0: seq<real>)
    requires matrix.Length >= Cells(neq, neq + 1) && |m0| == matrix.Length && i < neq
    requires val == RowMax(m0, neq, i, neq) && val != 0.0
    requires forall t, c :: 0 <= t < neq && 0 <= c <= neq ==>
      matrix[Idx(neq, t, c)] == if t < i then Quot(m0[Idx(neq, t, c)], RowMax(m0, neq, t, neq)) else m0[Idx(neq, t, c)]
    requires forall p :: Cells(neq, neq + 1) <= p < matrix.Length ==> matrix[p] == m0[p]
    modifies matrix
    ensures forall t, c :: 0 <= t < neq && 0 <= c <= neq ==>
      matrix[Idx(neq, t, c)] == if t <= i then Quot(m0[Idx(neq, t, c)], RowMax(m0, neq, t, neq)) else m0[Idx(neq, t, c)]
    ensures forall p :: Cells(neq, neq + 1) <= p < matrix.Length ==> matrix[p] == m0[p]
  {
    var j := 0;
    while j < neq + 1
      invariant 0 <= j <= neq + 1
      invariant DividedUpTo(matrix[..], m0, neq, i, j)
      invariant forall p :: Cells(neq, neq + 1) <= p < matrix.Length ==> matrix[p] == m0[p]
    {
      ghost var before := matrix[..];
      matrix[Idx(neq, i, j)] := matrix[Idx(neq, i, j)] / val;
      assert matrix[..] == before[Idx(neq, i, j) := before[Idx(neq, i, j)] / val];
      DivideCellStep(before, m0, neq, i, j, val);
      j := j + 1;
    }
  }

  /** The rows above i of m are those of m0 divided by their scale, and so are the first j cells
      of row i; the rest is as in m0. */
  ghost predicate DividedUpTo(m: seq<real>, m0: seq<real>, neq: nat, i: nat, j: nat)
    requires |m| == |m0| >= Cells(neq, neq + 1)
  {
    forall t, c :: 0 <= t < neq && 0 <= c <= neq ==>
      m[Idx(neq, t, c)] ==
        if t < i || (t == i && c < j) then Quot(m0[Idx(neq, t, c)], RowMax(m0, neq, t, neq)) else m0[Idx(neq, t, c)]
  }

  /** Dividing cell (i, j) by the scale of row i carries DividedUpTo from j to j + 1. */
  lemma DivideCellStep(m: seq<real>, m0: seq<real>, neq: nat, i: nat, j: nat, val: real)
    requires |m| == |m0| >= Cells(neq, neq + 1) && i < neq && j <= neq
    requires val == RowMax(m0, neq, i, neq) && val != 0.0
    requires DividedUpTo(m, m0, neq, i, j)
    ensures DividedUpTo(m[Idx(neq, i, j) := m[Idx(neq, i, j)] / val], m0, neq, i, j + 1)
  {
    IdxApart(neq, i, j);
  }

  /** `NUM_matscale`. Row by row, the scale is the largest truncated magnitude in the square part;
      a zero scale returns -1 at once, leaving the earlier rows divided and that row and the later
      ones as they were. Otherwise the whole row, right-hand side included, is divided by the
      scale, and 0 is returned when every row is done. */
  method MatScale(matrix: array<real>, neq: nat) returns (r: int)
    requires matrix.Length >= Cells(neq, neq + 1)
    modifies matrix
    ensures r == 0 || r == -1
    ensures r == 0 <==> ZeroRow(old(matrix[..]), neq, 0) == neq
    ensures forall i, c :: 0 <= i < neq && 0 <= c <= neq ==>
      matrix[Idx(neq, i, c)] ==
        if i < ZeroRow(old(matrix[..]), neq, 0)
        then Quot(old(matrix[Idx(neq, i, c)]), RowMax(old(matrix[..]), neq, i, neq))
        else old(matrix[Idx(neq, i, c)])
    ensures forall p :: Cells(neq, neq + 1) <= p < matrix.Length ==> matrix[p] == old(matrix[p])
    ensures r == 0 ==> forall x :: Solves(ColumnMajor(old(matrix[..]), neq), neq, x) <==> Solves(FlatSystem(matrix, neq), neq, x)
  {
    ghost var m0 := matrix[..];
    var i := 0;
    while i < neq
      invariant 0 <= i <= neq
      invariant ZeroRow(m0, neq, 0) == ZeroRow(m0, neq, i)
      invariant forall t, c :: 0 <= t < neq && 0 <= c <= neq ==>
        matrix[Idx(neq, t, c)] == if t < i then Quot(m0[Idx(neq, t, c)], RowMax(m0, neq, t, neq)) else m0[Idx(neq, t, c)]
      invariant forall p :: Cells(neq, neq + 1) <= p < matrix.Length ==> matrix[p] == m0[p]
    {
      var val := RowScale(matrix, neq, i, m0);
      if val == 0.0 {
        return -1;
      }
      DivideRow(matrix, neq, i, val, m0);
      i := i + 1;
    }
    ScaledSystem(m0, matrix[..], neq);
    return 0;
  }

  /** The system of src/test.c, column-major: A = [[0, 2, 1], [1, 0, 0], [3, 0, 1]]. The
      right-hand side literals -2/3 and 5/2 are C integer divisions, so b = [0, 2, 1]. */
  function TestMatrix(): (m: seq<real>)
    ensures |m| == Cells(3, 4)
  {
    [0.0, 1.0, 3.0, 2.0, 0.0, 0.0, 1.0, 0.0, 1.0, 0.0, 2.0, 1.0]
  }

  /** Without pivoting the zero leading entry is a zero pivot, so `NUM_lu` returns -1 on this
      system, although x = [2, 5/2, -5] solves it. */
  lemma TestSystemFails()
    ensures !PivotsNonzero(ColumnMajor(TestMatrix(), 3), 3, 3)
    ensures Solves(ColumnMajor(TestMatrix(), 3), 3, [2.0, 2.5, -5.0])
  {
    var A := ColumnMajor(TestMatrix(), 3);
    var x := [2.0, 2.5, -5.0];
    assert A[0] == [0.0, 2.0, 1.0, 0.0];
    assert A[1] == [1.0, 0.0, 0.0, 2.0];
    assert A[2] == [3.0, 0.0, 1.0, 1.0];
    assert U(A, 3, 0, 0) == 0.0;
    forall i | 0 <= i < 3
      ensures Sum(3, RowTimes(A, i, x)) == A[i][3]
    {
      assert Sum(3, RowTimes(A, i, x)) == A[i][0] * 2.0 + A[i][1] * 2.5 + A[i][2] * -5.0;
    }
  }
}
