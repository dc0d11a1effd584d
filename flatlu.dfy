/** lu.c: the Doolittle solver `lu` on a matrix stored column-major in one flat array: entry
    (row i, column j) is `matrix[i + neq * j]` and the right-hand side is column neq, at
    `matrix[i + neq * neq]`. L and U are flat arrays of neq * neq entries in the same layout. */
module FlatLu {
  import opened Numeric
  import opened Linear

  /** The number of cells in c columns of n rows, n * c (see CellsIsProduct). */
  function Cells(n: nat, c: nat): nat
    decreases c
  {
    if c == 0 then 0 else Cells(n, c - 1) + n
  }

  lemma {:induction false} CellsIsProduct(n: nat, c: nat)
    ensures Cells(n, c) == n * c
    decreases c
  {
    if c > 0 {
      CellsIsProduct(n, c - 1);
    }
  }

  lemma {:induction false} CellsMono(n: nat, a: nat, b: nat)
    ensures a <= b ==> Cells(n, a) <= Cells(n, b)
    decreases b
  {
    if a < b {
      CellsMono(n, a, b - 1);
    }
  }

  /** The column-major position of entry (r, c) in a matrix with n rows: r + n * c. */
  function Idx(n: nat, r: nat, c: nat): (k: nat)
    ensures r < n && c < n ==> k < Cells(n, n)
    ensures r < n && c <= n ==> k < Cells(n, n + 1)
  {
    CellsMono(n, c + 1, n);
    CellsMono(n, c + 1, n + 1);
    r + Cells(n, c)
  }

  /** Different entries of a matrix with n rows have different positions. */
  lemma IdxInjective(n: nat, r1: nat, c1: nat, r2: nat, c2: nat)
    requires r1 < n && r2 < n && Idx(n, r1, c1) == Idx(n, r2, c2)
    ensures r1 == r2 && c1 == c2
  {
    if c1 < c2 {
      CellsMono(n, c1 + 1, c2);
    } else if c2 < c1 {
      CellsMono(n, c2 + 1, c1);
    }
  }

  /** The first c columns of n rows fill exactly the positions below Cells(n, c). */
  lemma {:induction false} IdxCovers(n: nat, c: nat, p: nat)
    requires p < Cells(n, c)
    ensures exists r: nat, d: nat :: r < n && d < c && p == Idx(n, r, d)
    decreases c
  {
    if p < Cells(n, c - 1) {
      IdxCovers(n, c - 1, p);
      var r: nat, d: nat :| r < n && d < c - 1 && p == Idx(n, r, d);
      assert d < c;
    } else {
      assert p == Idx(n, p - Cells(n, c - 1), c - 1);
    }
  }

  /** Every other entry of a matrix with n rows lies at another position than (r, c). */
  lemma IdxApart(n: nat, r: nat, c: nat)
    requires r < n
    ensures forall r': nat, c': nat :: r' < n && (r' != r || c' != c) ==> Idx(n, r', c') != Idx(n, r, c)
  {
    forall r': nat, c': nat | r' < n && (r' != r || c' != c)
      ensures Idx(n, r', c') != Idx(n, r, c)
    {
      if Idx(n, r', c') == Idx(n, r, c) {
        IdxInjective(n, r', c', r, c);
      }
    }
  }

  /** The augmented system of order n held column-major in s. */
  ghost function ColumnMajor(s: seq<real>, n: nat): (A: Matrix)
    requires |s| >= Cells(n, n + 1)
    ensures Augmented(A, n)
    ensures forall r, c :: 0 <= r < n && 0 <= c <= n ==> A[r][c] == s[Idx(n, r, c)]
  {
    seq(n, r requires 0 <= r < n => seq(n + 1, c requires 0 <= c < n + 1 => s[Idx(n, r, c)]))
  }

  /** The augmented system held column-major in the array m. */
  ghost function FlatSystem(m: array<real>, neq: nat): (A: Matrix)
    reads m
    requires m.Length >= Cells(neq, neq + 1)
    ensures Augmented(A, neq)
    ensures forall r, c :: 0 <= r < neq && 0 <= c <= neq ==> A[r][c] == m[Idx(neq, r, c)]
  {
    ColumnMajor(m[..], neq)
  }

  /** The inner sum of `lu`'s factorisation: the sum over s < m of L[j][s] * U[s][i], read from
      the entries of l and u computed so far. */
  method DotLU(matrix: array<real>, neq: nat, l: array<real>, u: array<real>, j: nat, i: nat, m: nat)
    returns (tmp: real)
    requires matrix.Length >= Cells(neq, neq + 1)
    requires l.Length == Cells(neq, neq) && u.Length == Cells(neq, neq)
    requires j < neq && i < neq && m <= j && m <= i
    requires forall s :: 0 <= s < m ==> l[Idx(neq, j, s)] == L(FlatSystem(matrix, neq), neq, j, s)
    requires forall s :: 0 <= s < m ==> u[Idx(neq, s, i)] == U(FlatSystem(matrix, neq), neq, s, i)
    ensures tmp == SumLU(FlatSystem(matrix, neq), neq, j, i, m)
  {
    tmp := 0.0;
    var s := 0;
    while s < m
      invariant 0 <= s <= m
      invariant tmp == SumLU(FlatSystem(matrix, neq), neq, j, i, s)
    {
      tmp := tmp + l[Idx(neq, j, s)] * u[Idx(neq, s, i)];
      s := s + 1;
    }
  }

  /** Column i of U: U[0][i] = A[0][i], then U[j][i] = A[j][i] - (sum over s < j of L[j][s] * U[s][i])
      for j = 1 .. i. */
  method UColumn(matrix: array<real>, neq: nat, l: array<real>, u: array<real>, i: nat)
    requires matrix.Length >= Cells(neq, neq + 1)
    requires l.Length == Cells(neq, neq) && u.Length == Cells(neq, neq)
    requires l != u && l != matrix && u != matrix && i < neq
    requires forall t, c :: 0 <= c < i && c < t < neq ==> l[Idx(neq, t, c)] == L(FlatSystem(matrix, neq), neq, t, c)
    requires forall t, c :: 0 <= t <= c < i ==> u[Idx(neq, t, c)] == U(FlatSystem(matrix, neq), neq, t, c)
    modifies u
    ensures forall t, c :: 0 <= t <= c <= i ==> u[Idx(neq, t, c)] == U(FlatSystem(matrix, neq), neq, t, c)
  {
    ghost var A := FlatSystem(matrix, neq);
    IdxApart(neq, 0, i);
    u[Idx(neq, 0, i)] := matrix[Idx(neq, 0, i)];
    if i > 0 {
      var j := 1;
      while j <= i
        invariant 1 <= j <= i + 1
        invariant forall t :: 0 <= t < j ==> u[Idx(neq, t, i)] == U(A, neq, t, i)
        invariant forall t, c :: 0 <= t <= c < i ==> u[Idx(neq, t, c)] == U(A, neq, t, c)
      {
        var tmp := DotLU(matrix, neq, l, u, j, i, j);
        IdxApart(neq, j, i);
        u[Idx(neq, j, i)] := matrix[Idx(neq, j, i)] - tmp;
        j := j + 1;
      }
    }
  }

  /** Column i of L below the diagonal: L[j][i] = (A[j][i] - sum over s < i of L[j][s] * U[s][i]) / U[i][i],
      abandoned with false at the first row if the pivot U[i][i] is zero. */
  method LColumn(matrix: array<real>, neq: nat, l: array<real>, u: array<real>, i: nat) returns (ok: bool)
    requires matrix.Length >= Cells(neq, neq + 1)
    requires l.Length == Cells(neq, neq) && u.Length == Cells(neq, neq)
    requires l != u && l != matrix && u != matrix && i < neq
    requires forall t, c :: 0 <= c < i && c < t < neq ==> l[Idx(neq, t, c)] == L(FlatSystem(matrix, neq), neq, t, c)
    requires forall t, c :: 0 <= t <= c <= i ==> u[Idx(neq, t, c)] == U(FlatSystem(matrix, neq), neq, t, c)
    modifies l
    ensures ok <==> (i < neq - 1 ==> U(FlatSystem(matrix, neq), neq, i, i) != 0.0)
    ensures ok ==> forall t, c :: 0 <= c <= i && c < t < neq ==> l[Idx(neq, t, c)] == L(FlatSystem(matrix, neq), neq, t, c)
    ensures forall t, c :: 0 <= t < neq && 0 <= c < neq && (c != i || t <= i) ==> l[Idx(neq, t, c)] == old(l[Idx(neq, t, c)])
  {
    ghost var A := FlatSystem(matrix, neq);
    ghost var l0 := l[..];
    var j := i + 1;
    while j < neq
      invariant i + 1 <= j <= neq
      invariant j > i + 1 ==> U(A, neq, i, i) != 0.0
      invariant LColumnUpTo(l[..], l0, A, neq, i, j)
    {
      if u[Idx(neq, i, i)] == 0.0 {
        return false;
      }
      assert A[j][i] == matrix[Idx(neq, j, i)] && U(A, neq, i, i) == u[Idx(neq, i, i)];
      var v;
      if i == 0 {
        v := matrix[Idx(neq, j, i)] / u[Idx(neq, i, i)];
      } else {
        var tmp := DotLU(matrix, neq, l, u, j, i, i);
        v := (matrix[Idx(neq, j, i)] - tmp) / u[Idx(neq, i, i)];
      }
      assert v == L(A, neq, j, i);
      ghost var before := l[..];
      l[Idx(neq, j, i)] := v;
      assert l[..] == before[Idx(neq, j, i) := v];
      LColumnStep(before, l0, A, neq, i, j, v);
      j := j + 1;
    }
    return true;
  }

  /** Rows i + 1 .. j - 1 of column i of m hold L, and every other entry of the square part is
      as in m0. */
  ghost predicate LColumnUpTo(m: seq<real>, m0: seq<real>, A: Matrix, neq: nat, i: nat, j: nat)
    requires Augmented(A, neq) && |m| == |m0| == Cells(neq, neq) && i < neq
  {
    && (forall t :: i < t < j && t < neq ==> m[Idx(neq, t, i)] == L(A, neq, t, i))
    && (forall t, c :: 0 <= t < neq && 0 <= c < neq && (c != i || t <= i || t >= j) ==> m[Idx(neq, t, c)] == m0[Idx(neq, t, c)])
  }

  /** Writing L[j][i] at (j, i) carries LColumnUpTo from j to j + 1. */
  lemma LColumnStep(m: seq<real>, m0: seq<real>, A: Matrix, neq: nat, i: nat, j: nat, v: real)
    requires Augmented(A, neq) && |m| == |m0| == Cells(neq, neq) && i < j < neq
    requires LColumnUpTo(m, m0, A, neq, i, j) && v == L(A, neq, j, i)
    ensures LColumnUpTo(m[Idx(neq, j, i) := v], m0, A, neq, i, j + 1)
  {
    IdxApart(neq, j, i);
  }

  /** The factorisation part of `lu`: column i of U (rows 0..i) and column i of L (rows below i)
      are computed for each i in turn; a zero pivot U[i][i] met while computing L ends the
      factorisation. That test only runs for i < neq - 1. */
  method Factor(matrix: array<real>, neq: nat, l: array<real>, u: array<real>) returns (ok: bool)
    requires matrix.Length >= Cells(neq, neq + 1)
    requires l.Length == Cells(neq, neq) && u.Length == Cells(neq, neq)
    requires l != u && l != matrix && u != matrix
    requires forall i :: 0 <= i < neq ==> l[Idx(neq, i, i)] == 1.0
    modifies l, u
    ensures ok <==> forall i :: 0 <= i < neq - 1 ==> U(FlatSystem(matrix, neq), neq, i, i) != 0.0
    ensures forall i :: 0 <= i < neq ==> l[Idx(neq, i, i)] == 1.0
    ensures ok ==> forall j, c :: 0 <= j <= c < neq ==> u[Idx(neq, j, c)] == U(FlatSystem(matrix, neq), neq, j, c)
    ensures ok ==> forall j, c :: 0 <= c < j < neq ==> l[Idx(neq, j, c)] == L(FlatSystem(matrix, neq), neq, j, c)
  {
    ghost var A := FlatSystem(matrix, neq);
    var i := 0;
    while i < neq
      invariant 0 <= i <= neq
      invariant A == FlatSystem(matrix, neq)
      invariant forall t :: 0 <= t < neq ==> l[Idx(neq, t, t)] == 1.0
      invariant forall j, c :: 0 <= j <= c < i ==> u[Idx(neq, j, c)] == U(A, neq, j, c)
      invariant forall j, c :: 0 <= c < i && c < j < neq ==> l[Idx(neq, j, c)] == L(A, neq, j, c)
      invariant forall c :: 0 <= c < i && c < neq - 1 ==> U(A, neq, c, c) != 0.0
    {
      UColumn(matrix, neq, l, u, i);
      ok := LColumn(matrix, neq, l, u, i);
      if !ok {
        return false;
      }
      i := i + 1;
    }
    return true;
  }

  /** Forward substitution of `lu`: solves L * y == b for the right-hand side column b. */
  method Forward(matrix: array<real>, neq: nat, l: array<real>, y: array<real>)
    requires matrix.Length >= Cells(neq, neq + 1)
    requires l.Length == Cells(neq, neq) && y.Length == neq && y != matrix && l != y
    requires forall j, c :: 0 <= c < j < neq ==> l[Idx(neq, j, c)] == L(FlatSystem(matrix, neq), neq, j, c)
    modifies y
    ensures forall t :: 0 <= t < neq ==> y[t] == Y(FlatSystem(matrix, neq), neq, t)
  {
    ghost var A := FlatSystem(matrix, neq);
    var i := 0;
    while i < neq
      invariant 0 <= i <= neq
      invariant forall t :: 0 <= t < i ==> y[t] == Y(A, neq, t)
    {
      var tmp := DotLY(neq, l, y, i, A);
      y[i] := matrix[Idx(neq, i, neq)] - tmp;
      i := i + 1;
    }
  }

  /** The inner sum of `lu`'s forward substitution: the sum over j < i of L[i][j] * y[j], with
      y[j] already computed for j < i. */
  method DotLY(neq: nat, l: array<real>, y: array<real>, i: nat, ghost A: Matrix) returns (tmp: real)
    requires Augmented(A, neq) && l.Length == Cells(neq, neq) && y.Length == neq && i < neq
    requires forall c :: 0 <= c < i ==> l[Idx(neq, i, c)] == L(A, neq, i, c)
    requires forall t :: 0 <= t < i ==> y[t] == Y(A, neq, t)
    ensures tmp == SumLY(A, neq, i, i)
  {
    tmp := 0.0;
    var j := 0;
    while j < i
      invariant 0 <= j <= i
      invariant tmp == SumLY(A, neq, i, j)
    {
      tmp := tmp + l[Idx(neq, i, j)] * y[j];
      j := j + 1;
    }
  }

  /** The inner sum of `lu`'s back substitution: the sum over i <= j < neq of U[i][j] * x[j],
      where x[i] is still 0 and x[j] for j > i is already computed. */
  method DotUX(neq: nat, u: array<real>, solution: array<real>, i: nat, ghost T: Matrix)
    returns (tmp: real)
    requires Augmented(T, neq)
    requires u.Length == Cells(neq, neq) && solution.Length >= neq && i < neq
    requires forall c :: i <= c < neq ==> u[Idx(neq, i, c)] == T[i][c]
    requires solution[i] == 0.0
    requires forall t :: i < t < neq ==> solution[t] == BackX(T, neq, t)
    ensures tmp == SumTX(T, neq, i, i + 1)
  {
    tmp := 0.0;
    var j := i;
    while j < neq
      invariant i <= j <= neq
      invariant j == i ==> tmp == 0.0
      invariant j > i ==> tmp + SumTX(T, neq, i, j) == SumTX(T, neq, i, i + 1)
    {
      tmp := tmp + u[Idx(neq, i, j)] * solution[j];
      j := j + 1;
    }
  }

  /** Back substitution of `lu`: solves U * x == y from the last row up, failing on a zero pivot.
      Since the factorisation already checked every pivot but the last, only the first step can fail,
      before anything is written. */
  method Back(neq: nat, u: array<real>, y: array<real>, solution: array<real>, ghost T: Matrix)
    returns (ok: bool)
    requires Augmented(T, neq)
    requires u.Length == Cells(neq, neq) && y.Length == neq && solution.Length >= neq
    requires y != solution && u != solution && u != y
    requires forall j, c :: 0 <= j <= c < neq ==> u[Idx(neq, j, c)] == T[j][c]
    requires forall t :: 0 <= t < neq ==> y[t] == T[t][neq]
    requires forall i :: 0 <= i < neq - 1 ==> T[i][i] != 0.0
    requires forall t :: 0 <= t < neq ==> solution[t] == 0.0
    modifies solution
    ensures ok <==> DiagonalNonzero(T, neq)
    ensures ok ==> solution[..neq] == BackVec(T, neq)
    ensures !ok ==> forall t :: 0 <= t < neq ==> solution[t] == 0.0
    ensures solution[neq..] == old(solution[neq..])
  {
    var i: int := neq - 1;
    while i >= 0
      invariant -1 <= i <= neq - 1
      invariant forall t :: i < t < neq ==> solution[t] == BackX(T, neq, t)
      invariant forall t :: 0 <= t <= i ==> solution[t] == 0.0
      invariant forall t :: i < t < neq ==> T[t][t] != 0.0
      invariant solution[neq..] == old(solution[neq..])
    {
      if u[Idx(neq, i, i)] == 0.0 {
        return false;
      }
      var tmp := DotUX(neq, u, solution, i, T);
      solution[i] := (y[i] - tmp) / u[Idx(neq, i, i)];
      assert solution[i] == BackX(T, neq, i);
      i := i - 1;
    }
    assert solution[..neq] == BackVec(T, neq);
    return true;
  }

  /** `lu` of lu.c: resets `solution` and sets L's unit diagonal, factors A == L * U and solves L * y == b, U * x == y. It returns -1
      exactly when a pivot U[i][i] is zero, leaving `solution` all zero; otherwise it returns 0 and
      `solution` solves the system. `matrix` is only read. */
  method Lu(matrix: array<real>, solution: array<real>, neq: nat) returns (r: int)
    requires matrix.Length >= Cells(neq, neq + 1) && solution.Length >= neq && solution != matrix
    modifies solution
    ensures r == 0 || r == -1
    ensures r == 0 <==> PivotsNonzero(FlatSystem(matrix, neq), neq, neq)
    ensures r == 0 ==> solution[..neq] == XVec(FlatSystem(matrix, neq), neq)
    ensures r == 0 ==> Solves(FlatSystem(matrix, neq), neq, solution[..neq])
    ensures r == -1 ==> forall i :: 0 <= i < neq ==> solution[i] == 0.0
    ensures solution[neq..] == old(solution[neq..])
  {
    var y := new real[neq](_ => 0.0);
    var l := new real[Cells(neq, neq)](_ => 0.0);
    var u := new real[Cells(neq, neq)](_ => 0.0);
    var i := 0;
    while i < neq
      invariant 0 <= i <= neq
      invariant forall t :: 0 <= t < i ==> solution[t] == 0.0
      invariant forall t :: 0 <= t < i ==> l[Idx(neq, t, t)] == 1.0
      invariant solution[neq..] == old(solution[neq..])
    {
      solution[i] := 0.0;
      IdxApart(neq, i, i);
      l[Idx(neq, i, i)] := 1.0;
      i := i + 1;
    }
    var ok := Factor(matrix, neq, l, u);
    if !ok {
      return -1;
    }
    Forward(matrix, neq, l, y);
    ghost var A := FlatSystem(matrix, neq);
    ghost var T := UY(A, neq);
    assert forall i :: 0 <= i < neq - 1 ==> U(A, neq, i, i) != 0.0;
    assert forall i :: 0 <= i < neq - 1 ==> T[i][i] == U(A, neq, i, i);
    ok := Back(neq, u, y, solution, T);
    if !ok {
      return -1;
    }
    assert PivotsNonzero(A, neq, neq);
    SubstitutionSolves(FlatSystem(matrix, neq), neq);
    return 0;
  }

}
