/** libnum.c: the dense solvers `lu` (Doolittle factorisation without pivoting) and `gauss`
    (elimination in place) over a matrix of `neq` rows of `neq + 1` doubles whose last column is the
    right-hand side, and the tie-to-even `round`. */
module LibNum {
  import opened Numeric
  import opened Linear

  /** The leading neq x (neq + 1) block of a two-dimensional array, as an augmented system. */
  ghost function System(m: array2<real>, neq: nat): (A: Matrix)
    reads m
    requires m.Length0 >= neq && m.Length1 >= neq + 1
    ensures Augmented(A, neq)
    ensures forall r, c :: 0 <= r < neq && 0 <= c <= neq ==> A[r][c] == m[r, c]
  {
    seq(neq, r requires 0 <= r < neq reads m =>
      seq(neq + 1, c requires 0 <= c < neq + 1 reads m => m[r, c]))
  }

  // ---------------------------------------------------------------- lu

  /** The inner sum of `lu`'s factorisation: the sum over s < m of L[j][s] * U[s][i], read from
      the entries of l and u computed so far. */
  method DotLU(matrix: array2<real>, neq: nat, l: array2<real>, u: array2<real>, j: nat, i: nat, m: nat)
    returns (tmp: real)
    requires matrix.Length0 >= neq && matrix.Length1 >= neq + 1
    requires l.Length0 == neq && l.Length1 == neq && u.Length0 == neq && u.Length1 == neq
    requires j < neq && i < neq && m <= j && m <= i
    requires forall s :: 0 <= s < m ==> l[j, s] == L(System(matrix, neq), neq, j, s)
    requires forall s :: 0 <= s < m ==> u[s, i] == U(System(matrix, neq), neq, s, i)
    ensures tmp == SumLU(System(matrix, neq), neq, j, i, m)
  {
    tmp := 0.0;
    var s := 0;
    while s < m
      invariant 0 <= s <= m
      invariant tmp == SumLU(System(matrix, neq), neq, j, i, s)
    {
      tmp := tmp + l[j, s] * u[s, i];
      s := s + 1;
    }
  }

  /** Column i of U: U[0][i] = A[0][i], then U[j][i] = A[j][i] - (sum over s < j of L[j][s] * U[s][i])
      for j = 1 .. i. */
  method UColumn(matrix: array2<real>, neq: nat, l: array2<real>, u: array2<real>, i: nat)
    requires matrix.Length0 >= neq && matrix.Length1 >= neq + 1
    requires l.Length0 == neq && l.Length1 == neq && u.Length0 == neq && u.Length1 == neq
    requires l != u && i < neq
    requires forall t, c :: 0 <= c < i && c < t < neq ==> l[t, c] == L(System(matrix, neq), neq, t, c)
    requires forall t, c :: 0 <= t <= c < i ==> u[t, c] == U(System(matrix, neq), neq, t, c)
    modifies u
    ensures forall t, c :: 0 <= t <= c <= i ==> u[t, c] == U(System(matrix, neq), neq, t, c)
  {
    ghost var A := System(matrix, neq);
    u[0, i] := matrix[0, i];
    if i > 0 {
      var j := 1;
      while j <= i
        invariant 1 <= j <= i + 1
        invariant forall t :: 0 <= t < j ==> u[t, i] == U(A, neq, t, i)
        invariant forall t, c :: 0 <= t <= c < i ==> u[t, c] == U(A, neq, t, c)
      {
        var tmp := DotLU(matrix, neq, l, u, j, i, j);
        u[j, i] := matrix[j, i] - tmp;
        j := j + 1;
      }
    }
  }

  /** Column i of L below the diagonal: L[j][i] = (A[j][i] - sum over s < i of L[j][s] * U[s][i]) / U[i][i],
      abandoned with false at the first row if the pivot U[i][i] is zero. */
  method LColumn(matrix: array2<real>, neq: nat, l: array2<real>, u: array2<real>, i: nat) returns (ok: bool)
    requires matrix.Length0 >= neq && matrix.Length1 >= neq + 1
    requires l.Length0 == neq && l.Length1 == neq && u.Length0 == neq && u.Length1 == neq
    requires l != u && i < neq
    requires forall t, c :: 0 <= c < i && c < t < neq ==> l[t, c] == L(System(matrix, neq), neq, t, c)
    requires forall t, c :: 0 <= t <= c <= i ==> u[t, c] == U(System(matrix, neq), neq, t, c)
    modifies l
    ensures ok <==> (i < neq - 1 ==> U(System(matrix, neq), neq, i, i) != 0.0)
    ensures ok ==> forall t, c :: 0 <= c <= i && c < t < neq ==> l[t, c] == L(System(matrix, neq), neq, t, c)
    ensures forall t, c :: 0 <= t < neq && 0 <= c < neq && (c != i || t <= i) ==> l[t, c] == old(l[t, c])
  {
    ghost var A := System(matrix, neq);
    var j := i + 1;
    while j < neq
      invariant i + 1 <= j <= neq
      invariant j > i + 1 ==> U(A, neq, i, i) != 0.0
      invariant forall t :: i < t < j ==> l[t, i] == L(A, neq, t, i)
      invariant forall t, c :: 0 <= t < neq && 0 <= c < neq && (c != i || t <= i || t >= j) ==> l[t, c] == old(l[t, c])
    {
      if u[i, i] == 0.0 {
        return false;
      }
      if i == 0 {
        l[j, i] := matrix[j, i] / u[i, i];
      } else {
        var tmp := DotLU(matrix, neq, l, u, j, i, i);
        l[j, i] := (matrix[j, i] - tmp) / u[i, i];
      }
      j := j + 1;
    }
    return true;
  }

  /** The factorisation part of `lu`: L gets a unit diagonal, then column i of U (rows 0..i) and
      column i of L (rows below i) are computed for each i in turn; a zero pivot U[i][i] met while
      computing L ends the factorisation. That test only runs for i < neq - 1. */
  method Factor(matrix: array2<real>, neq: nat, l: array2<real>, u: array2<real>) returns (ok: bool)
    requires matrix.Length0 >= neq && matrix.Length1 >= neq + 1
    requires l.Length0 == neq && l.Length1 == neq && u.Length0 == neq && u.Length1 == neq
    requires l != u
    modifies l, u
    ensures ok <==> forall i :: 0 <= i < neq - 1 ==> U(System(matrix, neq), neq, i, i) != 0.0
    ensures forall i :: 0 <= i < neq ==> l[i, i] == 1.0
    ensures ok ==> forall j, c :: 0 <= j <= c < neq ==> u[j, c] == U(System(matrix, neq), neq, j, c)
    ensures ok ==> forall j, c :: 0 <= c < j < neq ==> l[j, c] == L(System(matrix, neq), neq, j, c)
  {
    ghost var A := System(matrix, neq);
    var i := 0;
    while i < neq
      invariant 0 <= i <= neq
      invariant forall t :: 0 <= t < i ==> l[t, t] == 1.0
    {
      l[i, i] := 1.0;
      i := i + 1;
    }

    i := 0;
    while i < neq
      invariant 0 <= i <= neq
      invariant A == System(matrix, neq)
      invariant forall t :: 0 <= t < neq ==> l[t, t] == 1.0
      invariant forall j, c :: 0 <= j <= c < i ==> u[j, c] == U(A, neq, j, c)
      invariant forall j, c :: 0 <= c < i && c < j < neq ==> l[j, c] == L(A, neq, j, c)
      invariant forall c :: 0 <= c < i && c < neq - 1 ==> U(A, neq, c, c) != 0.0
    {
      UColumn(matrix, neq, l, u, i);
      ok := LColumn(matrix, neq, l, u, i);
      if !ok {
        return false;
      }
      i := i + 1;
    }
    return true;
  }

  /** Forward substitution of `lu`: solves L * y == b for the right-hand side column b. */
  method Forward(matrix: array2<real>, neq: nat, l: array2<real>, y: array<real>)
    requires matrix.Length0 >= neq && matrix.Length1 >= neq + 1
    requires l.Length0 == neq && l.Length1 == neq && y.Length == neq
    requires forall j, c :: 0 <= c < j < neq ==> l[j, c] == L(System(matrix, neq), neq, j, c)
    modifies y
    ensures forall t :: 0 <= t < neq ==> y[t] == Y(System(matrix, neq), neq, t)
  {
    ghost var A := System(matrix, neq);
    var i := 0;
    while i < neq
      invariant 0 <= i <= neq
      invariant forall t :: 0 <= t < i ==> y[t] == Y(A, neq, t)
    {
      var tmp := 0.0;
      var j := 0;
      while j < i
        invariant 0 <= j <= i
        invariant tmp == SumLY(A, neq, i, j)
      {
        tmp := tmp + l[i, j] * y[j];
        j := j + 1;
      }
      y[i] := matrix[i, neq] - tmp;
      i := i + 1;
    }
  }

  /** The inner sum of `lu`'s back substitution: the sum over i <= j < neq of U[i][j] * x[j],
      where x[i] is still 0 and x[j] for j > i is already computed. */
  method DotUX(matrix: array2<real>, neq: nat, u: array2<real>, solution: array<real>, i: nat)
    returns (tmp: real)
    requires matrix.Length0 >= neq && matrix.Length1 >= neq + 1
    requires u.Length0 == neq && u.Length1 == neq && solution.Length >= neq && i < neq
    requires forall c :: i <= c < neq ==> u[i, c] == U(System(matrix, neq), neq, i, c)
    requires solution[i] == 0.0
    requires forall t :: i < t < neq ==> solution[t] == BackX(UY(System(matrix, neq), neq), neq, t)
    ensures tmp == SumTX(UY(System(matrix, neq), neq), neq, i, i + 1)
  {
    ghost var T := UY(System(matrix, neq), neq);
    tmp := 0.0;
    var j := i;
    while j < neq
      invariant i <= j <= neq
      invariant j == i ==> tmp == 0.0
      invariant j > i ==> tmp + SumTX(T, neq, i, j) == SumTX(T, neq, i, i + 1)
    {
      tmp := tmp + u[i, j] * solution[j];
      j := j + 1;
    }
  }

  /** Back substitution of `lu`: solves U * x == y from the last row up, failing on a zero pivot.
      Since the factorisation already checked every pivot but the last, only the first step can fail,
      before anything is written. */
  method Back(matrix: array2<real>, neq: nat, u: array2<real>, y: array<real>, solution: array<real>)
    returns (ok: bool)
    requires matrix.Length0 >= neq && matrix.Length1 >= neq + 1
    requires u.Length0 == neq && u.Length1 == neq && y.Length == neq && solution.Length >= neq
    requires y != solution
    requires forall j, c :: 0 <= j <= c < neq ==> u[j, c] == U(System(matrix, neq), neq, j, c)
    requires forall t :: 0 <= t < neq ==> y[t] == Y(System(matrix, neq), neq, t)
    requires forall i :: 0 <= i < neq - 1 ==> U(System(matrix, neq), neq, i, i) != 0.0
    requires forall t :: 0 <= t < neq ==> solution[t] == 0.0
    modifies solution
    ensures ok <==> PivotsNonzero(System(matrix, neq), neq, neq)
    ensures ok ==> solution[..neq] == XVec(System(matrix, neq), neq)
    ensures !ok ==> forall t :: 0 <= t < neq ==> solution[t] == 0.0
    ensures solution[neq..] == old(solution[neq..])
  {
    ghost var A := System(matrix, neq);
    ghost var T := UY(A, neq);
    var i: int := neq - 1;
    while i >= 0
      invariant -1 <= i <= neq - 1
      invariant forall t :: i < t < neq ==> solution[t] == BackX(T, neq, t)
      invariant forall t :: 0 <= t <= i ==> solution[t] == 0.0
      invariant forall t :: i < t < neq ==> U(A, neq, t, t) != 0.0
      invariant solution[neq..] == old(solution[neq..])
    {
      if u[i, i] == 0.0 {
        return false;
      }
      var tmp := DotUX(matrix, neq, u, solution, i);
      assert T[i][neq] == y[i] && T[i][i] == u[i, i];
      solution[i] := (y[i] - tmp) / u[i, i];
      assert solution[i] == BackX(T, neq, i);
      i := i - 1;
    }
    assert solution[..neq] == XVec(A, neq);
    return true;
  }

  /** `lu`: resets `solution`, factors A == L * U and solves L * y == b, U * x == y. It returns -1
      exactly when a pivot U[i][i] is zero, leaving `solution` all zero; otherwise it returns 0 and
      `solution` solves the system. `matrix` is only read. */
  method Lu(matrix: array2<real>, solution: array<real>, neq: nat) returns (r: int)
    requires matrix.Length0 >= neq && matrix.Length1 >= neq + 1 && solution.Length >= neq
    modifies solution
    ensures r == 0 || r == -1
    ensures r == 0 <==> PivotsNonzero(System(matrix, neq), neq, neq)
    ensures r == 0 ==> solution[..neq] == XVec(System(matrix, neq), neq)
    ensures r == 0 ==> Solves(System(matrix, neq), neq, solution[..neq])
    ensures r == -1 ==> forall i :: 0 <= i < neq ==> solution[i] == 0.0
    ensures solution[neq..] == old(solution[neq..])
  {
    var y := new real[neq](_ => 0.0);
    var l := new real[neq, neq]((_, _) => 0.0);
    var u := new real[neq, neq]((_, _) => 0.0);
    var i := 0;
    while i < neq
      invariant 0 <= i <= neq
      invariant forall t :: 0 <= t < i ==> solution[t] == 0.0
      invariant solution[neq..] == old(solution[neq..])
    {
      solution[i] := 0.0;
      i := i + 1;
    }
    var ok := Factor(matrix, neq, l, u);
    if !ok {
      return -1;
    }
    Forward(matrix, neq, l, y);
    ok := Back(matrix, neq, u, y, solution);
    if !ok {
      return -1;
    }
    SubstitutionSolves(System(matrix, neq), neq);
    return 0;
  }

  // ---------------------------------------------------------------- gauss

  /** Elimination step k of `gauss`: every row j below k loses (M[j][k] / M[k][k]) times row k,
      in the columns from k on (the right-hand side included). */
  ghost function Step(M: Matrix, n: nat, k: nat): (S: Matrix)
    requires Augmented(M, n) && k < n
    ensures Augmented(S, n)
  {
    seq(n, j requires 0 <= j < n => seq(n + 1, i requires 0 <= i < n + 1 =>
      if j > k && i >= k then M[j][i] - Quot(M[j][k], M[k][k]) * M[k][i] else M[j][i]))
  }

  /** Entry (r, c) of the matrix after elimination steps 0, ..., k - 1. */
  ghost function EA(M: Matrix, n: nat, k: nat, r: nat, c: nat): real
    requires Augmented(M, n) && k < n && r < n && c <= n
    decreases k
  {
    if k == 0 then M[r][c]
    else
      var p := k - 1;
      if r > p && c >= p then EA(M, n, p, r, c) - Quot(EA(M, n, p, r, p), EA(M, n, p, p, p)) * EA(M, n, p, p, c)
      else EA(M, n, p, r, c)
  }

  /** The matrix after elimination steps 0, ..., k - 1. */
  ghost function Elim(M: Matrix, n: nat, k: nat): (E: Matrix)
    requires Augmented(M, n) && k < n
    ensures Augmented(E, n)
    ensures forall r, c :: 0 <= r < n && 0 <= c <= n ==> E[r][c] == EA(M, n, k, r, c)
  {
    seq(n, r requires 0 <= r < n => seq(n + 1, c requires 0 <= c < n + 1 => EA(M, n, k, r, c)))
  }

  /** Elimination is the original matrix followed by one step after another. */
  lemma ElimStep(M: Matrix, n: nat, k: nat)
    requires Augmented(M, n) && k + 1 < n
    ensures Elim(M, n, k + 1) == Step(Elim(M, n, k), n, k)
  {
    var E := Elim(M, n, k);
    var S := Step(E, n, k);
    var F := Elim(M, n, k + 1);
    forall r | 0 <= r < n
      ensures F[r] == S[r]
    {
      forall c | 0 <= c <= n
        ensures F[r][c] == S[r][c]
      {
      }
    }
  }

  lemma ElimStart(M: Matrix, n: nat)
    requires Augmented(M, n) && 0 < n
    ensures Elim(M, n, 0) == M
  {
    var E := Elim(M, n, 0);
    forall r | 0 <= r < n
      ensures E[r] == M[r]
    {
    }
  }

  /** Every diagonal entry met by `gauss`, the pivots of steps 0 .. n - 2 and the last diagonal
      entry after them, is nonzero. */
  ghost predicate GaussPivots(M: Matrix, n: nat)
    requires Augmented(M, n)
  {
    forall k :: 0 <= k < n ==> Pivot(M, n, k) != 0.0
  }

  /** The diagonal entry that step k divides by. */
  ghost function Pivot(M: Matrix, n: nat, k: nat): real
    requires Augmented(M, n) && k < n
  {
    EA(M, n, k, k, k)
  }

  /** After k steps with nonzero pivots, the first k columns are zero below the diagonal. */
  lemma {:induction false} ElimZeros(M: Matrix, n: nat, k: nat)
    requires Augmented(M, n) && k < n
    requires forall t :: 0 <= t < k ==> Pivot(M, n, t) != 0.0
    ensures forall r, c :: 0 <= c < k && c < r < n ==> EA(M, n, k, r, c) == 0.0
    decreases k
  {
    if k > 0 {
      ElimZeros(M, n, k - 1);
      forall r, c | 0 <= c < k && c < r < n
        ensures EA(M, n, k, r, c) == 0.0
      {
        if c == k - 1 {
          assert Pivot(M, n, k - 1) != 0.0;
        }
      }
    }
  }

  /** Later steps leave row k as step k - 1 left it. */
  lemma {:induction false} ElimRowStable(M: Matrix, n: nat, k: nat, t: nat, c: nat)
    requires Augmented(M, n) && k <= t < n && c <= n
    ensures EA(M, n, t, k, c) == EA(M, n, k, k, c)
    decreases t
  {
    if t > k {
      ElimRowStable(M, n, k, t - 1, c);
    }
  }

  /** A solution of the eliminated system solves the original one. */
  lemma {:induction false} ElimKeepsSolutions(M: Matrix, n: nat, k: nat, x: seq<real>)
    requires Augmented(M, n) && k < n && |x| == n
    requires forall t :: 0 <= t < k ==> Pivot(M, n, t) != 0.0
    requires Solves(Elim(M, n, k), n, x)
    ensures Solves(M, n, x)
    decreases k
  {
    if k > 0 {
      ElimZeros(M, n, k - 1);
      ElimStep(M, n, k - 1);
      var E := Elim(M, n, k - 1);
      StepKeepsSolutions(E, n, k - 1, x);
      ElimKeepsSolutions(M, n, k - 1, x);
    } else {
      ElimStart(M, n);
    }
  }

  /** Rows the step leaves alone have the same products with x. */
  lemma StepRowKept(M: Matrix, n: nat, k: nat, x: seq<real>, j: nat)
    requires Augmented(M, n) && k < n && j <= k
    ensures Sum(n, RowTimes(Step(M, n, k), j, x)) == Sum(n, RowTimes(M, j, x))
  {
    var S := Step(M, n, k);
    forall c: nat | c < n
      ensures RowTimes(S, j, x)(c) == RowTimes(M, j, x)(c)
    {
      assert S[j][c] == M[j][c];
    }
    SumExt(n, RowTimes(S, j, x), RowTimes(M, j, x));
  }

  /** One term of a reduced row: (M[j][c] - m * M[k][c]) * x[c]. */
  lemma StepRowTerm(M: Matrix, n: nat, k: nat, x: seq<real>, j: nat, c: nat)
    requires Augmented(M, n) && k < j < n && c < n
    requires forall c :: 0 <= c < k ==> M[k][c] == 0.0
    ensures RowTimes(Step(M, n, k), j, x)(c)
      == Plus(RowTimes(M, j, x), Scaled(-Quot(M[j][k], M[k][k]), RowTimes(M, k, x)))(c)
  {
    var m := Quot(M[j][k], M[k][k]);
    var xc := At(x, c);
    if c < k {
      assert M[k][c] == 0.0;
      assert Entry(Step(M, n, k), j, c) == M[j][c];
    } else {
      assert Entry(Step(M, n, k), j, c) == M[j][c] - m * M[k][c];
      assert (M[j][c] - m * M[k][c]) * xc == M[j][c] * xc + -m * (M[k][c] * xc);
    }
  }

  /** A row below k after the step: its product with x is the old product minus the multiplier
      times row k's product (row k being zero left of k). */
  lemma StepRowReduced(M: Matrix, n: nat, k: nat, x: seq<real>, j: nat)
    requires Augmented(M, n) && k < j < n
    requires forall c :: 0 <= c < k ==> M[k][c] == 0.0
    ensures Sum(n, RowTimes(Step(M, n, k), j, x))
      == Sum(n, RowTimes(M, j, x)) - Quot(M[j][k], M[k][k]) * Sum(n, RowTimes(M, k, x))
  {
    var S := Step(M, n, k);
    var m := Quot(M[j][k], M[k][k]);
    var g := Plus(RowTimes(M, j, x), Scaled(-m, RowTimes(M, k, x)));
    forall c: nat | c < n
      ensures RowTimes(S, j, x)(c) == g(c)
    {
      StepRowTerm(M, n, k, x, j, c);
    }
    SumExt(n, RowTimes(S, j, x), g);
    SumPlus(n, RowTimes(M, j, x), Scaled(-m, RowTimes(M, k, x)));
    SumScaled(n, -m, RowTimes(M, k, x));
  }

  /** A solution of the system after a step solves the system before it. */
  lemma StepKeepsSolutions(M: Matrix, n: nat, k: nat, x: seq<real>)
    requires Augmented(M, n) && k < n && |x| == n
    requires forall c :: 0 <= c < k ==> M[k][c] == 0.0
    requires Solves(Step(M, n, k), n, x)
    ensures Solves(M, n, x)
  {
    var S := Step(M, n, k);
    forall j | 0 <= j < n
      ensures Sum(n, RowTimes(M, j, x)) == M[j][n]
    {
      if j > k {
        StepRowKept(M, n, k, x, k);
        StepRowReduced(M, n, k, x, j);
        assert Sum(n, RowTimes(S, k, x)) == S[k][n] == M[k][n];
        assert Sum(n, RowTimes(S, j, x)) == S[j][n] == M[j][n] - Quot(M[j][k], M[k][k]) * M[k][n];
      } else {
        StepRowKept(M, n, k, x, j);
        assert Sum(n, RowTimes(S, j, x)) == S[j][n] == M[j][n];
      }
    }
  }

  /** With every pivot nonzero, the fully eliminated matrix is upper triangular with a nonzero
      diagonal. */
  lemma EliminatedTriangular(M: Matrix, n: nat)
    requires Augmented(M, n) && n >= 1 && GaussPivots(M, n)
    ensures UpperTriangular(Elim(M, n, n - 1), n) && DiagonalNonzero(Elim(M, n, n - 1), n)
  {
    ElimZeros(M, n, n - 1);
    var T := Elim(M, n, n - 1);
    forall t | 0 <= t < n
      ensures T[t][t] != 0.0
    {
      ElimRowStable(M, n, t, n - 1, t);
      assert Pivot(M, n, t) != 0.0;
    }
  }

  /** Elimination followed by back substitution solves the original system. */
  lemma GaussSolves(M: Matrix, n: nat)
    requires Augmented(M, n) && n >= 1 && GaussPivots(M, n)
    ensures Solves(M, n, BackVec(Elim(M, n, n - 1), n))
  {
    EliminatedTriangular(M, n);
    BackSubstitutionSolves(Elim(M, n, n - 1), n);
    ElimKeepsSolutions(M, n, n - 1, BackVec(Elim(M, n, n - 1), n));
  }

  /** The block of `m` holds E. */
  ghost predicate Holds(m: array2<real>, n: nat, E: Matrix)
    reads m
    requires m.Length0 >= n && m.Length1 >= n + 1 && Augmented(E, n)
  {
    forall r, c :: 0 <= r < n && 0 <= c <= n ==> m[r, c] == E[r][c]
  }

  /** One elimination step of `gauss`, rows k + 1 .. neq - 1 in order, columns k .. neq of each. */
  method EliminationStep(matrix: array2<real>, neq: nat, k: nat, ghost E: Matrix)
    requires k < neq && matrix.Length0 >= neq && matrix.Length1 >= neq + 1 && Augmented(E, neq)
    requires Holds(matrix, neq, E) && E[k][k] != 0.0
    modifies matrix
    ensures Holds(matrix, neq, Step(E, neq, k))
    ensures forall r, c :: 0 <= r < matrix.Length0 && 0 <= c < matrix.Length1 && (r >= neq || c > neq) ==> matrix[r, c] == old(matrix[r, c])
  {
    ghost var S := Step(E, neq, k);
    var j := k + 1;
    while j < neq
      invariant k + 1 <= j <= neq
      invariant forall i, c :: 0 <= i < neq && 0 <= c <= neq ==> matrix[i, c] == (if i < j then S[i][c] else E[i][c])
      invariant forall r, c :: 0 <= r < matrix.Length0 && 0 <= c < matrix.Length1 && (r >= neq || c > neq) ==> matrix[r, c] == old(matrix[r, c])
    {
      var m := matrix[j, k] / matrix[k, k];
      assert m == Quot(E[j][k], E[k][k]);
      var i := k;
      while i <= neq
        invariant k <= i <= neq + 1
        invariant forall t, c :: 0 <= t < neq && 0 <= c <= neq ==>
          matrix[t, c] == (if t < j || (t == j && k <= c < i) then S[t][c] else E[t][c])
        invariant forall r, c :: 0 <= r < matrix.Length0 && 0 <= c < matrix.Length1 && (r >= neq || c > neq) ==> matrix[r, c] == old(matrix[r, c])
      {
        assert matrix[k, i] == E[k][i] && matrix[j, i] == E[j][i];
        assert S[j][i] == E[j][i] - Quot(E[j][k], E[k][k]) * E[k][i];
        matrix[j, i] := matrix[j, i] - m * matrix[k, i];
        i := i + 1;
      }
      j := j + 1;
    }
  }

  /** The back substitution of `gauss` on the eliminated matrix T. */
  method BackSubstitute(matrix: array2<real>, solution: array<real>, neq: nat, ghost T: Matrix)
    requires neq >= 1 && matrix.Length0 >= neq && matrix.Length1 >= neq + 1 && solution.Length >= neq
    requires Augmented(T, neq) && Holds(matrix, neq, T) && DiagonalNonzero(T, neq)
    modifies solution
    ensures solution[..neq] == BackVec(T, neq)
    ensures solution[neq..] == old(solution[neq..])
  {
    solution[neq - 1] := matrix[neq - 1, neq] / matrix[neq - 1, neq - 1];
    var j: int := neq - 2;
    while j >= 0
      invariant -1 <= j <= neq - 2
      invariant forall t :: j < t < neq ==> solution[t] == BackX(T, neq, t)
      invariant solution[neq..] == old(solution[neq..])
    {
      var s := 0.0;
      var i := j + 1;
      while i < neq
        invariant j + 1 <= i <= neq
        invariant s + SumTX(T, neq, j, i) == SumTX(T, neq, j, j + 1)
      {
        s := s + matrix[j, i] * solution[i];
        i := i + 1;
      }
      solution[j] := (matrix[j, neq] - s) / matrix[j, j];
      j := j - 1;
    }
    assert solution[..neq] == BackVec(T, neq);
  }

  /** The elimination loop of `gauss`, steps k = 0 .. neq - 2; it stops with false at the first
      zero pivot, whose index is the ghost k. */
  method Eliminate(matrix: array2<real>, neq: nat, ghost A: Matrix) returns (ok: bool, ghost k: nat)
    requires neq >= 1 && matrix.Length0 >= neq && matrix.Length1 >= neq + 1
    requires Augmented(A, neq) && Holds(matrix, neq, A)
    modifies matrix
    ensures k < neq && Holds(matrix, neq, Elim(A, neq, k))
    ensures forall t :: 0 <= t < k ==> Pivot(A, neq, t) != 0.0
    ensures ok ==> k == neq - 1
    ensures !ok ==> Pivot(A, neq, k) == 0.0
    ensures forall r, c :: 0 <= r < matrix.Length0 && 0 <= c < matrix.Length1 && (r >= neq || c > neq) ==> matrix[r, c] == old(matrix[r, c])
  {
    var kk := 0;
    ElimStart(A, neq);
    while kk < neq - 1
      invariant 0 <= kk <= neq - 1
      invariant Holds(matrix, neq, Elim(A, neq, kk))
      invariant forall t :: 0 <= t < kk ==> Pivot(A, neq, t) != 0.0
      invariant forall r, c :: 0 <= r < matrix.Length0 && 0 <= c < matrix.Length1 && (r >= neq || c > neq) ==> matrix[r, c] == old(matrix[r, c])
    {
      // the search for a row j >= kk with a nonzero entry in column kk decides at j == kk
      if matrix[kk, kk] == 0.0 {
        return false, kk;
      }
      EliminationStep(matrix, neq, kk, Elim(A, neq, kk));
      ElimStep(A, neq, kk);
      kk := kk + 1;
    }
    return true, kk;
  }

  /** `gauss`: eliminates in place and back-substitutes. The search for a row to exchange returns -1
      on its first pass whenever the pivot M[k][k] is zero, so no exchange ever happens; a zero last
      diagonal entry gives -1 too. On 0, `solution` solves the original system. */
  method Gauss(matrix: array2<real>, solution: array<real>, neq: nat) returns (r: int)
    requires neq >= 1
    requires matrix.Length0 >= neq && matrix.Length1 >= neq + 1 && solution.Length >= neq
    modifies matrix, solution
    ensures r == 0 || r == -1
    ensures r == 0 <==> GaussPivots(old(System(matrix, neq)), neq)
    ensures r == -1 ==>
      exists k :: 0 <= k < neq && Pivot(old(System(matrix, neq)), neq, k) == 0.0
        && (forall t :: 0 <= t < k ==> Pivot(old(System(matrix, neq)), neq, t) != 0.0)
        && Holds(matrix, neq, Elim(old(System(matrix, neq)), neq, k))
    ensures r == -1 ==> solution[..] == old(solution[..])
    ensures r == 0 ==> Holds(matrix, neq, Elim(old(System(matrix, neq)), neq, neq - 1))
    ensures r == 0 ==> solution[..neq] == BackVec(Elim(old(System(matrix, neq)), neq, neq - 1), neq)
    ensures r == 0 ==> Solves(old(System(matrix, neq)), neq, solution[..neq])
    ensures solution[neq..] == old(solution[neq..])
    ensures forall r, c :: 0 <= r < matrix.Length0 && 0 <= c < matrix.Length1 && (r >= neq || c > neq) ==> matrix[r, c] == old(matrix[r, c])
  {
    ghost var A := System(matrix, neq);
    ghost var k;
    var ok;
    ok, k := Eliminate(matrix, neq, A);
    if !ok {
      assert Pivot(A, neq, k) == 0.0 && Holds(matrix, neq, Elim(A, neq, k));
      return -1;
    }

    ghost var T := Elim(A, neq, neq - 1);
    if matrix[neq - 1, neq - 1] == 0.0 {
      return -1;
    }
    assert GaussPivots(A, neq);
    EliminatedTriangular(A, neq);
    BackSubstitute(matrix, solution, neq, T);
    GaussSolves(A, neq);
    return 0;
  }

  // ---------------------------------------------------------------- the test system of num.c

  /** The 3 x 3 system that num.c hands to `lu`. */
  ghost function NumTestSystem(): (A: Matrix)
    ensures Augmented(A, 3)
  {
    [[4.0, 10.0, -2.0, -20.0], [-1.0, -15.0, 3.0, 30.0], [0.0, 25.0, -5.0, -50.0]]
  }

  /** The system is singular (two different solutions). The factorisation's pivot test passes,
      since U[0][0] = 4 and U[1][1] = -12.5, but U[2][2] = 0, so `lu` returns -1 from its back
      substitution. */
  lemma NumTestSingular()
    ensures U(NumTestSystem(), 3, 0, 0) == 4.0 && U(NumTestSystem(), 3, 1, 1) == -12.5
    ensures U(NumTestSystem(), 3, 2, 2) == 0.0
    ensures !PivotsNonzero(NumTestSystem(), 3, 3)
    ensures Solves(NumTestSystem(), 3, [0.0, -2.0, 0.0]) && Solves(NumTestSystem(), 3, [0.0, 0.0, 10.0])
  {
    var A := NumTestSystem();
    assert U(A, 3, 0, 0) == 4.0;
    assert U(A, 3, 0, 1) == 10.0;
    assert U(A, 3, 0, 2) == -2.0;
    assert L(A, 3, 1, 0) == -0.25;
    assert L(A, 3, 2, 0) == 0.0;
    assert SumLU(A, 3, 1, 1, 1) == -2.5;
    assert U(A, 3, 1, 1) == -12.5;
    assert SumLU(A, 3, 1, 2, 1) == 0.5;
    assert U(A, 3, 1, 2) == 2.5;
    assert SumLU(A, 3, 2, 1, 1) == 0.0;
    assert L(A, 3, 2, 1) == -2.0;
    assert SumLU(A, 3, 2, 2, 1) == 0.0;
    assert SumLU(A, 3, 2, 2, 2) == -5.0;
    assert U(A, 3, 2, 2) == 0.0;
    forall x: seq<real>, i | x in {[0.0, -2.0, 0.0], [0.0, 0.0, 10.0]} && 0 <= i < 3
      ensures Sum(3, RowTimes(A, i, x)) == A[i][3]
    {
      assert Sum(3, RowTimes(A, i, x)) == A[i][0] * x[0] + A[i][1] * x[1] + A[i][2] * x[2];
    }
  }

  // ---------------------------------------------------------------- round

  /** `round`: from the truncation t of a, returns t below the half, t + 1 above it and
      t + t % 2 on the half itself. For a >= 0 that is the nearest integer with ties to even; for
      a < 0 the fraction a - t is never positive, so the result is the truncation toward zero. */
  function Round(a: real): (r: int)
    ensures a >= 0.0 ==> -0.5 <= r as real - a <= 0.5
    ensures a >= 0.0 && r as real - a == 0.5 ==> r % 2 == 0
    ensures a >= 0.0 && a - r as real == 0.5 ==> r % 2 == 0
    ensures a < 0.0 ==> r == Trunc(a)
  {
    var t := Trunc(a);
    if a - t as real < 0.5 then t
    else if a - t as real > 0.5 then t + 1
    else t + CRem2(t)
  }
}
