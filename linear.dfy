/** The mathematics behind the LU solvers: finite sums, the Doolittle factors of a square matrix
    (unit lower triangular L, upper triangular U, computed column by column without pivoting),
    the forward and back substitution values, and the theorem that they solve the system. */
module Linear {
  import opened Numeric

  /** A row-major matrix, `M[r][c]`. An augmented system of order n has n rows of n + 1 entries;
      column n is the right-hand side. */
  type Matrix = seq<seq<real>>

  ghost predicate Augmented(A: Matrix, n: nat) {
    |A| == n && forall r :: 0 <= r < n ==> |A[r]| == n + 1
  }

  /** `A[r][c]`, and 0.0 outside the matrix, so that it can appear in a total summand. */
  ghost function Entry(A: Matrix, r: nat, c: nat): real {
    if r < |A| && c < |A[r]| then A[r][c] else 0.0
  }

  /** `x[c]`, and 0.0 beyond the end of x. */
  ghost function At(x: seq<real>, c: nat): real {
    if c < |x| then x[c] else 0.0
  }

  // ---------------------------------------------------------------- finite sums

  /** f(0) + ... + f(n - 1) */
  ghost function Sum(n: nat, f: nat -> real): real
    decreases n
  {
    if n == 0 then 0.0 else Sum(n - 1, f) + f(n - 1)
  }

  lemma {:induction false} SumExt(n: nat, f: nat -> real, g: nat -> real)
    requires forall k: nat :: k < n ==> f(k) == g(k)
    ensures Sum(n, f) == Sum(n, g)
    decreases n
  {
    if n > 0 {
      SumExt(n - 1, f, g);
    }
  }

  /** Terms from m on are zero: only the first m count. */
  lemma {:induction false} SumZeroTail(n: nat, m: nat, f: nat -> real)
    requires m <= n
    requires forall k: nat :: m <= k < n ==> f(k) == 0.0
    ensures Sum(n, f) == Sum(m, f)
    decreases n
  {
    if n > m {
      SumZeroTail(n - 1, m, f);
    }
  }

  ghost function Scaled(a: real, f: nat -> real): nat -> real {
    (k: nat) => a * f(k)
  }

  lemma {:induction false} SumScaled(n: nat, a: real, f: nat -> real)
    ensures Sum(n, Scaled(a, f)) == a * Sum(n, f)
    decreases n
  {
    if n > 0 {
      SumScaled(n - 1, a, f);
    }
  }

  ghost function Plus(f: nat -> real, g: nat -> real): nat -> real {
    (k: nat) => f(k) + g(k)
  }

  lemma {:induction false} SumPlus(n: nat, f: nat -> real, g: nat -> real)
    ensures Sum(n, Plus(f, g)) == Sum(n, f) + Sum(n, g)
    decreases n
  {
    if n > 0 {
      SumPlus(n - 1, f, g);
    }
  }

  /** c |-> F(s, c) for a fixed s, and s |-> F(s, c) for a fixed c */
  ghost function RowOf(F: (nat, nat) -> real, s: nat): nat -> real {
    (c: nat) => F(s, c)
  }

  ghost function ColOf(F: (nat, nat) -> real, c: nat): nat -> real {
    (s: nat) => F(s, c)
  }

  ghost function SumCols(F: (nat, nat) -> real, m: nat): nat -> real {
    (c: nat) => Sum(m, ColOf(F, c))
  }

  ghost function SumRows(F: (nat, nat) -> real, n: nat): nat -> real {
    (s: nat) => Sum(n, RowOf(F, s))
  }

  /** A finite double sum may be taken in either order. */
  lemma {:induction false} SumSwap(n: nat, m: nat, F: (nat, nat) -> real)
    ensures Sum(n, SumCols(F, m)) == Sum(m, SumRows(F, n))
    decreases n
  {
    if n > 0 {
      SumSwap(n - 1, m, F);
      assert Sum(n, SumCols(F, m)) == Sum(n - 1, SumCols(F, m)) + Sum(m, ColOf(F, n - 1));
      // Each row sum over n columns is its sum over n - 1 columns plus its last column.
      forall s: nat | s < m
        ensures SumRows(F, n)(s) == Plus(SumRows(F, n - 1), ColOf(F, n - 1))(s)
      {
        assert SumRows(F, n)(s) == Sum(n, RowOf(F, s));
        assert Sum(n, RowOf(F, s)) == Sum(n - 1, RowOf(F, s)) + F(s, n - 1);
      }
      SumExt(m, SumRows(F, n), Plus(SumRows(F, n - 1), ColOf(F, n - 1)));
      SumPlus(m, SumRows(F, n - 1), ColOf(F, n - 1));
    } else {
      // Every row sum over no columns is zero.
      SumZeroTail(m, 0, SumRows(F, 0));
    }
  }

  // ---------------------------------------------------------------- Doolittle factors

  /** U[j][i] for j <= i: A[j][i] minus the sum over s < j of L[j][s] * U[s][i]. */
  ghost function U(A: Matrix, n: nat, j: nat, i: nat): real
    requires Augmented(A, n) && j <= i < n
    decreases i, 1, j, 1
  {
    A[j][i] - SumLU(A, n, j, i, j)
  }

  /** L[j][i] for j > i: (A[j][i] minus the sum over s < i of L[j][s] * U[s][i]) / U[i][i].
      It is only defined when the pivot U[i][i] is nonzero; the value 0.0 otherwise is never used. */
  ghost function L(A: Matrix, n: nat, j: nat, i: nat): real
    requires Augmented(A, n) && i < j < n
    decreases i, 2, 0, 0
  {
    var p := U(A, n, i, i);
    if p == 0.0 then 0.0 else (A[j][i] - SumLU(A, n, j, i, i)) / p
  }

  /** The sum over s < m of L[j][s] * U[s][i]. */
  ghost function SumLU(A: Matrix, n: nat, j: nat, i: nat, m: nat): real
    requires Augmented(A, n) && j < n && i < n && m <= j && m <= i
    decreases i, 1, m, 0
  {
    if m == 0 then 0.0 else SumLU(A, n, j, i, m - 1) + L(A, n, j, m - 1) * U(A, n, m - 1, i)
  }

  /** The first k pivots U[0][0], ..., U[k-1][k-1] are nonzero. */
  ghost predicate PivotsNonzero(A: Matrix, n: nat, k: nat)
    requires Augmented(A, n) && k <= n
  {
    forall i :: 0 <= i < k ==> U(A, n, i, i) != 0.0
  }

  /** The full factors: L with a unit diagonal, U with zeros below it (0.0 outside the matrix). */
  ghost function LF(A: Matrix, n: nat, r: nat, s: nat): real {
    if !(Augmented(A, n) && r < n && s < n) then 0.0
    else if s < r then L(A, n, r, s)
    else if s == r then 1.0
    else 0.0
  }

  ghost function UF(A: Matrix, n: nat, s: nat, c: nat): real {
    if !(Augmented(A, n) && s < n && c < n) then 0.0
    else if s <= c then U(A, n, s, c)
    else 0.0
  }

  /** s |-> L[r][s] * U[s][c] */
  ghost function LUTerm(A: Matrix, n: nat, r: nat, c: nat): nat -> real {
    (s: nat) => LF(A, n, r, s) * UF(A, n, s, c)
  }

  lemma {:induction false} SumLUIsSum(A: Matrix, n: nat, j: nat, i: nat, m: nat)
    requires Augmented(A, n) && j < n && i < n && m <= j && m <= i
    ensures SumLU(A, n, j, i, m) == Sum(m, LUTerm(A, n, j, i))
    decreases m
  {
    if m > 0 {
      SumLUIsSum(A, n, j, i, m - 1);
    }
  }

  /** When every pivot is nonzero, L * U == A on the square part of the matrix. */
  lemma Factorisation(A: Matrix, n: nat, r: nat, c: nat)
    requires Augmented(A, n) && r < n && c < n
    requires PivotsNonzero(A, n, n)
    ensures Sum(n, LUTerm(A, n, r, c)) == A[r][c]
  {
    var f := LUTerm(A, n, r, c);
    if r <= c {
      // L[r][s] vanishes beyond the diagonal: the sum is SumLU(r) plus U[r][c].
      SumZeroTail(n, r + 1, f);
      SumLUIsSum(A, n, r, c, r);
    } else {
      // U[s][c] vanishes below the diagonal: the sum is SumLU(c) plus L[r][c] * U[c][c].
      SumZeroTail(n, c + 1, f);
      SumLUIsSum(A, n, r, c, c);
      assert U(A, n, c, c) != 0.0;
    }
  }

  // ---------------------------------------------------------------- systems and back substitution

  /** The vector x as a summand of row i: c |-> M[i][c] * x[c]. */
  ghost function RowTimes(M: Matrix, i: nat, x: seq<real>): nat -> real {
    (c: nat) => Entry(M, i, c) * At(x, c)
  }

  /** x solves the augmented system M of order n. */
  ghost predicate Solves(M: Matrix, n: nat, x: seq<real>)
    requires Augmented(M, n)
  {
    forall i :: 0 <= i < n ==> Sum(n, RowTimes(M, i, x)) == M[i][n]
  }

  /** Zeros below the diagonal of the square part. */
  ghost predicate UpperTriangular(T: Matrix, n: nat)
    requires Augmented(T, n)
  {
    forall r, c :: 0 <= c < r < n ==> T[r][c] == 0.0
  }

  ghost predicate DiagonalNonzero(T: Matrix, n: nat)
    requires Augmented(T, n)
  {
    forall i :: 0 <= i < n ==> T[i][i] != 0.0
  }

  /** Back substitution on an augmented system: x[i] = (T[i][n] minus the sum over j > i of
      T[i][j] * x[j]) / T[i][i]. */
  ghost function BackX(T: Matrix, n: nat, i: nat): real
    requires Augmented(T, n) && i < n
    decreases n - i, 1
  {
    Quot(T[i][n] - SumTX(T, n, i, i + 1), T[i][i])
  }

  /** The sum over m <= j < n of T[i][j] * x[j]. */
  ghost function SumTX(T: Matrix, n: nat, i: nat, m: nat): real
    requires Augmented(T, n) && i < m <= n
    decreases n - m + 1, 0
  {
    if m == n then 0.0 else T[i][m] * BackX(T, n, m) + SumTX(T, n, i, m + 1)
  }

  ghost function BackVec(T: Matrix, n: nat): (x: seq<real>)
    ensures Augmented(T, n) ==> |x| == n
  {
    if Augmented(T, n) then seq(n, i requires 0 <= i < n => BackX(T, n, i)) else []
  }

  lemma {:induction false} BackTail(T: Matrix, n: nat, s: nat, m: nat)
    requires Augmented(T, n) && s < m <= n
    ensures Sum(n, RowTimes(T, s, BackVec(T, n))) == Sum(m, RowTimes(T, s, BackVec(T, n))) + SumTX(T, n, s, m)
    decreases n - m
  {
    if m < n {
      BackTail(T, n, s, m + 1);
      var f := RowTimes(T, s, BackVec(T, n));
      BackTerm(T, n, s, m);
      assert Sum(m + 1, f) == Sum(m, f) + f(m);
    }
  }

  /** The term of column m in row s, taken out of the sum SumTX from m. */
  lemma BackTerm(T: Matrix, n: nat, s: nat, m: nat)
    requires Augmented(T, n) && s < m < n
    ensures SumTX(T, n, s, m) == RowTimes(T, s, BackVec(T, n))(m) + SumTX(T, n, s, m + 1)
  {
    assert Entry(T, s, m) == T[s][m];
    assert At(BackVec(T, n), m) == BackX(T, n, m);
  }

  /** Back substitution solves an upper triangular system with a nonzero diagonal. */
  lemma BackSubstitutionSolves(T: Matrix, n: nat)
    requires Augmented(T, n) && UpperTriangular(T, n) && DiagonalNonzero(T, n)
    ensures Solves(T, n, BackVec(T, n))
  {
    var x := BackVec(T, n);
    forall s | 0 <= s < n
      ensures Sum(n, RowTimes(T, s, x)) == T[s][n]
    {
      var f := RowTimes(T, s, x);
      BackTail(T, n, s, s + 1);
      forall k: nat | k < s
        ensures f(k) == 0.0
      {
        assert Entry(T, s, k) == 0.0;
      }
      SumZeroTail(s, 0, f);
      assert f(s) == T[s][s] * BackX(T, n, s) by {
        assert Entry(T, s, s) == T[s][s];
        assert At(x, s) == BackX(T, n, s);
      }
      assert T[s][s] != 0.0;
    }
  }

  // ---------------------------------------------------------------- Doolittle substitution

  /** The forward substitution value y[i] = A[i][n] minus the sum over j < i of L[i][j] * y[j]. */
  ghost function Y(A: Matrix, n: nat, i: nat): real
    requires Augmented(A, n) && i < n
    decreases i, 1
  {
    A[i][n] - SumLY(A, n, i, i)
  }

  /** The sum over j < m of L[i][j] * y[j]. */
  ghost function SumLY(A: Matrix, n: nat, i: nat, m: nat): real
    requires Augmented(A, n) && i < n && m <= i
    decreases m, 0
  {
    if m == 0 then 0.0 else SumLY(A, n, i, m - 1) + L(A, n, i, m - 1) * Y(A, n, m - 1)
  }

  ghost function YVec(A: Matrix, n: nat): (y: seq<real>)
    ensures Augmented(A, n) ==> |y| == n
  {
    if Augmented(A, n) then seq(n, i requires 0 <= i < n => Y(A, n, i)) else []
  }

  /** The augmented upper system [U | y] that back substitution solves. */
  ghost function UY(A: Matrix, n: nat): (T: Matrix)
    requires Augmented(A, n)
    ensures Augmented(T, n) && UpperTriangular(T, n)
    ensures forall r, c :: 0 <= r <= c < n ==> T[r][c] == U(A, n, r, c)
    ensures forall r :: 0 <= r < n ==> T[r][n] == Y(A, n, r)
  {
    seq(n, r requires 0 <= r < n => seq(n + 1, c requires 0 <= c < n + 1 => if c == n then Y(A, n, r) else UF(A, n, r, c)))
  }

  /** The solution computed from the Doolittle factors. */
  ghost function XVec(A: Matrix, n: nat): (x: seq<real>)
    requires Augmented(A, n)
    ensures |x| == n
  {
    BackVec(UY(A, n), n)
  }

  /** s |-> L[i][s] * y[s] */
  ghost function LYTerm(A: Matrix, n: nat, i: nat): nat -> real {
    (s: nat) => LF(A, n, i, s) * At(YVec(A, n), s)
  }

  lemma {:induction false} ForwardHead(A: Matrix, n: nat, i: nat, m: nat)
    requires Augmented(A, n) && i < n && m <= i
    ensures Sum(m, LYTerm(A, n, i)) == SumLY(A, n, i, m)
    decreases m
  {
    if m > 0 {
      ForwardHead(A, n, i, m - 1);
    }
  }

  /** Row i of L * y is the right-hand side A[i][n]. */
  lemma LowerSystem(A: Matrix, n: nat, i: nat)
    requires Augmented(A, n) && i < n
    ensures Sum(n, LYTerm(A, n, i)) == A[i][n]
  {
    SumZeroTail(n, i + 1, LYTerm(A, n, i));
    ForwardHead(A, n, i, i);
  }

  /** Row s of U * x is y[s]. */
  lemma UpperSystem(A: Matrix, n: nat, s: nat)
    requires Augmented(A, n) && s < n
    requires PivotsNonzero(A, n, n)
    ensures Sum(n, RowTimes(UY(A, n), s, XVec(A, n))) == Y(A, n, s)
  {
    var T := UY(A, n);
    assert DiagonalNonzero(T, n) by {
      forall i | 0 <= i < n
        ensures T[i][i] != 0.0
      {
        assert T[i][i] == U(A, n, i, i);
      }
    }
    BackSubstitutionSolves(T, n);
  }

  ghost function Triple(A: Matrix, n: nat, i: nat): (nat, nat) -> real
    requires Augmented(A, n)
  {
    (s: nat, c: nat) => LF(A, n, i, s) * Entry(UY(A, n), s, c) * At(XVec(A, n), c)
  }

  /** Row i of A times x, with each A[i][c] written as the sum over s of L[i][s] * U[s][c]. */
  lemma RowAsDoubleSum(A: Matrix, n: nat, i: nat)
    requires Augmented(A, n) && i < n
    requires PivotsNonzero(A, n, n)
    ensures Sum(n, RowTimes(A, i, XVec(A, n))) == Sum(n, SumCols(Triple(A, n, i), n))
  {
    var x := XVec(A, n);
    var F := Triple(A, n, i);
    forall c: nat | c < n
      ensures RowTimes(A, i, x)(c) == SumCols(F, n)(c)
    {
      EntryAsSum(A, n, i, c);
    }
    SumExt(n, RowTimes(A, i, x), SumCols(F, n));
  }

  /** One term of row i of A times x, A[i][c] * x[c], as the sum over s of L[i][s] * U[s][c] * x[c]. */
  lemma EntryAsSum(A: Matrix, n: nat, i: nat, c: nat)
    requires Augmented(A, n) && i < n && c < n
    requires PivotsNonzero(A, n, n)
    ensures RowTimes(A, i, XVec(A, n))(c) == SumCols(Triple(A, n, i), n)(c)
  {
    var x := XVec(A, n);
    var F := Triple(A, n, i);
    var T := UY(A, n);
    Factorisation(A, n, i, c);
    SumScaled(n, At(x, c), LUTerm(A, n, i, c));
    forall s: nat | s < n
      ensures Scaled(At(x, c), LUTerm(A, n, i, c))(s) == ColOf(F, c)(s)
    {
      assert Entry(T, s, c) == UF(A, n, s, c);
    }
    SumExt(n, Scaled(At(x, c), LUTerm(A, n, i, c)), ColOf(F, c));
  }

  /** Summing the same products over c first gives row i of L times y. */
  lemma DoubleSumAsLower(A: Matrix, n: nat, i: nat)
    requires Augmented(A, n) && i < n
    requires PivotsNonzero(A, n, n)
    ensures Sum(n, SumRows(Triple(A, n, i), n)) == Sum(n, LYTerm(A, n, i))
  {
    var F := Triple(A, n, i);
    var T := UY(A, n);
    var x := XVec(A, n);
    forall s: nat | s < n
      ensures SumRows(F, n)(s) == LYTerm(A, n, i)(s)
    {
      forall c: nat | c < n
        ensures RowOf(F, s)(c) == Scaled(LF(A, n, i, s), RowTimes(T, s, x))(c)
      {
      }
      SumExt(n, RowOf(F, s), Scaled(LF(A, n, i, s), RowTimes(T, s, x)));
      SumScaled(n, LF(A, n, i, s), RowTimes(T, s, x));
      UpperSystem(A, n, s);
      assert At(YVec(A, n), s) == Y(A, n, s);
    }
    SumExt(n, SumRows(F, n), LYTerm(A, n, i));
  }

  /** The values computed from the Doolittle factors solve the system whenever all n pivots are
      nonzero: L * y == b and U * x == y give A * x == b. */
  lemma SubstitutionSolves(A: Matrix, n: nat)
    requires Augmented(A, n)
    requires PivotsNonzero(A, n, n)
    ensures Solves(A, n, XVec(A, n))
  {
    forall i | 0 <= i < n
      ensures Sum(n, RowTimes(A, i, XVec(A, n))) == A[i][n]
    {
      RowAsDoubleSum(A, n, i);
      SumSwap(n, n, Triple(A, n, i));
      DoubleSumAsLower(A, n, i);
      LowerSystem(A, n, i);
    }
  }
}
