/** `fill_matrix` of equilibrium.c: the bordered linear system of one Newton step of the
    Gordon and McBride iteration. With E elements and C active condensed species, rows and
    columns 0..E-1 belong to the element potentials, E..E+C-1 to the condensed species and E+C
    to the change of ln n; the right-hand side is column E+C+1. */
module Assembly {
  import opened Numeric
  import opened Species

  /** What `fill_matrix` reads of an equilibrium: the thermo and propellant databases and the
      thermo functions, the element list, the ids and amounts of the active gas and condensed
      species, the composition (propellant ids and moles), and n, T and P. */
  datatype Mix = Mix(
    db: seq<Thermo>, fns: ThermoFns, props: seq<Propellant>,
    el: seq<int>,
    gas: seq<int>, gasN: seq<real>,
    cond: seq<int>, condN: seq<real>,
    mol: seq<int>, mc: seq<real>,
    n: real, T: real, P: real)

  /** Ids and amounts line up and every id names a record of its database. */
  predicate MixOk(x: Mix) {
    && |x.gasN| == |x.gas| && |x.condN| == |x.cond| && |x.mc| == |x.mol|
    && (forall k :: 0 <= k < |x.gas| ==> 0 <= x.gas[k] < |x.db|)
    && (forall k :: 0 <= k < |x.cond| ==> 0 <= x.cond[k] < |x.db|)
    && (forall k :: 0 <= k < |x.mol| ==> 0 <= x.mol[k] < |x.props|)
  }

  /** The number of unknowns E + C + 1; the matrix has one column more. */
  function Size(x: Mix): nat {
    |x.el| + |x.cond| + 1
  }

  /** Atoms of the j-th listed element in database species sp. */
  function Atoms(x: Mix, j: nat, sp: int): int
    requires j < |x.el| && 0 <= sp < |x.db|
  {
    ProductElementCoef(x.el[j], x.db[sp])
  }

  /** `gibbs(sp, st, nj, e->n, e->T, e->P)` */
  function G(x: Mix, st: State, sp: int, nj: real): real {
    x.fns.gibbs(sp, st, nj, x.n, x.T, x.P)
  }

  // ---------------------------------------------------------------- the sums, over the first k terms

  /** moles of gas: the sum of the gas amounts */
  function Moles(x: Mix, k: nat): real
    requires MixOk(x) && k <= |x.gas|
  {
    if k == 0 then 0.0 else Moles(x, k - 1) + x.gasN[k - 1]
  }

  /** sum over gas species q of a(j, q) a(i, q) n_q */
  function PairSum(x: Mix, j: nat, i: nat, k: nat): real
    requires MixOk(x) && j < |x.el| && i < |x.el| && k <= |x.gas|
  {
    if k == 0 then 0.0
    else PairSum(x, j, i, k - 1) + Prod(Atoms(x, j, x.gas[k - 1]), Atoms(x, i, x.gas[k - 1]), x.gasN[k - 1])
  }

  /** sum over gas species q of a(j, q) n_q */
  function ElemGas(x: Mix, j: nat, k: nat): real
    requires MixOk(x) && j < |x.el| && k <= |x.gas|
  {
    if k == 0 then 0.0 else ElemGas(x, j, k - 1) + Weigh(x.gasN[k - 1], Atoms(x, j, x.gas[k - 1]))
  }

  /** sum over condensed species q of a(j, q) n_q */
  function ElemCond(x: Mix, j: nat, k: nat): real
    requires MixOk(x) && j < |x.el| && k <= |x.cond|
  {
    if k == 0 then 0.0 else ElemCond(x, j, k - 1) + Weigh(x.condN[k - 1], Atoms(x, j, x.cond[k - 1]))
  }

  /** sum over gas species q of a(j, q) n_q g_q */
  function ElemGibbs(x: Mix, j: nat, k: nat): real
    requires MixOk(x) && j < |x.el| && k <= |x.gas|
  {
    if k == 0 then 0.0
    else
      var q := k - 1;
      ElemGibbs(x, j, q) + Times(Weigh(x.gasN[q], Atoms(x, j, x.gas[q])), G(x, Gas, x.gas[q], x.gasN[q]))
  }

  /** sum over the components q of the composition of (atoms of element j in q) times its moles */
  function ElemProp(x: Mix, j: nat, k: nat): real
    requires MixOk(x) && j < |x.el| && k <= |x.mol|
  {
    if k == 0 then 0.0
    else ElemProp(x, j, k - 1) + Weigh(x.mc[k - 1], PropellantElementCoef(x.el[j], x.props[x.mol[k - 1]]))
  }

  /** sum over gas species q of n_q g_q */
  function GasGibbs(x: Mix, k: nat): real
    requires MixOk(x) && k <= |x.gas|
  {
    if k == 0 then 0.0 else GasGibbs(x, k - 1) + Times(x.gasN[k - 1], G(x, Gas, x.gas[k - 1], x.gasN[k - 1]))
  }

  /** The right-hand side of element row j: the gas Gibbs sum, less the atoms of element j in all
      active species (b_j), plus the atoms of element j in the propellant (b_j of the composition). */
  function ElemRhs(x: Mix, j: nat): real
    requires MixOk(x) && j < |x.el|
  {
    ElemGibbs(x, j, |x.gas|) - (ElemGas(x, j, |x.gas|) + ElemCond(x, j, |x.cond|)) + ElemProp(x, j, |x.mol|)
  }

  // ---------------------------------------------------------------- the layout

  /** The cells `fill_matrix` writes: all of the s x (s + 1) matrix but the condensed columns of
      the ln n row. */
  predicate Written(x: Mix, r: int, c: int) {
    0 <= r < Size(x) && 0 <= c <= Size(x) && !(r == |x.el| + |x.cond| && |x.el| <= c < |x.el| + |x.cond|)
  }

  /** The value `fill_matrix` gives a written cell. */
  function Cell(x: Mix, r: int, c: int): real
    requires MixOk(x) && Written(x, r, c)
  {
    var E, C := |x.el|, |x.cond|;
    if r < E then
      if c < E then PairSum(x, r, c, |x.gas|)
      else if c < E + C then Atoms(x, r, x.cond[c - E]) as real
      else if c == E + C then ElemGas(x, r, |x.gas|)
      else ElemRhs(x, r)
    else if r < E + C then
      if c < E then Atoms(x, c, x.cond[r - E]) as real
      else if c <= E + C then 0.0
      else G(x, Condensed, x.cond[r - E], x.condN[r - E])
    else
      if c < E then ElemGas(x, c, |x.gas|)
      else if c == E + C then Moles(x, |x.gas|) - x.n
      else x.n - Moles(x, |x.gas|) + GasGibbs(x, |x.gas|)
  }

  /** The square part of the system with the never-written cells read as 0. */
  function Coefficient(x: Mix, r: int, c: int): real
    requires MixOk(x) && 0 <= r < Size(x) && 0 <= c < Size(x)
  {
    if Written(x, r, c) then Cell(x, r, c) else 0.0
  }

  lemma {:induction false} PairSymmetric(x: Mix, j: nat, i: nat, k: nat)
    requires MixOk(x) && j < |x.el| && i < |x.el| && k <= |x.gas|
    ensures PairSum(x, j, i, k) == PairSum(x, i, j, k)
  {
    if k > 0 {
      PairSymmetric(x, j, i, k - 1);
      ProdSwap(Atoms(x, j, x.gas[k - 1]), Atoms(x, i, x.gas[k - 1]), x.gasN[k - 1]);
    }
  }

  lemma ProdSwap(a: int, b: int, y: real)
    ensures Prod(a, b, y) == Prod(b, a, y)
  {
    assert a * b == b * a;
  }

  /** The coefficient part is symmetric once the never-written cells are 0: the element block is
      a sum of symmetric products, the element/condensed blocks are the same atom counts, the
      element/ln n border is the same gas sum, and the rest of the condensed block is 0. */
  lemma Symmetric(x: Mix, r: int, c: int)
    requires MixOk(x) && 0 <= r < Size(x) && 0 <= c < Size(x)
    ensures Coefficient(x, r, c) == Coefficient(x, c, r)
  {
    if r < |x.el| && c < |x.el| {
      PairSymmetric(x, r, c, |x.gas|);
    }
  }

  // ---------------------------------------------------------------- the accumulating loops

  /** `mol`, the first loop of `fill_matrix` */
  method GasMoles(x: Mix) returns (mol: real)
    requires MixOk(x)
    ensures mol == Moles(x, |x.gas|)
  {
    mol := 0.0;
    for k := 0 to |x.gas|
      invariant mol == Moles(x, k)
    {
      mol := mol + x.gasN[k];
    }
  }

  method PairTotal(x: Mix, j: nat, i: nat) returns (tmp: real)
    requires MixOk(x) && j < |x.el| && i < |x.el|
    ensures tmp == PairSum(x, j, i, |x.gas|)
  {
    tmp := 0.0;
    for k := 0 to |x.gas|
      invariant tmp == PairSum(x, j, i, k)
    {
      tmp := tmp + Prod(Atoms(x, j, x.gas[k]), Atoms(x, i, x.gas[k]), x.gasN[k]);
    }
  }

  method GasAtoms(x: Mix, j: nat) returns (tmp: real)
    requires MixOk(x) && j < |x.el|
    ensures tmp == ElemGas(x, j, |x.gas|)
  {
    tmp := 0.0;
    for k := 0 to |x.gas|
      invariant tmp == ElemGas(x, j, k)
    {
      tmp := tmp + Weigh(x.gasN[k], Atoms(x, j, x.gas[k]));
    }
  }

  /** the first accumulation of the element right-hand side */
  method GibbsAtoms(x: Mix, j: nat) returns (tmp: real)
    requires MixOk(x) && j < |x.el|
    ensures tmp == ElemGibbs(x, j, |x.gas|)
  {
    tmp := 0.0;
    for k := 0 to |x.gas|
      invariant tmp == ElemGibbs(x, j, k)
    {
      tmp := tmp + Times(Weigh(x.gasN[k], Atoms(x, j, x.gas[k])), G(x, Gas, x.gas[k], x.gasN[k]));
    }
  }

  /** b_j: the atoms of element j in the active species, over the gas and then the condensed ones */
  method ActiveAtoms(x: Mix, j: nat) returns (tmp2: real)
    requires MixOk(x) && j < |x.el|
    ensures tmp2 == ElemGas(x, j, |x.gas|) + ElemCond(x, j, |x.cond|)
  {
    tmp2 := GasAtoms(x, j);
    for k := 0 to |x.cond|
      invariant tmp2 == ElemGas(x, j, |x.gas|) + ElemCond(x, j, k)
    {
      tmp2 := tmp2 + Weigh(x.condN[k], Atoms(x, j, x.cond[k]));
    }
  }

  /** b_j of the composition: the atoms of element j in the propellant */
  method PropellantAtoms(x: Mix, j: nat) returns (tmp2: real)
    requires MixOk(x) && j < |x.el|
    ensures tmp2 == ElemProp(x, j, |x.mol|)
  {
    tmp2 := 0.0;
    for k := 0 to |x.mol|
      invariant tmp2 == ElemProp(x, j, k)
    {
      tmp2 := tmp2 + Weigh(x.mc[k], PropellantElementCoef(x.el[j], x.props[x.mol[k]]));
    }
  }

  /** the right-hand side of element row j: its three accumulations in the order of the source */
  method ElementRhs(x: Mix, j: nat) returns (tmp: real)
    requires MixOk(x) && j < |x.el|
    ensures tmp == ElemRhs(x, j)
  {
    tmp := GibbsAtoms(x, j);
    var tmp2 := ActiveAtoms(x, j);
    tmp := tmp - tmp2;
    tmp2 := PropellantAtoms(x, j);
    tmp := tmp + tmp2;
  }

  method GasGibbsTotal(x: Mix) returns (tmp: real)
    requires MixOk(x)
    ensures tmp == GasGibbs(x, |x.gas|)
  {
    tmp := 0.0;
    for k := 0 to |x.gas|
      invariant tmp == GasGibbs(x, k)
    {
      tmp := tmp + Times(x.gasN[k], G(x, Gas, x.gas[k], x.gasN[k]));
    }
  }

  // ---------------------------------------------------------------- filling

  /** The value of one cell written by the loops of `fill_matrix`: all written cells but the last
      two of the ln n row, which it sets on their own. */
  method CellValue(x: Mix, r: nat, c: nat) returns (v: real)
    requires MixOk(x) && Written(x, r, c) && !(r == |x.el| + |x.cond| && c >= |x.el| + |x.cond|)
    ensures v == Cell(x, r, c)
  {
    var E, C := |x.el|, |x.cond|;
    if r < E {
      if c < E {
        v := PairTotal(x, r, c);
      } else if c < E + C {
        v := Atoms(x, r, x.cond[c - E]) as real;
      } else if c == E + C {
        v := GasAtoms(x, r);
      } else {
        v := ElementRhs(x, r);
      }
    } else if r < E + C {
      if c < E {
        v := Atoms(x, c, x.cond[r - E]) as real;
      } else if c <= E + C {
        v := 0.0;
      } else {
        v := G(x, Condensed, x.cond[r - E], x.condN[r - E]);
      }
    } else {
      v := GasAtoms(x, c);
    }
  }

  /** Column c of rows r0..r1-1, row by row. */
  method FillColumn(matrix: array2<real>, x: Mix, r0: nat, r1: nat, c: nat)
    requires MixOk(x) && matrix.Length0 == Size(x) && matrix.Length1 == Size(x) + 1
    requires r0 <= r1 <= Size(x) && c <= Size(x)
    requires forall r :: r0 <= r < r1 ==> Written(x, r, c) && !(r == |x.el| + |x.cond| && c >= |x.el| + |x.cond|)
    modifies matrix
    ensures forall r :: r0 <= r < r1 ==> matrix[r, c] == Cell(x, r, c)
    ensures forall r, c' :: 0 <= r < matrix.Length0 && 0 <= c' < matrix.Length1 && !(r0 <= r < r1 && c' == c)
              ==> matrix[r, c'] == old(matrix[r, c'])
  {
    for r := r0 to r1
      invariant forall r' :: r0 <= r' < r ==> matrix[r', c] == Cell(x, r', c)
      invariant forall r', c' :: 0 <= r' < matrix.Length0 && 0 <= c' < matrix.Length1 && !(r0 <= r' < r && c' == c)
                  ==> matrix[r', c'] == old(matrix[r', c'])
    {
      var v := CellValue(x, r, c);
      matrix[r, c] := v;
    }
  }

  /** One of the loop nests of `fill_matrix`: columns c0..c1-1 of rows r0..r1-1, column by
      column and row by row. */
  method FillBlock(matrix: array2<real>, x: Mix, r0: nat, r1: nat, c0: nat, c1: nat)
    requires MixOk(x) && matrix.Length0 == Size(x) && matrix.Length1 == Size(x) + 1
    requires r0 <= r1 <= Size(x) && c0 <= c1 <= Size(x) + 1
    requires forall r, c :: r0 <= r < r1 && c0 <= c < c1 ==> Written(x, r, c) && !(r == |x.el| + |x.cond| && c >= |x.el| + |x.cond|)
    modifies matrix
    ensures forall r, c :: r0 <= r < r1 && c0 <= c < c1 ==> matrix[r, c] == Cell(x, r, c)
    ensures forall r, c :: 0 <= r < matrix.Length0 && 0 <= c < matrix.Length1 && !(r0 <= r < r1 && c0 <= c < c1)
              ==> matrix[r, c] == old(matrix[r, c])
  {
    for c := c0 to c1
      invariant forall r', c' :: r0 <= r' < r1 && c0 <= c' < c ==> matrix[r', c'] == Cell(x, r', c')
      invariant forall r', c' :: 0 <= r' < matrix.Length0 && 0 <= c' < matrix.Length1 && !(r0 <= r' < r1 && c0 <= c' < c)
                  ==> matrix[r', c'] == old(matrix[r', c'])
    {
      FillColumn(matrix, x, r0, r1, c);
    }
  }

  /** The loops of `fill_matrix` over the element rows: the element block, the condensed
      columns, the ln n column and the right-hand side. */
  method ElementRows(matrix: array2<real>, x: Mix)
    requires MixOk(x) && matrix.Length0 == Size(x) && matrix.Length1 == Size(x) + 1
    modifies matrix
    ensures forall r, c :: 0 <= r < |x.el| && 0 <= c <= Size(x) ==> matrix[r, c] == Cell(x, r, c)
    ensures forall r, c :: |x.el| <= r < matrix.Length0 && 0 <= c < matrix.Length1 ==> matrix[r, c] == old(matrix[r, c])
  {
    var E, C := |x.el|, |x.cond|;
    FillBlock(matrix, x, 0, E, 0, E);
    FillBlock(matrix, x, 0, E, E, E + C);
    FillBlock(matrix, x, 0, E, E + C, E + C + 1);
    FillBlock(matrix, x, 0, E, E + C + 1, E + C + 2);
  }

  /** The loops of `fill_matrix` over the condensed rows: the element columns, the zeroed
      condensed and ln n columns, and the right-hand side. */
  method CondensedRows(matrix: array2<real>, x: Mix)
    requires MixOk(x) && matrix.Length0 == Size(x) && matrix.Length1 == Size(x) + 1
    modifies matrix
    ensures forall r, c :: |x.el| <= r < |x.el| + |x.cond| && 0 <= c <= Size(x) ==> matrix[r, c] == Cell(x, r, c)
    ensures forall r, c :: 0 <= r < matrix.Length0 && 0 <= c < matrix.Length1 && !(|x.el| <= r < |x.el| + |x.cond|)
              ==> matrix[r, c] == old(matrix[r, c])
  {
    var E, C := |x.el|, |x.cond|;
    FillBlock(matrix, x, E, E + C, 0, E);
    FillBlock(matrix, x, E, E + C, E, E + C + 1);
    FillBlock(matrix, x, E, E + C, E + C + 1, E + C + 2);
  }

  /** The ln n row: the element columns, then the two cells that use `mol`. */
  method LnRow(matrix: array2<real>, x: Mix, mol: real)
    requires MixOk(x) && matrix.Length0 == Size(x) && matrix.Length1 == Size(x) + 1
    requires mol == Moles(x, |x.gas|)
    modifies matrix
    ensures forall r, c :: r == |x.el| + |x.cond| && Written(x, r, c) ==> matrix[r, c] == Cell(x, r, c)
    ensures forall r, c :: 0 <= r < matrix.Length0 && 0 <= c < matrix.Length1 && !Written(x, r, c) ==> matrix[r, c] == old(matrix[r, c])
    ensures forall r, c :: 0 <= r < |x.el| + |x.cond| && 0 <= c < matrix.Length1 ==> matrix[r, c] == old(matrix[r, c])
  {
    var E, C := |x.el|, |x.cond|;
    FillBlock(matrix, x, E + C, E + C + 1, 0, E);
    matrix[E + C, E + C] := mol - x.n;
    var tmp := GasGibbsTotal(x);
    matrix[E + C, E + C + 1] := x.n - mol + tmp;
  }

  /** The never-written cells hold 0. */
  predicate GapZero(matrix: array2<real>, x: Mix)
    reads matrix
    requires matrix.Length0 == Size(x) && matrix.Length1 == Size(x) + 1
  {
    forall r, c :: r == |x.el| + |x.cond| && |x.el| <= c < |x.el| + |x.cond| ==> matrix[r, c] == 0.0
  }

  /** `fill_matrix`: every written cell gets its value, the condensed block and the condensed
      rows of the ln n column are 0, the never-written cells keep what they held, and when those
      held 0 the coefficient part is symmetric. */
  method FillMatrix(matrix: array2<real>, x: Mix)
    requires MixOk(x) && matrix.Length0 == Size(x) && matrix.Length1 == Size(x) + 1
    modifies matrix
    ensures forall r, c :: Written(x, r, c) ==> matrix[r, c] == Cell(x, r, c)
    ensures forall r, c :: r == |x.el| + |x.cond| && |x.el| <= c < |x.el| + |x.cond| ==> matrix[r, c] == old(matrix[r, c])
    ensures forall r, c :: |x.el| <= r < |x.el| + |x.cond| && |x.el| <= c <= |x.el| + |x.cond| ==> matrix[r, c] == 0.0
    ensures old(GapZero(matrix, x)) ==> forall r, c :: 0 <= r < Size(x) && 0 <= c < Size(x) ==> matrix[r, c] == matrix[c, r]
  {
    ghost var zero := GapZero(matrix, x);
    var mol := GasMoles(x);
    ElementRows(matrix, x);
    CondensedRows(matrix, x);
    LnRow(matrix, x, mol);
    if zero {
      forall r, c | 0 <= r < Size(x) && 0 <= c < Size(x)
        ensures matrix[r, c] == matrix[c, r]
      {
        Symmetric(x, r, c);
        assert matrix[r, c] == Coefficient(x, r, c) && matrix[c, r] == Coefficient(x, c, r);
      }
    }
  }
}
