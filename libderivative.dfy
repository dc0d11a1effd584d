/** lib/derivative.c: the later library version of the derivative systems. Its product carries
    the atom table p->A (atoms of each listed element in each active gas species) in place of
    calls to `product_element_coef`; both fills start from the matrix that the three-argument
    `fill_matrix(matrix, e, TP)` leaves, which is given here as the function `common`; its
    `mixture_specific_heat` has no condensed n H^2 term, and its `derivative` stores no Cp/Cv. */
module LibDerivative {
  import opened Numeric
  import opened Species
  import opened Linear
  import opened LibNum
  import opened Assembly
  import opened Derivative

  /** p->A has one row per listed element and one column per active gas species. */
  predicate TableOk(x: Mix, A: seq<seq<int>>) {
    |A| == |x.el| && forall j :: 0 <= j < |A| ==> |A[j]| == |x.gas|
  }

  /** p->A as the library fills it: the coefficients `product_element_coef` gives. */
  predicate IsAtomTable(x: Mix, A: seq<seq<int>>)
    requires MixOk(x)
  {
    TableOk(x, A) && forall j, k :: 0 <= j < |x.el| && 0 <= k < |x.gas| ==> A[j][k] == Atoms(x, j, x.gas[k])
  }

  /** sum over gas species q < k of A[j][q] n_q H_q */
  function TableEnthalpy(x: Mix, A: seq<seq<int>>, j: nat, k: nat): real
    requires MixOk(x) && TableOk(x, A) && j < |x.el| && k <= |x.gas|
  {
    if k == 0 then 0.0
    else
      var q := k - 1;
      TableEnthalpy(x, A, j, q) + Times(Weigh(x.gasN[q], A[j][q]), H0(x, x.gas[q]))
  }

  /** sum over gas species q < k of A[j][q] n_q */
  function TableGas(x: Mix, A: seq<seq<int>>, j: nat, k: nat): real
    requires MixOk(x) && TableOk(x, A) && j < |x.el| && k <= |x.gas|
  {
    if k == 0 then 0.0 else TableGas(x, A, j, k - 1) + Weigh(x.gasN[k - 1], A[j][k - 1])
  }

  /** With the table of `product_element_coef`, the sums are those of derivative.c. */
  lemma {:induction false} TableSumsAgree(x: Mix, A: seq<seq<int>>, j: nat, k: nat)
    requires MixOk(x) && IsAtomTable(x, A) && j < |x.el| && k <= |x.gas|
    ensures TableEnthalpy(x, A, j, k) == ElemEnthalpy(x, j, k)
    ensures TableGas(x, A, j, k) == ElemGas(x, j, k)
  {
    if k > 0 {
      TableSumsAgree(x, A, j, k - 1);
      assert A[j][k - 1] == Atoms(x, j, x.gas[k - 1]);
    }
  }

  /** The right-hand side the library fill for w writes into row r of column idx_T. */
  function TableRhs(x: Mix, A: seq<seq<int>>, w: Wrt, r: int): real
    requires MixOk(x) && TableOk(x, A) && 0 <= r < Size(x)
  {
    var E, C := |x.el|, |x.cond|;
    match w
    case Temperature =>
      if r < E then -TableEnthalpy(x, A, r, |x.gas|)
      else if r < E + C then -H0(x, x.cond[r - E])
      else -GasEnthalpy(x, |x.gas|)
    case Pressure =>
      if r < E then TableGas(x, A, r, |x.gas|)
      else if r < E + C then 0.0
      else Moles(x, |x.gas|)
  }

  /** Cell (r, c) after the library fill for w over the common part `common`: the right-hand
      side in column idx_T, 0 at (idx_n, idx_n), the common part elsewhere. */
  function TableCell(x: Mix, A: seq<seq<int>>, w: Wrt, r: int, c: int, common: real): real
    requires MixOk(x) && TableOk(x, A) && 0 <= r < Size(x) && 0 <= c <= Size(x)
  {
    if c == Size(x) then TableRhs(x, A, w, r)
    else if r == |x.el| + |x.cond| && c == r then 0.0
    else common
  }

  /** The system the library fill for w builds. */
  ghost function TableBuilt(x: Mix, A: seq<seq<int>>, w: Wrt, common: (int, int) -> real): (M: Matrix)
    requires MixOk(x) && TableOk(x, A)
    ensures Augmented(M, Size(x))
  {
    seq(Size(x), r requires 0 <= r < Size(x) =>
      seq(Size(x) + 1, c requires 0 <= c <= Size(x) => TableCell(x, A, w, r, c, common(r, c))))
  }

  /** When p->A is the table of `product_element_coef` and the common part agrees with the
      cells `fill_matrix` of equilibrium.c writes, the library systems are the systems of
      derivative.c over storage holding the common part. */
  lemma TableCellIsDerivCell(x: Mix, A: seq<seq<int>>, w: Wrt, common: (int, int) -> real, r: int, c: int)
    requires MixOk(x) && IsAtomTable(x, A) && 0 <= r < Size(x) && 0 <= c <= Size(x)
    requires Written(x, r, c) ==> common(r, c) == Cell(x, r, c)
    ensures TableCell(x, A, w, r, c, common(r, c)) == DerivCell(x, w, r, c, common(r, c))
  {
    if r < |x.el| {
      TableSumsAgree(x, A, r, |x.gas|);
    }
  }

  lemma TableBuiltIsBuilt(x: Mix, A: seq<seq<int>>, w: Wrt, common: (int, int) -> real)
    requires MixOk(x) && IsAtomTable(x, A)
    requires forall r, c :: Written(x, r, c) ==> common(r, c) == Cell(x, r, c)
    ensures TableBuilt(x, A, w, common) == Built(x, w, common)
  {
    var M, B := TableBuilt(x, A, w, common), Built(x, w, common);
    forall r | 0 <= r < Size(x)
      ensures M[r] == B[r]
    {
      forall c | 0 <= c <= Size(x)
        ensures M[r][c] == B[r][c]
      {
        TableCellIsDerivCell(x, A, w, common, r, c);
      }
    }
  }

  // ---------------------------------------------------------------- the fills

  /** The cells `fill_matrix(matrix, e, TP)` writes, whose code is not part of this model: the
      whole matrix, taken from common. */
  method CommonPart(matrix: array2<real>, common: (int, int) -> real)
    modifies matrix
    ensures forall r, c :: 0 <= r < matrix.Length0 && 0 <= c < matrix.Length1 ==> matrix[r, c] == common(r, c)
  {
    for r := 0 to matrix.Length0
      invariant forall r', c :: 0 <= r' < r && 0 <= c < matrix.Length1 ==> matrix[r', c] == common(r', c)
    {
      for c := 0 to matrix.Length1
        invariant forall r', c' :: 0 <= r' < r && 0 <= c' < matrix.Length1 ==> matrix[r', c'] == common(r', c')
        invariant forall c' :: 0 <= c' < c ==> matrix[r, c'] == common(r, c')
      {
        matrix[r, c] := common(r, c);
      }
    }
  }

  /** the element right-hand side of the temperature fill: 0 less each A[j][k] n_k H_k */
  method TableEnthalpyLoss(x: Mix, A: seq<seq<int>>, j: nat) returns (tmp: real)
    requires MixOk(x) && TableOk(x, A) && j < |x.el|
    ensures tmp == -TableEnthalpy(x, A, j, |x.gas|)
  {
    tmp := 0.0;
    for k := 0 to |x.gas|
      invariant tmp == -TableEnthalpy(x, A, j, k)
    {
      tmp := tmp - Times(Weigh(x.gasN[k], A[j][k]), H0(x, x.gas[k]));
    }
  }

  /** the element right-hand side of the pressure fill: the sum of A[j][k] n_k */
  method TableAtoms(x: Mix, A: seq<seq<int>>, j: nat) returns (tmp: real)
    requires MixOk(x) && TableOk(x, A) && j < |x.el|
    ensures tmp == TableGas(x, A, j, |x.gas|)
  {
    tmp := 0.0;
    for k := 0 to |x.gas|
      invariant tmp == TableGas(x, A, j, k)
    {
      tmp := tmp + Weigh(x.gasN[k], A[j][k]);
    }
  }

  /** The right-hand side loops of the library fill for w: column idx_T only. */
  method TableRhsColumn(matrix: array2<real>, x: Mix, A: seq<seq<int>>, w: Wrt)
    requires MixOk(x) && TableOk(x, A) && matrix.Length0 == Size(x) && matrix.Length1 == Size(x) + 1
    modifies matrix
    ensures forall r :: 0 <= r < Size(x) ==> matrix[r, Size(x)] == TableRhs(x, A, w, r)
    ensures forall r, c :: 0 <= r < Size(x) && 0 <= c < Size(x) ==> matrix[r, c] == old(matrix[r, c])
  {
    var E, C := |x.el|, |x.cond|;
    for j := 0 to E
      invariant forall r, c :: 0 <= r < Size(x) && 0 <= c < Size(x) ==> matrix[r, c] == old(matrix[r, c])
      invariant forall r :: 0 <= r < j ==> matrix[r, E + C + 1] == TableRhs(x, A, w, r)
    {
      var tmp;
      if w == Temperature {
        tmp := TableEnthalpyLoss(x, A, j);
      } else {
        tmp := TableAtoms(x, A, j);
      }
      matrix[j, E + C + 1] := tmp;
    }
    for j := 0 to C
      invariant forall r, c :: 0 <= r < Size(x) && 0 <= c < Size(x) ==> matrix[r, c] == old(matrix[r, c])
      invariant forall r :: 0 <= r < E + j ==> matrix[r, E + C + 1] == TableRhs(x, A, w, r)
    {
      matrix[j + E, E + C + 1] := if w == Temperature then -H0(x, x.cond[j]) else 0.0;
    }
    var tmp;
    if w == Temperature {
      tmp := EnthalpyLoss(x);
    } else {
      tmp := GasMoles(x);
    }
    matrix[E + C, E + C + 1] := tmp;
  }

  /** `fill_temperature_derivative_matrix` (w = Temperature) and
      `fill_pressure_derivative_matrix` (w = Pressure) of the library: the common part, 0 at
      (idx_n, idx_n), and the right-hand side. */
  method FillTable(matrix: array2<real>, x: Mix, A: seq<seq<int>>, w: Wrt, common: (int, int) -> real)
    requires MixOk(x) && TableOk(x, A) && matrix.Length0 == Size(x) && matrix.Length1 == Size(x) + 1
    modifies matrix
    ensures forall r, c :: 0 <= r < Size(x) && 0 <= c <= Size(x) ==> matrix[r, c] == TableCell(x, A, w, r, c, common(r, c))
  {
    var E, C := |x.el|, |x.cond|;
    CommonPart(matrix, common);
    matrix[E + C, E + C] := 0.0;
    TableRhsColumn(matrix, x, A, w);
  }

  /** A matrix holding the cells of the library fill for w is that system. */
  lemma TableSystem(matrix: array2<real>, x: Mix, A: seq<seq<int>>, w: Wrt, common: (int, int) -> real)
    requires MixOk(x) && TableOk(x, A) && matrix.Length0 == Size(x) && matrix.Length1 == Size(x) + 1
    requires forall r, c :: 0 <= r < Size(x) && 0 <= c <= Size(x) ==> matrix[r, c] == TableCell(x, A, w, r, c, common(r, c))
    ensures System(matrix, Size(x)) == TableBuilt(x, A, w, common)
  {
    var M, B := System(matrix, Size(x)), TableBuilt(x, A, w, common);
    forall r | 0 <= r < Size(x)
      ensures M[r] == B[r]
    {
      forall c | 0 <= c <= Size(x)
        ensures M[r][c] == B[r][c]
      {
        assert M[r][c] == matrix[r, c];
      }
    }
  }

  // ---------------------------------------------------------------- mixture_specific_heat

  /** sum over elements q < i of (sum over gas k of A[q][k] n_k H_k) times sol[q] */
  function TableCpElements(x: Mix, A: seq<seq<int>>, sol: seq<real>, i: nat): real
    requires MixOk(x) && TableOk(x, A) && i <= |x.el| && |sol| >= Size(x)
  {
    if i == 0 then 0.0 else TableCpElements(x, A, sol, i - 1) + Times(TableEnthalpy(x, A, i - 1, |x.gas|), sol[i - 1])
  }

  /** Cp/R of the library: the element, condensed and ln n terms, the frozen Cp0/R of the mixture
      (cp0mix) and the n H^2 sum of the gas species only. */
  function TableSpecificHeat(x: Mix, A: seq<seq<int>>, sol: seq<real>, cp0mix: real): real
    requires MixOk(x) && TableOk(x, A) && |sol| >= Size(x)
  {
    TableCpElements(x, A, sol, |x.el|) + CpCondensed(x, sol, |x.cond|)
    + Times(GasEnthalpy(x, |x.gas|), sol[|x.el| + |x.cond|])
    + cp0mix + GasEnthalpySq(x, |x.gas|)
  }

  lemma {:induction false} TableCpElementsAgree(x: Mix, A: seq<seq<int>>, sol: seq<real>, i: nat)
    requires MixOk(x) && IsAtomTable(x, A) && i <= |x.el| && |sol| >= Size(x)
    ensures TableCpElements(x, A, sol, i) == CpElements(x, sol, i)
  {
    if i > 0 {
      TableCpElementsAgree(x, A, sol, i - 1);
      TableSumsAgree(x, A, i - 1, |x.gas|);
    }
  }

  /** The two versions of `mixture_specific_heat` differ by exactly the condensed n H^2 sum,
      which only derivative.c adds. */
  lemma SpecificHeatsDiffer(x: Mix, A: seq<seq<int>>, sol: seq<real>, cp0mix: real)
    requires MixOk(x) && IsAtomTable(x, A) && |sol| >= Size(x)
    ensures TableSpecificHeat(x, A, sol, cp0mix) + CondEnthalpySq(x, |x.cond|) == SpecificHeat(x, sol, cp0mix)
  {
    TableCpElementsAgree(x, A, sol, |x.el|);
  }

  /** sum over gas k of A[i][k] n_k H_k, the inner loop of the element terms */
  method TableGasEnthalpy(x: Mix, A: seq<seq<int>>, i: nat) returns (tmp: real)
    requires MixOk(x) && TableOk(x, A) && i < |x.el|
    ensures tmp == TableEnthalpy(x, A, i, |x.gas|)
  {
    tmp := 0.0;
    for j := 0 to |x.gas|
      invariant tmp == TableEnthalpy(x, A, i, j)
    {
      tmp := tmp + Times(Weigh(x.gasN[j], A[i][j]), H0(x, x.gas[j]));
    }
  }

  /** `mixture_specific_heat` of the library: its five accumulations, in the order of the source. */
  method TableMixtureSpecificHeat(x: Mix, A: seq<seq<int>>, sol: seq<real>, cp0mix: real) returns (cp: real)
    requires MixOk(x) && TableOk(x, A) && |sol| >= Size(x)
    ensures cp == TableSpecificHeat(x, A, sol, cp0mix)
  {
    var E, C := |x.el|, |x.cond|;
    cp := 0.0;
    for i := 0 to E
      invariant cp == TableCpElements(x, A, sol, i)
    {
      var tmp := TableGasEnthalpy(x, A, i);
      cp := cp + Times(tmp, sol[i]);
    }
    for i := 0 to C
      invariant cp == TableCpElements(x, A, sol, E) + CpCondensed(x, sol, i)
    {
      cp := cp + Times(H0(x, x.cond[i]), sol[i + E]);
    }
    var tmp := 0.0;
    for i := 0 to |x.gas|
      invariant tmp == GasEnthalpy(x, i)
    {
      tmp := tmp + Times(x.gasN[i], H0(x, x.gas[i]));
    }
    cp := cp + Times(tmp, sol[E + C]);
    cp := cp + cp0mix;
    ghost var base := cp;
    for i := 0 to |x.gas|
      invariant cp == base + GasEnthalpySq(x, i)
    {
      var h := H0(x, x.gas[i]);
      cp := cp + Times(x.gasN[i], Times(h, h));
    }
  }

  // ---------------------------------------------------------------- derivative

  /** The fields of equilib_prop_t that the library `derivative` sets. */
  class Properties {
    var cp: real
    var dVT: real
    var dVP: real
    var cv: real
    var isex: real

    /** The stores of the library `derivative`: Cp = R Cp/R and dV_T when the temperature system
        was solved, dV_P when the pressure system was; then, from whatever the fields hold,
        Cv = Cp + n R dV_T^2 / dV_P and Isex = -(Cp/Cv) / dV_P. */
    method Store(okT: bool, cpR: real, dT: real, okP: bool, dP: real, n: real)
      modifies this
      ensures okT ==> cp == Times(cpR, R) && dVT == dT
      ensures !okT ==> cp == old(cp) && dVT == old(dVT)
      ensures okP ==> dVP == dP
      ensures !okP ==> dVP == old(dVP)
      ensures cv == cp + Quot(Times(Times(n, R), Times(dVT, dVT)), dVP)
      ensures isex == -Quot(Quot(cp, cv), dVP)
    {
      if okT {
        cp, dVT := Times(cpR, R), dT;
      }
      if okP {
        dVP := dP;
      }
      cv := cp + Quot(Times(Times(n, R), Times(dVT, dVT)), dVP);
      isex := -Quot(Quot(cp, cv), dVP);
    }
  }

  /** The temperature solve of the library `derivative`; on success also Cp/R and dV_T. */
  method TableTemperatureStep(x: Mix, A: seq<seq<int>>, common: (int, int) -> real, cp0mix: real,
                              matrix: array2<real>, sol: array<real>)
      returns (ok: bool, cp: real, dV: real, ghost solT: seq<real>)
    requires MixOk(x) && TableOk(x, A) && matrix.Length0 == Size(x) && matrix.Length1 == Size(x) + 1 && sol.Length == Size(x)
    requires System(matrix, Size(x)) == TableBuilt(x, A, Temperature, common)
    modifies sol
    ensures ok <==> PivotsNonzero(TableBuilt(x, A, Temperature, common), Size(x), Size(x))
    ensures ok ==> solT == XVec(TableBuilt(x, A, Temperature, common), Size(x)) && Solves(TableBuilt(x, A, Temperature, common), Size(x), solT)
    ensures ok ==> |solT| == Size(x) && cp == TableSpecificHeat(x, A, solT, cp0mix) && dV == 1.0 + solT[|x.el| + |x.cond|]
  {
    cp, dV := 0.0, 0.0;
    var r := Lu(matrix, sol, Size(x));
    ok := r != -1;
    var v := sol[..];
    assert v == sol[..Size(x)];
    solT := v;
    if ok {
      cp := TableMixtureSpecificHeat(x, A, v, cp0mix);
      dV := 1.0 + v[Size(x) - 1];
    }
  }

  /** The pressure solve of the library `derivative`; on success also dV_P. */
  method TablePressureStep(x: Mix, A: seq<seq<int>>, common: (int, int) -> real, matrix: array2<real>, sol: array<real>)
      returns (ok: bool, dV: real, ghost solP: seq<real>)
    requires MixOk(x) && TableOk(x, A) && matrix.Length0 == Size(x) && matrix.Length1 == Size(x) + 1 && sol.Length == Size(x)
    requires System(matrix, Size(x)) == TableBuilt(x, A, Pressure, common)
    modifies sol
    ensures ok <==> PivotsNonzero(TableBuilt(x, A, Pressure, common), Size(x), Size(x))
    ensures ok ==> solP == XVec(TableBuilt(x, A, Pressure, common), Size(x)) && Solves(TableBuilt(x, A, Pressure, common), Size(x), solP)
    ensures ok ==> |solP| == Size(x) && dV == solP[|x.el| + |x.cond|] - 1.0
  {
    dV := 0.0;
    var r := Lu(matrix, sol, Size(x));
    ok := r != -1;
    var v := sol[..];
    assert v == sol[..Size(x)];
    solP := v;
    if ok {
      dV := v[Size(x) - 1] - 1.0;
    }
  }

  /** The two systems of the library `derivative`, each filled from the common part and solved. */
  method TableSystems(x: Mix, A: seq<seq<int>>, common: (int, int) -> real, cp0mix: real)
      returns (okT: bool, cp: real, dT: real, ghost solT: seq<real>, okP: bool, dP: real, ghost solP: seq<real>)
    requires MixOk(x) && TableOk(x, A)
    ensures okT <==> PivotsNonzero(TableBuilt(x, A, Temperature, common), Size(x), Size(x))
    ensures okT ==> solT == XVec(TableBuilt(x, A, Temperature, common), Size(x)) && Solves(TableBuilt(x, A, Temperature, common), Size(x), solT)
    ensures okT ==> |solT| == Size(x) && cp == TableSpecificHeat(x, A, solT, cp0mix) && dT == 1.0 + solT[|x.el| + |x.cond|]
    ensures okP <==> PivotsNonzero(TableBuilt(x, A, Pressure, common), Size(x), Size(x))
    ensures okP ==> solP == XVec(TableBuilt(x, A, Pressure, common), Size(x)) && Solves(TableBuilt(x, A, Pressure, common), Size(x), solP)
    ensures okP ==> |solP| == Size(x) && dP == solP[|x.el| + |x.cond|] - 1.0
  {
    var size := Size(x);
    var matrix := new real[size, size + 1]((r, c) => 0.0);
    var sol := new real[size](_ => 0.0);
    FillTable(matrix, x, A, Temperature, common);
    TableSystem(matrix, x, A, Temperature, common);
    okT, cp, dT, solT := TableTemperatureStep(x, A, common, cp0mix, matrix, sol);
    FillTable(matrix, x, A, Pressure, common);
    TableSystem(matrix, x, A, Pressure, common);
    okP, dP, solP := TablePressureStep(x, A, common, matrix, sol);
  }

  /** The library `derivative`: both systems solved in turn, Cp = R Cp/R and dV_T = 1 + the ln n
      unknown when the temperature system was solved, dV_P = the ln n unknown - 1 when the
      pressure system was, then Cv and Isex whatever the outcome. */
  method TableDerivative(x: Mix, A: seq<seq<int>>, common: (int, int) -> real, props: Properties, cp0mix: real)
      returns (okT: bool, okP: bool, ghost solT: seq<real>, ghost solP: seq<real>)
    requires MixOk(x) && TableOk(x, A)
    modifies props
    ensures okT <==> PivotsNonzero(TableBuilt(x, A, Temperature, common), Size(x), Size(x))
    ensures okT ==> solT == XVec(TableBuilt(x, A, Temperature, common), Size(x)) && Solves(TableBuilt(x, A, Temperature, common), Size(x), solT)
    ensures okT ==> props.cp == Times(TableSpecificHeat(x, A, solT, cp0mix), R) && props.dVT == 1.0 + solT[|x.el| + |x.cond|]
    ensures !okT ==> props.cp == old(props.cp) && props.dVT == old(props.dVT)
    ensures okP <==> PivotsNonzero(TableBuilt(x, A, Pressure, common), Size(x), Size(x))
    ensures okP ==> solP == XVec(TableBuilt(x, A, Pressure, common), Size(x)) && Solves(TableBuilt(x, A, Pressure, common), Size(x), solP)
    ensures okP ==> props.dVP == solP[|x.el| + |x.cond|] - 1.0
    ensures !okP ==> props.dVP == old(props.dVP)
    ensures props.cv == props.cp + Quot(Times(Times(x.n, R), Times(props.dVT, props.dVT)), props.dVP)
    ensures props.isex == -Quot(Quot(props.cp, props.cv), props.dVP)
  {
    var cp, dT, dP;
    okT, cp, dT, solT, okP, dP, solP := TableSystems(x, A, common, cp0mix);
    props.Store(okT, cp, dT, okP, dP, x.n);
  }
}
