/** derivative.c: the systems for the derivatives of ln V with respect to ln T (at constant P)
    and ln P (at constant T), built on the matrix of `fill_matrix`; the mixture specific heat;
    and `derivative`, which solves both systems and derives Cp, Cv, Cp/Cv and the isentropic
    exponent. The species of state GAS are the active gas species of the product. */
module Derivative {
  import opened Numeric
  import opened Species
  import opened Linear
  import opened LibNum
  import opened Assembly

  /** `enthalpy_0(sp, e->T)` */
  function H0(x: Mix, sp: int): real {
    x.fns.enthalpy0(sp, x.T)
  }

  /** sum over gas species q of a(j, q) n_q H_q */
  function ElemEnthalpy(x: Mix, j: nat, k: nat): real
    requires MixOk(x) && j < |x.el| && k <= |x.gas|
  {
    if k == 0 then 0.0
    else
      var q := k - 1;
      ElemEnthalpy(x, j, q) + Times(Weigh(x.gasN[q], Atoms(x, j, x.gas[q])), H0(x, x.gas[q]))
  }

  /** sum over gas species q of n_q H_q */
  function GasEnthalpy(x: Mix, k: nat): real
    requires MixOk(x) && k <= |x.gas|
  {
    if k == 0 then 0.0 else GasEnthalpy(x, k - 1) + Times(x.gasN[k - 1], H0(x, x.gas[k - 1]))
  }

  /** The variable a derivative system is taken with respect to. */
  datatype Wrt = Temperature | Pressure

  /** The right-hand side the fill for w writes into row r. */
  function Rhs(x: Mix, w: Wrt, r: int): real
    requires MixOk(x) && 0 <= r < Size(x)
  {
    var E, C := |x.el|, |x.cond|;
    match w
    case Temperature =>
      if r < E then -ElemEnthalpy(x, r, |x.gas|)
      else if r < E + C then -H0(x, x.cond[r - E])
      else -GasEnthalpy(x, |x.gas|)
    case Pressure =>
      if r < E then ElemGas(x, r, |x.gas|)
      else if r < E + C then 0.0
      else Moles(x, |x.gas|)
  }

  /** Cell (r, c) after the fill for w over a matrix whose cell held prior: the right-hand side
      in column s, 0 on the ln n diagonal, the cell of `fill_matrix` elsewhere, and prior in the
      cells `fill_matrix` never writes. */
  function DerivCell(x: Mix, w: Wrt, r: int, c: int, prior: real): real
    requires MixOk(x) && 0 <= r < Size(x) && 0 <= c <= Size(x)
  {
    if c == Size(x) then Rhs(x, w, r)
    else if r == |x.el| + |x.cond| && c == r then 0.0
    else if Written(x, r, c) then Cell(x, r, c)
    else prior
  }

  /** The system the fill for w builds over a matrix with contents init. */
  ghost function Built(x: Mix, w: Wrt, init: (int, int) -> real): (A: Matrix)
    requires MixOk(x)
    ensures Augmented(A, Size(x))
  {
    seq(Size(x), r requires 0 <= r < Size(x) =>
      seq(Size(x) + 1, c requires 0 <= c <= Size(x) => DerivCell(x, w, r, c, init(r, c))))
  }

  /** Freshly zeroed storage, as `calloc` gives. */
  function Zero(r: int, c: int): real {
    0.0
  }

  // ---------------------------------------------------------------- the fills

  /** the element right-hand side of the temperature fill */
  method EnthalpyAtoms(x: Mix, j: nat) returns (tmp: real)
    requires MixOk(x) && j < |x.el|
    ensures tmp == -ElemEnthalpy(x, j, |x.gas|)
  {
    tmp := 0.0;
    for k := 0 to |x.gas|
      invariant tmp == -ElemEnthalpy(x, j, k)
    {
      tmp := tmp - Times(Weigh(x.gasN[k], Atoms(x, j, x.gas[k])), H0(x, x.gas[k]));
    }
  }

  /** the ln n right-hand side of the temperature fill */
  method EnthalpyLoss(x: Mix) returns (tmp: real)
    requires MixOk(x)
    ensures tmp == -GasEnthalpy(x, |x.gas|)
  {
    tmp := 0.0;
    for k := 0 to |x.gas|
      invariant tmp == -GasEnthalpy(x, k)
    {
      tmp := tmp - Times(x.gasN[k], H0(x, x.gas[k]));
    }
  }

  /** The right-hand side loops of `fill_temperature_derivative_matrix`: column s only. */
  method TemperatureRhs(matrix: array2<real>, x: Mix)
    requires MixOk(x) && matrix.Length0 == Size(x) && matrix.Length1 == Size(x) + 1
    modifies matrix
    ensures forall r :: 0 <= r < Size(x) ==> matrix[r, Size(x)] == Rhs(x, Temperature, r)
    ensures forall r, c :: 0 <= r < Size(x) && 0 <= c < Size(x) ==> matrix[r, c] == old(matrix[r, c])
  {
    var E, C := |x.el|, |x.cond|;
    for j := 0 to E
      invariant forall r, c :: 0 <= r < Size(x) && 0 <= c < Size(x) ==> matrix[r, c] == old(matrix[r, c])
      invariant forall r :: 0 <= r < j ==> matrix[r, E + C + 1] == Rhs(x, Temperature, r)
    {
      var tmp := EnthalpyAtoms(x, j);
      matrix[j, E + C + 1] := tmp;
    }
    for j := 0 to C
      invariant forall r, c :: 0 <= r < Size(x) && 0 <= c < Size(x) ==> matrix[r, c] == old(matrix[r, c])
      invariant forall r :: 0 <= r < E + j ==> matrix[r, E + C + 1] == Rhs(x, Temperature, r)
    {
      matrix[j + E, E + C + 1] := -H0(x, x.cond[j]);
    }
    var tmp := EnthalpyLoss(x);
    matrix[E + C, E + C + 1] := tmp;
  }

  /** The right-hand side loops of `fill_pressure_derivative_matrix`: column s only. */
  method PressureRhs(matrix: array2<real>, x: Mix)
    requires MixOk(x) && matrix.Length0 == Size(x) && matrix.Length1 == Size(x) + 1
    modifies matrix
    ensures forall r :: 0 <= r < Size(x) ==> matrix[r, Size(x)] == Rhs(x, Pressure, r)
    ensures forall r, c :: 0 <= r < Size(x) && 0 <= c < Size(x) ==> matrix[r, c] == old(matrix[r, c])
  {
    var E, C := |x.el|, |x.cond|;
    for j := 0 to E
      invariant forall r, c :: 0 <= r < Size(x) && 0 <= c < Size(x) ==> matrix[r, c] == old(matrix[r, c])
      invariant forall r :: 0 <= r < j ==> matrix[r, E + C + 1] == Rhs(x, Pressure, r)
    {
      var tmp := GasAtoms(x, j);
      matrix[j, E + C + 1] := tmp;
    }
    for j := 0 to C
      invariant forall r, c :: 0 <= r < Size(x) && 0 <= c < Size(x) ==> matrix[r, c] == old(matrix[r, c])
      invariant forall r :: 0 <= r < E + j ==> matrix[r, E + C + 1] == Rhs(x, Pressure, r)
    {
      matrix[j + E, E + C + 1] := 0.0;
    }
    var tmp := GasMoles(x);
    matrix[E + C, E + C + 1] := tmp;
  }

  /** `fill_temperature_derivative_matrix`: `fill_matrix`, then 0 on the ln n diagonal and the
      enthalpy right-hand side. */
  method FillTemperatureDerivative(matrix: array2<real>, x: Mix)
    requires MixOk(x) && matrix.Length0 == Size(x) && matrix.Length1 == Size(x) + 1
    modifies matrix
    ensures forall r, c :: 0 <= r < Size(x) && 0 <= c <= Size(x)
              ==> matrix[r, c] == DerivCell(x, Temperature, r, c, old(matrix[r, c]))
  {
    var E, C := |x.el|, |x.cond|;
    FillMatrix(matrix, x);
    matrix[E + C, E + C] := 0.0;
    TemperatureRhs(matrix, x);
  }

  /** `fill_pressure_derivative_matrix`: `fill_matrix`, then 0 on the ln n diagonal and the
      right-hand side, whose element rows repeat the ln n column of `fill_matrix`. */
  method FillPressureDerivative(matrix: array2<real>, x: Mix)
    requires MixOk(x) && matrix.Length0 == Size(x) && matrix.Length1 == Size(x) + 1
    modifies matrix
    ensures forall r, c :: 0 <= r < Size(x) && 0 <= c <= Size(x)
              ==> matrix[r, c] == DerivCell(x, Pressure, r, c, old(matrix[r, c]))
    ensures forall r :: 0 <= r < |x.el| ==> matrix[r, Size(x)] == matrix[r, Size(x) - 1]
  {
    var E, C := |x.el|, |x.cond|;
    FillMatrix(matrix, x);
    matrix[E + C, E + C] := 0.0;
    PressureRhs(matrix, x);
  }

  // ---------------------------------------------------------------- properties of the systems

  /** Both derivative systems keep the symmetric coefficient part of `fill_matrix` (the ln n
      diagonal is set to 0), provided the cells `fill_matrix` never writes held 0. */
  lemma BuiltSymmetric(x: Mix, w: Wrt, init: (int, int) -> real, r: int, c: int)
    requires MixOk(x) && 0 <= r < Size(x) && 0 <= c < Size(x)
    requires forall r', c' :: r' == |x.el| + |x.cond| && |x.el| <= c' < |x.el| + |x.cond| ==> init(r', c') == 0.0
    ensures Built(x, w, init)[r][c] == Built(x, w, init)[c][r]
  {
    Symmetric(x, r, c);
    var E, C := |x.el|, |x.cond|;
    var A := Built(x, w, init);
    assert A[r][c] == DerivCell(x, w, r, c, init(r, c)) && A[c][r] == DerivCell(x, w, c, r, init(c, r));
    if !(r == E + C && c == r) {
      if !Written(x, r, c) {
        assert init(r, c) == 0.0;
      }
      if !Written(x, c, r) {
        assert init(c, r) == 0.0;
      }
      assert A[r][c] == Coefficient(x, r, c) && A[c][r] == Coefficient(x, c, r);
    }
  }

  /** The cells `fill_matrix` leaves alone carry whatever the storage held into the system: when it
      is not zeroed, a single active condensed species already makes the system asymmetric. */
  lemma GapBreaksSymmetry(db: seq<Thermo>, fns: ThermoFns, w: Wrt)
    requires |db| > 0
    ensures var x := Mix(db, fns, [], [], [], [], [0], [1.0], [], [], 1.0, 1.0, 1.0);
      MixOk(x) && Size(x) == 2 && Built(x, w, One)[1][0] == 1.0 && Built(x, w, One)[0][1] == 0.0
  {
    var x := Mix(db, fns, [], [], [], [], [0], [1.0], [], [], 1.0, 1.0, 1.0);
    assert MixOk(x) && Size(x) == 2;
    assert !Written(x, 1, 0) && Written(x, 0, 1);
    assert Built(x, w, One)[1][0] == DerivCell(x, w, 1, 0, One(1, 0)) == 1.0;
    assert Built(x, w, One)[0][1] == DerivCell(x, w, 0, 1, One(0, 1)) == Cell(x, 0, 1) == 0.0;
  }

  /** Storage that holds 1.0 wherever it is not written. */
  function One(r: int, c: int): real {
    1.0
  }

  /** Filling a matrix for w' after filling it for w leaves what filling it once for w' does. */
  lemma Refill(x: Mix, w: Wrt, w': Wrt, r: int, c: int, prior: real)
    requires MixOk(x) && 0 <= r < Size(x) && 0 <= c <= Size(x)
    ensures DerivCell(x, w', r, c, DerivCell(x, w, r, c, prior)) == DerivCell(x, w', r, c, prior)
  {
  }

  /** A matrix holding the cells of the fill for w over storage with contents init is that system. */
  lemma SystemIsBuilt(matrix: array2<real>, x: Mix, w: Wrt, init: (int, int) -> real)
    requires MixOk(x) && matrix.Length0 == Size(x) && matrix.Length1 == Size(x) + 1
    requires forall r, c :: 0 <= r < Size(x) && 0 <= c <= Size(x) ==> matrix[r, c] == DerivCell(x, w, r, c, init(r, c))
    ensures System(matrix, Size(x)) == Built(x, w, init)
  {
    var A, B := System(matrix, Size(x)), Built(x, w, init);
    forall r | 0 <= r < Size(x)
      ensures A[r] == B[r]
    {
      forall c | 0 <= c <= Size(x)
        ensures A[r][c] == B[r][c]
      {
        assert A[r][c] == matrix[r, c];
        assert B[r][c] == DerivCell(x, w, r, c, init(r, c));
      }
    }
  }

  /** The system depends on the prior storage only through the cells `fill_matrix` never writes
      (the ln n row at the condensed columns): storage that holds 0 there gives the system of
      zeroed storage. */
  lemma GapOnly(x: Mix, w: Wrt, init: (int, int) -> real)
    requires MixOk(x)
    requires forall r, c :: r == |x.el| + |x.cond| && |x.el| <= c < |x.el| + |x.cond| ==> init(r, c) == 0.0
    ensures Built(x, w, init) == Built(x, w, Zero)
  {
    var A, B := Built(x, w, init), Built(x, w, Zero);
    forall r | 0 <= r < Size(x)
      ensures A[r] == B[r]
    {
      forall c | 0 <= c <= Size(x)
        ensures A[r][c] == B[r][c]
      {
        assert A[r][c] == DerivCell(x, w, r, c, init(r, c));
        assert B[r][c] == DerivCell(x, w, r, c, Zero(r, c));
      }
    }
  }

  // ---------------------------------------------------------------- mixture_specific_heat

  /** sum over elements q < i of (sum over gas j of a(q, j) n_j H_j) times sol[q] */
  function CpElements(x: Mix, sol: seq<real>, i: nat): real
    requires MixOk(x) && i <= |x.el| && |sol| >= Size(x)
  {
    if i == 0 then 0.0 else CpElements(x, sol, i - 1) + Times(ElemEnthalpy(x, i - 1, |x.gas|), sol[i - 1])
  }

  /** sum over condensed species q < i of H_q times sol[E + q] */
  function CpCondensed(x: Mix, sol: seq<real>, i: nat): real
    requires MixOk(x) && i <= |x.cond| && |sol| >= Size(x)
  {
    if i == 0 then 0.0 else CpCondensed(x, sol, i - 1) + Times(H0(x, x.cond[i - 1]), sol[|x.el| + i - 1])
  }

  /** sum over gas species q < k of n_q H_q^2 */
  function GasEnthalpySq(x: Mix, k: nat): real
    requires MixOk(x) && k <= |x.gas|
  {
    if k == 0 then 0.0
    else
      var h := H0(x, x.gas[k - 1]);
      GasEnthalpySq(x, k - 1) + Times(x.gasN[k - 1], Times(h, h))
  }

  /** sum over condensed species q < k of n_q H_q^2 */
  function CondEnthalpySq(x: Mix, k: nat): real
    requires MixOk(x) && k <= |x.cond|
  {
    if k == 0 then 0.0
    else
      var h := H0(x, x.cond[k - 1]);
      CondEnthalpySq(x, k - 1) + Times(x.condN[k - 1], Times(h, h))
  }

  /** Cp/R of the reacting mixture for the solution sol of the temperature system: the element,
      condensed and ln n terms, the frozen Cp0/R of the mixture (cp0mix) and the n H^2 sums of
      both states. */
  function SpecificHeat(x: Mix, sol: seq<real>, cp0mix: real): real
    requires MixOk(x) && |sol| >= Size(x)
  {
    CpElements(x, sol, |x.el|) + CpCondensed(x, sol, |x.cond|)
    + Times(GasEnthalpy(x, |x.gas|), sol[|x.el| + |x.cond|])
    + cp0mix + GasEnthalpySq(x, |x.gas|) + CondEnthalpySq(x, |x.cond|)
  }

  /** With a zero solution only the frozen part is left: Cp0/R plus the n H^2 sums. */
  lemma {:induction false} SpecificHeatAtRest(x: Mix, sol: seq<real>, cp0mix: real)
    requires MixOk(x) && |sol| >= Size(x)
    requires forall i :: 0 <= i < |sol| ==> sol[i] == 0.0
    ensures SpecificHeat(x, sol, cp0mix) == cp0mix + GasEnthalpySq(x, |x.gas|) + CondEnthalpySq(x, |x.cond|)
  {
    CpElementsZero(x, sol, |x.el|);
    CpCondensedZero(x, sol, |x.cond|);
  }

  lemma {:induction false} CpElementsZero(x: Mix, sol: seq<real>, i: nat)
    requires MixOk(x) && i <= |x.el| && |sol| >= Size(x)
    requires forall k :: 0 <= k < |sol| ==> sol[k] == 0.0
    ensures CpElements(x, sol, i) == 0.0
  {
    if i > 0 {
      CpElementsZero(x, sol, i - 1);
    }
  }

  lemma {:induction false} CpCondensedZero(x: Mix, sol: seq<real>, i: nat)
    requires MixOk(x) && i <= |x.cond| && |sol| >= Size(x)
    requires forall k :: 0 <= k < |sol| ==> sol[k] == 0.0
    ensures CpCondensed(x, sol, i) == 0.0
  {
    if i > 0 {
      CpCondensedZero(x, sol, i - 1);
    }
  }

  /** `mixture_specific_heat`: its six accumulations, in the order of the source. */
  method MixtureSpecificHeat(x: Mix, sol: seq<real>, cp0mix: real) returns (cp: real)
    requires MixOk(x) && |sol| >= Size(x)
    ensures cp == SpecificHeat(x, sol, cp0mix)
  {
    var E, C := |x.el|, |x.cond|;
    cp := 0.0;
    for i := 0 to E
      invariant cp == CpElements(x, sol, i)
    {
      var tmp := GasEnthalpyAtoms(x, i);
      cp := cp + Times(tmp, sol[i]);
    }
    for i := 0 to C
      invariant cp == CpElements(x, sol, E) + CpCondensed(x, sol, i)
    {
      cp := cp + Times(H0(x, x.cond[i]), sol[i + E]);
    }
    var tmp := GasEnthalpySum(x);
    cp := cp + Times(tmp, sol[E + C]);
    cp := cp + cp0mix;
    assert cp == CpElements(x, sol, E) + CpCondensed(x, sol, C) + Times(GasEnthalpy(x, |x.gas|), sol[E + C]) + cp0mix;
    cp := AddEnthalpySquares(x, cp);
  }

  /** sum over gas j of n_j H_j, the third loop of `mixture_specific_heat` */
  method GasEnthalpySum(x: Mix) returns (tmp: real)
    requires MixOk(x)
    ensures tmp == GasEnthalpy(x, |x.gas|)
  {
    tmp := 0.0;
    for i := 0 to |x.gas|
      invariant tmp == GasEnthalpy(x, i)
    {
      tmp := tmp + Times(x.gasN[i], H0(x, x.gas[i]));
    }
  }

  /** The last two loops of `mixture_specific_heat`: adds n_j H_j^2 over the gases, then over
      the active condensed species, to cp. */
  method AddEnthalpySquares(x: Mix, cp: real) returns (cp': real)
    requires MixOk(x)
    ensures cp' == cp + GasEnthalpySq(x, |x.gas|) + CondEnthalpySq(x, |x.cond|)
  {
    cp' := cp;
    for i := 0 to |x.gas|
      invariant cp' == cp + GasEnthalpySq(x, i)
    {
      var h := H0(x, x.gas[i]);
      cp' := cp' + Times(x.gasN[i], Times(h, h));
    }
    ghost var mid := cp';
    for i := 0 to |x.cond|
      invariant cp' == mid + CondEnthalpySq(x, i)
    {
      var h := H0(x, x.cond[i]);
      cp' := cp' + Times(x.condN[i], Times(h, h));
    }
  }

  /** sum over gas j of a(i, j) n_j H_j, the inner loop of the element terms */
  method GasEnthalpyAtoms(x: Mix, i: nat) returns (tmp: real)
    requires MixOk(x) && i < |x.el|
    ensures tmp == ElemEnthalpy(x, i, |x.gas|)
  {
    tmp := 0.0;
    for j := 0 to |x.gas|
      invariant tmp == ElemEnthalpy(x, i, j)
    {
      tmp := tmp + Times(Weigh(x.gasN[j], Atoms(x, i, x.gas[j])), H0(x, x.gas[j]));
    }
  }

  // ---------------------------------------------------------------- derivative

  /** deriv_t: the derivatives of ln V, the specific heats, their ratio and the isentropic
      exponent. */
  class Deriv {
    var delLnVLnT: real
    var delLnVLnP: real
    var cp: real
    var cv: real
    var cpCv: real
    var isex: real

    /** The stores of `derivative`: Cp = R Cp/R and d ln V / d ln T when the temperature system
        was solved, d ln V / d ln P when the pressure system was; then, from whatever the fields
        hold, Cv = Cp + n R (d ln V / d ln T)^2 / (d ln V / d ln P), Cp/Cv and the isentropic
        exponent -(Cp/Cv) / (d ln V / d ln P). */
    method Store(okT: bool, cpR: real, dT: real, okP: bool, dP: real, n: real)
      modifies this
      ensures okT ==> cp == Times(cpR, R) && delLnVLnT == dT
      ensures !okT ==> cp == old(cp) && delLnVLnT == old(delLnVLnT)
      ensures okP ==> delLnVLnP == dP
      ensures !okP ==> delLnVLnP == old(delLnVLnP)
      ensures cv == cp + Quot(Times(Times(n, R), Times(delLnVLnT, delLnVLnT)), delLnVLnP)
      ensures cpCv == Quot(cp, cv) && isex == -Quot(cpCv, delLnVLnP)
    {
      if okT {
        cp, delLnVLnT := Times(cpR, R), dT;
      }
      if okP {
        delLnVLnP := dP;
      }
      cv := cp + Quot(Times(Times(n, R), Times(delLnVLnT, delLnVLnT)), delLnVLnP);
      cpCv := Quot(cp, cv);
      isex := -Quot(cpCv, delLnVLnP);
    }
  }

  /** The first solve of `derivative`: the temperature system, filled over storage that held
      init, solved; on success also Cp/R of the mixture and d ln V / d ln T. */
  method TemperatureStep(x: Mix, cp0mix: real, matrix: array2<real>, sol: array<real>, ghost init: (int, int) -> real)
      returns (ok: bool, cp: real, dV: real, ghost solT: seq<real>)
    requires MixOk(x) && matrix.Length0 == Size(x) && matrix.Length1 == Size(x) + 1 && sol.Length == Size(x)
    requires System(matrix, Size(x)) == Built(x, Temperature, init)
    modifies sol
    ensures ok <==> PivotsNonzero(Built(x, Temperature, init), Size(x), Size(x))
    ensures ok ==> solT == XVec(Built(x, Temperature, init), Size(x)) && Solves(Built(x, Temperature, init), Size(x), solT)
    ensures ok ==> |solT| == Size(x) && cp == SpecificHeat(x, solT, cp0mix) && dV == 1.0 + solT[|x.el| + |x.cond|]
  {
    cp, dV := 0.0, 0.0;
    var r := Lu(matrix, sol, Size(x));
    ok := r != -1;
    var v := sol[..];
    assert v == sol[..Size(x)];
    solT := v;
    if ok {
      cp := MixtureSpecificHeat(x, v, cp0mix);
      dV := 1.0 + v[Size(x) - 1];
    }
  }

  /** The second solve of `derivative`: the pressure system, filled over the storage of the
      first (which held init before it), solved; on success also d ln V / d ln P. */
  method PressureStep(x: Mix, matrix: array2<real>, sol: array<real>, ghost init: (int, int) -> real)
      returns (ok: bool, dV: real, ghost solP: seq<real>)
    requires MixOk(x) && matrix.Length0 == Size(x) && matrix.Length1 == Size(x) + 1 && sol.Length == Size(x)
    requires forall r, c :: 0 <= r < Size(x) && 0 <= c <= Size(x) ==> matrix[r, c] == DerivCell(x, Temperature, r, c, init(r, c))
    modifies matrix, sol
    ensures ok <==> PivotsNonzero(Built(x, Pressure, init), Size(x), Size(x))
    ensures ok ==> solP == XVec(Built(x, Pressure, init), Size(x)) && Solves(Built(x, Pressure, init), Size(x), solP)
    ensures ok ==> |solP| == Size(x) && dV == solP[|x.el| + |x.cond|] - 1.0
  {
    FillPressureDerivative(matrix, x);
    forall r, c | 0 <= r < Size(x) && 0 <= c <= Size(x)
      ensures matrix[r, c] == DerivCell(x, Pressure, r, c, init(r, c))
    {
      Refill(x, Temperature, Pressure, r, c, init(r, c));
    }
    SystemIsBuilt(matrix, x, Pressure, init);
    dV := 0.0;
    var r := Lu(matrix, sol, Size(x));
    ok := r != -1;
    var v := sol[..];
    assert v == sol[..Size(x)];
    solP := v;
    if ok {
      dV := v[Size(x) - 1] - 1.0;
    }
  }

  /** The two systems of `derivative` over one matrix whose rows `malloc` gives with contents
      init, filled and solved in turn (the solution vector is `calloc`ed). */
  method Systems(x: Mix, cp0mix: real, init: (int, int) -> real)
      returns (okT: bool, cp: real, dT: real, ghost solT: seq<real>, okP: bool, dP: real, ghost solP: seq<real>)
    requires MixOk(x)
    ensures okT <==> PivotsNonzero(Built(x, Temperature, init), Size(x), Size(x))
    ensures okT ==> solT == XVec(Built(x, Temperature, init), Size(x)) && Solves(Built(x, Temperature, init), Size(x), solT)
    ensures okT ==> |solT| == Size(x) && cp == SpecificHeat(x, solT, cp0mix) && dT == 1.0 + solT[|x.el| + |x.cond|]
    ensures okP <==> PivotsNonzero(Built(x, Pressure, init), Size(x), Size(x))
    ensures okP ==> solP == XVec(Built(x, Pressure, init), Size(x)) && Solves(Built(x, Pressure, init), Size(x), solP)
    ensures okP ==> |solP| == Size(x) && dP == solP[|x.el| + |x.cond|] - 1.0
  {
    var size := Size(x);
    var matrix := new real[size, size + 1]((r, c) => init(r, c));
    var sol := new real[size](_ => 0.0);
    FillTemperatureDerivative(matrix, x);
    SystemIsBuilt(matrix, x, Temperature, init);
    okT, cp, dT, solT := TemperatureStep(x, cp0mix, matrix, sol, init);
    okP, dP, solP := PressureStep(x, matrix, sol, init);
  }

  /** `derivative`: fills and solves the temperature system, and on success sets Cp = R Cp/R and
      d ln V / d ln T = 1 + the ln n unknown; then fills and solves the pressure system and on
      success sets d ln V / d ln P = the ln n unknown - 1; Cv, Cp/Cv and the isentropic exponent
      follow whatever the outcome. The matrix rows come from `malloc`, so the storage's prior
      contents init enter the systems at the cells no fill writes (see GapBreaksSymmetry); with
      those cells 0 the systems are those of zeroed storage (GapOnly, BuiltSymmetric). */
  method Derivative(x: Mix, d: Deriv, cp0mix: real, init: (int, int) -> real)
      returns (okT: bool, okP: bool, ghost solT: seq<real>, ghost solP: seq<real>)
    requires MixOk(x)
    modifies d
    ensures okT <==> PivotsNonzero(Built(x, Temperature, init), Size(x), Size(x))
    ensures okT ==> solT == XVec(Built(x, Temperature, init), Size(x)) && Solves(Built(x, Temperature, init), Size(x), solT)
    ensures okT ==> d.cp == Times(SpecificHeat(x, solT, cp0mix), R) && d.delLnVLnT == 1.0 + solT[|x.el| + |x.cond|]
    ensures !okT ==> d.cp == old(d.cp) && d.delLnVLnT == old(d.delLnVLnT)
    ensures okP <==> PivotsNonzero(Built(x, Pressure, init), Size(x), Size(x))
    ensures okP ==> solP == XVec(Built(x, Pressure, init), Size(x)) && Solves(Built(x, Pressure, init), Size(x), solP)
    ensures okP ==> d.delLnVLnP == solP[|x.el| + |x.cond|] - 1.0
    ensures !okP ==> d.delLnVLnP == old(d.delLnVLnP)
    ensures d.cv == d.cp + Quot(Times(Times(x.n, R), Times(d.delLnVLnT, d.delLnVLnT)), d.delLnVLnP)
    ensures d.cpCv == Quot(d.cp, d.cv) && d.isex == -Quot(d.cpCv, d.delLnVLnP)
  {
    var cp, dT, dP;
    okT, cp, dT, solT, okP, dP, solP := Systems(x, cp0mix, init);
    d.Store(okT, cp, dT, okP, dP, x.n);
  }
}
