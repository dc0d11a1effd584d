/** performance.c: the helpers of the rocket performance computation. The product entropy and
    enthalpy of the current composition (`product_entropy`, `product_enthalpy`) are given as
    functions of the state they read, and `exp(log(t) + d)` as a given function `relog`. */
module Performance {
  import opened Numeric
  import opened Species
  import opened Equilibrium

  /** TEMP_ITERATION_MAX */
  const TempIterationMax: nat := 8
  /** The step below which `compute_temperature` stops. */
  const TempTolerance: real := 0.00005

  // ---------------------------------------------------------------- the exit state helpers

  /** `product_entropy_exit`: the product entropy with T and P set to temp and pressure, both put
      back afterwards. */
  method ProductEntropyExit(e: Equilibrium, entropy: (real, real) -> real, pressure: real, temp: real) returns (ent: real)
    modifies e
    ensures ent == entropy(temp, pressure)
    ensures e.T == old(e.T) && e.P == old(e.P) && e.n == old(e.n) && e.nElement == old(e.nElement)
  {
    var t := e.T;
    var p := e.P;
    e.T := temp;
    e.P := pressure;
    ent := entropy(e.T, e.P);
    e.T := t;
    e.P := p;
  }

  /** `product_enthalpy_exit`: the product enthalpy with T set to temp, put back afterwards; P is
      never written. */
  method ProductEnthalpyExit(e: Equilibrium, enthalpy: real -> real, temp: real) returns (enth: real)
    modifies e
    ensures enth == enthalpy(temp)
    ensures e.T == old(e.T) && e.P == old(e.P) && e.n == old(e.n) && e.nElement == old(e.nElement)
  {
    var t := e.T;
    e.T := temp;
    enth := enthalpy(e.T);
    e.T := t;
  }

  // ---------------------------------------------------------------- product_specific_heat

  /** The active species of a product and their amounts, state by state. */
  datatype Frozen = Frozen(gas: seq<int>, gasN: seq<real>, cond: seq<int>, condN: seq<real>)

  predicate FrozenOk(f: Frozen) {
    |f.gasN| == |f.gas| && |f.condN| == |f.cond|
  }

  /** The active part of the product buffers. */
  ghost function Snapshot(p: Product): (f: Frozen)
    reads p, p.species, p.coef
    requires p.Valid()
    ensures FrozenOk(f)
  {
    Frozen(p.Ids(0)[..p.n[0]], p.Amounts(0)[..p.n[0]], p.Ids(1)[..p.n[1]], p.Amounts(1)[..p.n[1]])
  }

  /** sum over i < k of am[i] Cp0(ids[i], temp) */
  function HeatSum(fns: ThermoFns, ids: seq<int>, am: seq<real>, k: nat, temp: real): real
    requires |am| == |ids| && k <= |ids|
  {
    if k == 0 then 0.0 else HeatSum(fns, ids, am, k - 1, temp) + Times(am[k - 1], fns.cp0(ids[k - 1], temp))
  }

  /** The frozen Cp/R of the product at temp: both states summed. */
  function FrozenCp(fns: ThermoFns, f: Frozen, temp: real): real
    requires FrozenOk(f)
  {
    HeatSum(fns, f.gas, f.gasN, |f.gas|, temp) + HeatSum(fns, f.cond, f.condN, |f.cond|, temp)
  }

  /** With nonnegative amounts and species heats the sum is nonnegative. */
  lemma {:induction false} HeatSumNonnegative(fns: ThermoFns, ids: seq<int>, am: seq<real>, k: nat, temp: real)
    requires |am| == |ids| && k <= |ids|
    requires forall i :: 0 <= i < |ids| ==> am[i] >= 0.0 && fns.cp0(ids[i], temp) >= 0.0
    ensures HeatSum(fns, ids, am, k, temp) >= 0.0
  {
    if k > 0 {
      HeatSumNonnegative(fns, ids, am, k - 1, temp);
      var a, c := am[k - 1], fns.cp0(ids[k - 1], temp);
      assert a * c >= 0.0;
    }
  }

  /** The sum over two lists is the sum over the first plus the sum over the second: the two
      state loops compute the sum over all active species. */
  lemma {:induction false} HeatSumConcat(fns: ThermoFns, ids: seq<int>, am: seq<real>, ids': seq<int>, am': seq<real>, k: nat, temp: real)
    requires |am| == |ids| && |am'| == |ids'| && k <= |ids'|
    ensures HeatSum(fns, ids + ids', am + am', |ids| + k, temp)
         == HeatSum(fns, ids, am, |ids|, temp) + HeatSum(fns, ids', am', k, temp)
  {
    if k == 0 {
      HeatSumPrefix(fns, ids, am, ids + ids', am + am', |ids|, temp);
    } else {
      HeatSumConcat(fns, ids, am, ids', am', k - 1, temp);
      assert (ids + ids')[|ids| + k - 1] == ids'[k - 1];
      assert (am + am')[|ids| + k - 1] == am'[k - 1];
    }
  }

  /** The sum over the first k entries depends on those entries only. */
  lemma {:induction false} HeatSumPrefix(fns: ThermoFns, ids: seq<int>, am: seq<real>, ids': seq<int>, am': seq<real>, k: nat, temp: real)
    requires |am| == |ids| && |am'| == |ids'| && k <= |ids| && k <= |ids'|
    requires ids[..k] == ids'[..k] && am[..k] == am'[..k]
    ensures HeatSum(fns, ids, am, k, temp) == HeatSum(fns, ids', am', k, temp)
  {
    if k > 0 {
      assert ids[..k - 1] == ids[..k][..k - 1] && ids'[..k - 1] == ids'[..k][..k - 1];
      assert am[..k - 1] == am[..k][..k - 1] && am'[..k - 1] == am'[..k][..k - 1];
      HeatSumPrefix(fns, ids, am, ids', am', k - 1, temp);
      assert ids[k - 1] == ids[..k][k - 1] && ids'[k - 1] == ids'[..k][k - 1];
      assert am[k - 1] == am[..k][k - 1] && am'[k - 1] == am'[..k][k - 1];
    }
  }

  /** The frozen Cp/R is the one sum over the gas species followed by the condensed ones. */
  lemma FrozenCpIsOneSum(fns: ThermoFns, f: Frozen, temp: real)
    requires FrozenOk(f)
    ensures FrozenCp(fns, f, temp) == HeatSum(fns, f.gas + f.cond, f.gasN + f.condN, |f.gas| + |f.cond|, temp)
  {
    HeatSumConcat(fns, f.gas, f.gasN, f.cond, f.condN, |f.cond|, temp);
  }

  /** One state loop of `product_specific_heat`. */
  method StateHeat(p: Product, fns: ThermoFns, st: nat, temp: real) returns (cp: real)
    requires p.Valid() && st < StateLast
    ensures cp == HeatSum(fns, p.Ids(st)[..p.n[st]], p.Amounts(st)[..p.n[st]], p.n[st], temp)
  {
    ghost var ids, am := p.Ids(st)[..p.n[st]], p.Amounts(st)[..p.n[st]];
    cp := 0.0;
    for i := 0 to p.n[st]
      invariant cp == HeatSum(fns, ids, am, i, temp)
    {
      assert ids[i] == p.species[st, i] && am[i] == p.coef[st, i];
      cp := cp + Times(p.coef[st, i], fns.cp0(p.species[st, i], temp));
    }
  }

  /** `product_specific_heat`: the frozen Cp/R of the product at temp, not at e->T. */
  method ProductSpecificHeat(e: Equilibrium, fns: ThermoFns, temp: real) returns (cp: real)
    requires e.p.Valid()
    ensures cp == FrozenCp(fns, Snapshot(e.p), temp)
  {
    var gas := StateHeat(e.p, fns, 0, temp);
    var cond := StateHeat(e.p, fns, 1, temp);
    cp := gas + cond;
  }

  // ---------------------------------------------------------------- compute_temperature

  /** What `compute_temperature` reads: the thermo functions, the product, the entropy function,
      exp(log t + d), the chamber entropy and the exit pressure. */
  datatype Expansion = Expansion(fns: ThermoFns, f: Frozen, entropy: (real, real) -> real,
                                 relog: (real, real) -> real, chamber: real, pressure: real)

  /** delta ln T at temperature t: the entropy still to lose over the frozen Cp/R at t. */
  function Delta(x: Expansion, t: real): real
    requires FrozenOk(x.f)
  {
    Quot(x.chamber - x.entropy(t, x.pressure), FrozenCp(x.fns, x.f, t))
  }

  /** The temperature after k updates from t0. */
  function Temps(x: Expansion, t0: real, k: nat): real
    requires FrozenOk(x.f)
  {
    if k == 0 then t0
    else
      var t := Temps(x, t0, k - 1);
      x.relog(t, Delta(x, t))
  }

  /** The number of updates the loop makes when i have been made: it goes on while the last step
      was at least the tolerance and fewer than TEMP_ITERATION_MAX were made. */
  function Updates(x: Expansion, t0: real, i: nat): nat
    requires FrozenOk(x.f) && 1 <= i <= TempIterationMax
    decreases TempIterationMax - i
  {
    if Abs(Delta(x, Temps(x, t0, i - 1))) >= TempTolerance && i < TempIterationMax then Updates(x, t0, i + 1) else i
  }

  /** The loop makes between 1 and TEMP_ITERATION_MAX updates; every update before the last had
      a step of at least the tolerance, and it stops early only on a step below it. */
  lemma {:induction false} UpdatesFacts(x: Expansion, t0: real, i: nat)
    requires FrozenOk(x.f) && 1 <= i <= TempIterationMax
    ensures i <= Updates(x, t0, i) <= TempIterationMax
    ensures forall k: nat :: i - 1 <= k < Updates(x, t0, i) - 1 ==> Abs(Delta(x, Temps(x, t0, k))) >= TempTolerance
    ensures Updates(x, t0, i) < TempIterationMax ==> Abs(Delta(x, Temps(x, t0, Updates(x, t0, i) - 1))) < TempTolerance
    decreases TempIterationMax - i
  {
    if Abs(Delta(x, Temps(x, t0, i - 1))) >= TempTolerance && i < TempIterationMax {
      UpdatesFacts(x, t0, i + 1);
    }
  }

  /** A start with no entropy left to lose is kept, after exactly one update. */
  lemma FixedStart(x: Expansion, t0: real)
    requires FrozenOk(x.f)
    requires x.entropy(t0, x.pressure) == x.chamber && x.relog(t0, 0.0) == t0
    ensures Updates(x, t0, 1) == 1 && Temps(x, t0, 1) == t0
  {
    assert Delta(x, t0) == 0.0;
  }

  /** One update of the loop. */
  method Update(e: Equilibrium, fns: ThermoFns, entropy: (real, real) -> real, relog: (real, real) -> real,
                chamber: real, pressure: real, temperature: real, ghost x: Expansion) returns (delta: real, next: real)
    requires e.p.Valid() && x == Expansion(fns, Snapshot(e.p), entropy, relog, chamber, pressure)
    modifies e
    ensures delta == Delta(x, temperature) && next == relog(temperature, delta)
    ensures e.T == old(e.T) && e.P == old(e.P) && e.n == old(e.n) && e.nElement == old(e.nElement)
  {
    var ent := ProductEntropyExit(e, entropy, pressure, temperature);
    var cp := ProductSpecificHeat(e, fns, temperature);
    delta := Quot(chamber - ent, cp);
    next := relog(temperature, delta);
  }

  /** `compute_temperature`: from e->T, at least one and at most TEMP_ITERATION_MAX updates
      t := exp(log t + delta), stopping after the first whose |delta| is below the tolerance;
      the chamber entropy is computed once, before the loop. */
  method ComputeTemperature(e: Equilibrium, fns: ThermoFns, entropy: (real, real) -> real, relog: (real, real) -> real,
                            pressure: real) returns (temperature: real, ghost count: nat)
    requires e.p.Valid()
    modifies e
    ensures var x := Expansion(fns, Snapshot(e.p), entropy, relog, entropy(old(e.T), old(e.P)), pressure);
      count == Updates(x, old(e.T), 1) && temperature == Temps(x, old(e.T), count)
    ensures e.T == old(e.T) && e.P == old(e.P) && e.n == old(e.n) && e.nElement == old(e.nElement)
  {
    temperature := e.T;
    var chamber := entropy(e.T, e.P);
    ghost var x := Expansion(fns, Snapshot(e.p), entropy, relog, chamber, pressure);
    ghost var t0 := e.T;
    var delta;
    delta, temperature := Update(e, fns, entropy, relog, chamber, pressure, temperature, x);
    var i := 1;
    while Abs(delta) >= TempTolerance && i < TempIterationMax
      invariant 1 <= i <= TempIterationMax
      invariant e.T == t0 && e.P == old(e.P) && e.n == old(e.n) && e.nElement == old(e.nElement)
      invariant x.f == Snapshot(e.p)
      invariant temperature == Temps(x, t0, i) && delta == Delta(x, Temps(x, t0, i - 1))
      invariant Updates(x, t0, 1) == Updates(x, t0, i)
      decreases TempIterationMax - i
    {
      delta, temperature := Update(e, fns, entropy, relog, chamber, pressure, temperature, x);
      i := i + 1;
    }
    count := i;
  }

  // ---------------------------------------------------------------- frozen_performance

  /** The first ratio of specific heats of `frozen_performance`: Cp = R Cp/R at e->T and
      Cp/Cv = Cp / (Cp - n R). */
  method FrozenRatio(e: Equilibrium, fns: ThermoFns) returns (cp: real, cpCv: real)
    requires e.p.Valid()
    ensures cp == Times(FrozenCp(fns, Snapshot(e.p), e.T), R)
    ensures cpCv == Quot(cp, cp - Times(e.n, R))
  {
    var c := ProductSpecificHeat(e, fns, e.T);
    cp := Times(c, R);
    cpCv := Quot(cp, cp - Times(e.n, R));
  }

  /** When Cp exceeds n R > 0 the ratio exceeds 1, and it is Cp/Cv with Cv = Cp - n R. */
  lemma RatioAboveOne(cp: real, nr: real)
    requires 0.0 < nr < cp
    ensures Quot(cp, cp - nr) > 1.0
    ensures Quot(cp, cp - nr) * (cp - nr) == cp
  {
    var q, d := Quot(cp, cp - nr), cp - nr;
    assert q * d == cp;
    assert (q - 1.0) * d == nr;
    if q <= 1.0 {
      assert false;
    }
  }
}
