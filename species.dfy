/** The records of the two databases (thermo_t and propellant_t of equilibrium.h), the fixed
    capacities of the program, and the read-only lookups of equilibrium.c over single records:
    `temperature_check`, `product_element_coef`, `propellant_element_coef` and `thermo_search`.
    Strings are the characters before the terminating NUL. */
module Species {

  /** state_t: GAS = 0, CONDENSED = 1, STATE_LAST = 2. */
  datatype State = Gas | Condensed

  function StateIndex(s: State): (k: nat)
    ensures k < StateLast
    ensures s == Gas <==> k == 0
  {
    match s
    case Gas => 0
    case Condensed => 1
  }

  const StateLast: nat := 2
  /** The gas constant R in J/(mol K), a float in the source. */
  const R: real := 8.3143
  /** Rows of the thermo database and of the propellant database. */
  const MaxThermo: nat := 1729
  const MaxPropellant: nat := 1030
  /** Components of a propellant composition. */
  const MaxComp: nat := 20
  /** Entries of the element symbol table. */
  const NSymb: nat := 102
  /** Species slots per state in a product (`initialize_product`). */
  const ProductSlots: nat := 300
  /** Slots of the element list of an equilibrium (`initialize_equilibrium`). */
  const ElementSlots: nat := 100

  /** One species of the thermo database: 5 (element, atom count) pairs, 4 temperature intervals
      with their polynomial data, and the heat data. float and long double fields are reals. */
  datatype ThermoRec = ThermoRec(
    name: seq<char>, comments: seq<char>, nint: int, id: seq<char>,
    elem: seq<int>, coef: seq<int>, state: State,
    weight: real, heat: real, dho: real,
    range: seq<(real, real)>, ncoef: seq<int>, ex: seq<seq<int>>, param: seq<seq<real>>,
    temp: real, enth: real)

  ghost predicate ThermoShape(t: ThermoRec) {
    && |t.elem| == 5 && |t.coef| == 5 && |t.range| == 4 && |t.ncoef| == 4
    && |t.ex| == 4 && (forall j :: 0 <= j < 4 ==> |t.ex[j]| == 8)
    && |t.param| == 4 && (forall j :: 0 <= j < 4 ==> |t.param[j]| == 9)
  }

  type Thermo = t: ThermoRec | ThermoShape(t)
    witness ThermoRec([], [], 0, [], [0, 0, 0, 0, 0], [0, 0, 0, 0, 0], Gas, 0.0, 0.0, 0.0,
                      [(0.0, 0.0), (0.0, 0.0), (0.0, 0.0), (0.0, 0.0)], [0, 0, 0, 0],
                      [[0, 0, 0, 0, 0, 0, 0, 0], [0, 0, 0, 0, 0, 0, 0, 0], [0, 0, 0, 0, 0, 0, 0, 0], [0, 0, 0, 0, 0, 0, 0, 0]],
                      [[0.0, 0.0, 0.0, 0.0, 0.0, 0.0, 0.0, 0.0, 0.0], [0.0, 0.0, 0.0, 0.0, 0.0, 0.0, 0.0, 0.0, 0.0],
                       [0.0, 0.0, 0.0, 0.0, 0.0, 0.0, 0.0, 0.0, 0.0], [0.0, 0.0, 0.0, 0.0, 0.0, 0.0, 0.0, 0.0, 0.0]],
                      0.0, 0.0)

  /** One propellant of the propellant database: 6 (element, atom count) pairs. */
  datatype PropellantRec = PropellantRec(name: seq<char>, elem: seq<int>, coef: seq<int>, heat: int, density: real)

  type Propellant = p: PropellantRec | |p.elem| == 6 && |p.coef| == 6
    witness PropellantRec([], [0, 0, 0, 0, 0, 0], [0, 0, 0, 0, 0, 0], 0, 0.0)

  // ---------------------------------------------------------------- temperature_check

  /** T lies in one of the half-open intervals range[i], i <= k < |range|, checked in turn. */
  predicate InSomeRange(range: seq<(real, real)>, T: real, k: nat)
    requires k <= |range|
    decreases |range| - k
  {
    if k == |range| then false
    else if range[k].0 <= T < range[k].1 then true
    else InSomeRange(range, T, k + 1)
  }

  /** The scan from k succeeds exactly when one of the intervals from k on holds T. */
  lemma {:induction false} InSomeRangeFacts(range: seq<(real, real)>, T: real, k: nat)
    requires k <= |range|
    ensures InSomeRange(range, T, k) <==> exists i :: k <= i < |range| && range[i].0 <= T < range[i].1
    decreases |range| - k
  {
    if k < |range| {
      InSomeRangeFacts(range, T, k + 1);
    }
  }

  /** `temperature_check`: all four intervals are checked, whatever the species' `nint` says. */
  predicate TemperatureCheck(s: Thermo, T: real) {
    InSomeRange(s.range, T, 0)
  }

  /** A species exists at T exactly when one of its four intervals holds T. */
  lemma TemperatureCheckFacts(s: Thermo, T: real)
    ensures TemperatureCheck(s, T) <==> exists i :: 0 <= i < 4 && s.range[i].0 <= T < s.range[i].1
  {
    InSomeRangeFacts(s.range, T, 0);
  }

  // ---------------------------------------------------------------- element coefficients

  /** The coefficient paired with the first slot from k on whose element is `element`, else 0. */
  function Lookup(elem: seq<int>, coef: seq<int>, element: int, k: nat): int
    requires |elem| == |coef| && k <= |elem|
    decreases |elem| - k
  {
    if k == |elem| then 0
    else if elem[k] == element then coef[k]
    else Lookup(elem, coef, element, k + 1)
  }

  /** Lookup finds the first slot from k on that holds the element, and gives 0 when none does. */
  lemma {:induction false} LookupFacts(elem: seq<int>, coef: seq<int>, element: int, k: nat)
    requires |elem| == |coef| && k <= |elem|
    ensures (forall i :: k <= i < |elem| ==> elem[i] != element) ==> Lookup(elem, coef, element, k) == 0
    ensures forall i :: k <= i < |elem| && elem[i] == element && (forall m :: k <= m < i ==> elem[m] != element) ==>
              Lookup(elem, coef, element, k) == coef[i]
    decreases |elem| - k
  {
    if k < |elem| && elem[k] != element {
      LookupFacts(elem, coef, element, k + 1);
    }
  }

  /** `product_element_coef`: atoms of `element` in a thermo species (first of its 5 slots). */
  function ProductElementCoef(element: int, s: Thermo): int {
    Lookup(s.elem, s.coef, element, 0)
  }

  /** The atoms of `element` in s are the coefficient of the first slot holding it, and 0 when no
      slot holds it. */
  lemma ProductElementCoefFacts(element: int, s: Thermo)
    ensures (forall i :: 0 <= i < 5 ==> s.elem[i] != element) ==> ProductElementCoef(element, s) == 0
    ensures forall i :: 0 <= i < 5 && s.elem[i] == element && (forall m :: 0 <= m < i ==> s.elem[m] != element) ==>
              ProductElementCoef(element, s) == s.coef[i]
  {
    LookupFacts(s.elem, s.coef, element, 0);
  }

  /** `propellant_element_coef`: atoms of `element` in a propellant (first of its 6 slots). */
  function PropellantElementCoef(element: int, p: Propellant): int {
    Lookup(p.elem, p.coef, element, 0)
  }

  /** The atoms of `element` in p are the coefficient of the first slot holding it, and 0 when no
      slot holds it. */
  lemma PropellantElementCoefFacts(element: int, p: Propellant)
    ensures (forall i :: 0 <= i < 6 ==> p.elem[i] != element) ==> PropellantElementCoef(element, p) == 0
    ensures forall i :: 0 <= i < 6 && p.elem[i] == element && (forall m :: 0 <= m < i ==> p.elem[m] != element) ==>
              PropellantElementCoef(element, p) == p.coef[i]
  {
    LookupFacts(p.elem, p.coef, element, 0);
  }

  /** A nonzero coefficient is always found at a slot holding the element. */
  lemma {:induction false} LookupNonzero(elem: seq<int>, coef: seq<int>, element: int, k: nat)
    requires |elem| == |coef| && k <= |elem|
    requires Lookup(elem, coef, element, k) != 0
    ensures exists i :: k <= i < |elem| && elem[i] == element && coef[i] == Lookup(elem, coef, element, k)
    decreases |elem| - k
  {
    if elem[k] != element {
      LookupNonzero(elem, coef, element, k + 1);
    }
  }

  // ---------------------------------------------------------------- thermo_search

  /** `strncmp(str, name, strlen(str)) == 0`: str is a prefix of name. */
  predicate IsPrefix(str: seq<char>, name: seq<char>) {
    |str| <= |name| && name[..|str|] == str
  }

  /** The first index from k on whose name starts with str, or -1. */
  function SearchFrom(db: seq<Thermo>, str: seq<char>, k: nat): (i: int)
    requires k <= |db|
    ensures i == -1 || k <= i < |db|
    ensures i >= 0 ==> IsPrefix(str, db[i].name) && forall j :: k <= j < i ==> !IsPrefix(str, db[j].name)
    ensures i == -1 <==> forall j :: k <= j < |db| ==> !IsPrefix(str, db[j].name)
    decreases |db| - k
  {
    if k == |db| then -1
    else if IsPrefix(str, db[k].name) then k
    else SearchFrom(db, str, k + 1)
  }

  /** `thermo_search`: the first species whose name starts with str, or -1 when there is none. */
  function ThermoSearch(db: seq<Thermo>, str: seq<char>): (i: int)
    ensures i == -1 || 0 <= i < |db|
    ensures i >= 0 ==> IsPrefix(str, db[i].name) && forall j :: 0 <= j < i ==> !IsPrefix(str, db[j].name)
    ensures i == -1 <==> forall j :: 0 <= j < |db| ==> !IsPrefix(str, db[j].name)
  {
    SearchFrom(db, str, 0)
  }

  /** The empty string is a prefix of every name, so it finds the first species. */
  lemma EmptySearch(db: seq<Thermo>)
    requires |db| > 0
    ensures ThermoSearch(db, []) == 0
  {
    assert IsPrefix([], db[0].name);
  }

  // ---------------------------------------------------------------- thermodynamic functions

  /** The float thermodynamic functions of a species: polynomial fits and logarithms evaluated
      elsewhere, taken here as given functions of the species' database index. */
  datatype ThermoFns = ThermoFns(
    /** `gibbs0(sp, T)` */
    gibbs0: (int, real) -> real,
    /** `gibbs(sp, st, nj, n, T, P)` */
    gibbs: (int, State, real, real, real, real) -> real,
    /** `enthalpy_0(sp, T)`, dimensionless */
    enthalpy0: (int, real) -> real,
    /** `specific_heat_0(sp, T)`, dimensionless */
    cp0: (int, real) -> real)
}
