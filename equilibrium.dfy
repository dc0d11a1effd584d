/** equilibrium.c: the state of an equilibrium computation (composition, product catalog,
    element list) and the bookkeeping around the Gordon-McBride iteration: `add_in_propellant`,
    `list_element`, `list_product`, `remove_condensed` and `include_condensed`. */
module Equilibrium {
  import opened Numeric
  import opened Species
  import opened Assembly

  // ---------------------------------------------------------------- the records

  /** composition_t: `ncomp` components, each a propellant index and an amount in moles. */
  class Composition {
    var ncomp: int
    const molecule: array<int>
    const coef: array<real>

    ghost predicate Valid()
      reads this
    {
      molecule.Length == MaxComp && coef.Length == MaxComp && 0 <= ncomp <= MaxComp
    }

    /** The components in order, as (propellant index, moles). */
    ghost function Components(): (cs: seq<(int, real)>)
      reads this, molecule, coef
      requires Valid()
      ensures |cs| == ncomp
    {
      Pairs(molecule[..ncomp], coef[..ncomp])
    }

    constructor ()
      ensures Valid() && ncomp == 0 && fresh(molecule) && fresh(coef)
    {
      ncomp := 0;
      molecule := new int[MaxComp](_ => 0);
      coef := new real[MaxComp](_ => 0.0);
    }
  }

  /** The pairs (ms[k], cs[k]) of two sequences of equal length. */
  function Pairs(ms: seq<int>, cs: seq<real>): (ps: seq<(int, real)>)
    requires |ms| == |cs|
    ensures |ps| == |ms| && forall k :: 0 <= k < |ms| ==> ps[k] == (ms[k], cs[k])
  {
    if ms == [] then [] else Pairs(ms[..|ms| - 1], cs[..|cs| - 1]) + [(ms[|ms| - 1], cs[|cs| - 1])]
  }

  /** product_t: for each state, `n[st]` species ids `species[st, k]` into the thermo database
      and their amounts `coef[st, k]`, in buffers of `ProductSlots` entries. */
  class Product {
    var n: seq<int>
    const species: array2<int>
    const coef: array2<real>

    ghost predicate Valid()
      reads this
    {
      && |n| == StateLast
      && species.Length0 == StateLast && species.Length1 == ProductSlots
      && coef.Length0 == StateLast && coef.Length1 == ProductSlots
      && 0 <= n[0] <= ProductSlots && 0 <= n[1] <= ProductSlots
    }

    /** `initialize_product`: no species, every id slot -1. */
    constructor ()
      ensures Valid() && fresh(species) && fresh(coef)
      ensures n[0] == 0 && n[1] == 0
      ensures forall st, k :: 0 <= st < StateLast && 0 <= k < ProductSlots ==> species[st, k] == -1
    {
      n := [0, 0];
      species := new int[StateLast, ProductSlots]((_, _) => -1);
      coef := new real[StateLast, ProductSlots]((_, _) => 0.0);
    }

    /** The id buffer of state st, all `ProductSlots` entries. */
    ghost function Ids(st: nat): (ids: seq<int>)
      reads species
      requires st < StateLast && species.Length0 == StateLast && species.Length1 == ProductSlots
      ensures |ids| == ProductSlots
    {
      seq(ProductSlots, k requires 0 <= k < ProductSlots && st < species.Length0 && ProductSlots <= species.Length1
                          reads species => species[st, k])
    }

    /** The amount buffer of state st, all `ProductSlots` entries. */
    ghost function Amounts(st: nat): (am: seq<real>)
      reads coef
      requires st < StateLast && coef.Length0 == StateLast && coef.Length1 == ProductSlots
      ensures |am| == ProductSlots && forall k :: 0 <= k < ProductSlots ==> am[k] == coef[st, k]
    {
      seq(ProductSlots, k requires 0 <= k < ProductSlots && st < coef.Length0 && ProductSlots <= coef.Length1
                          reads coef => coef[st, k])
    }

    /** The append step of `list_product`: species[st][n[st]] = j and n[st]++. */
    method Append(st: nat, j: int)
      requires Valid() && st < StateLast && n[st] < ProductSlots
      modifies this, species
      ensures Valid()
      ensures n == old(n)[st := old(n[st]) + 1]
      ensures Ids(st) == old(Ids(st))[old(n[st]) := j] && Ids(1 - st) == old(Ids(1 - st))
    {
      species[st, n[st]] := j;
      n := n[st := n[st] + 1];
    }

    /** The two amount loops of `list_product`: 0.1 / n[GAS] for every gas species, 0 for every
        condensed one. */
    method InitAmounts()
      requires Valid()
      modifies coef
      ensures forall k :: 0 <= k < n[0] ==> coef[0, k] == 0.1 / (n[0] as real)
      ensures forall k :: 0 <= k < n[1] ==> coef[1, k] == 0.0
      ensures forall st, k :: 0 <= st < StateLast && n[st] <= k < ProductSlots ==> coef[st, k] == old(coef[st, k])
    {
      var i := 0;
      while i < n[0]
        invariant 0 <= i <= n[0]
        invariant forall k :: 0 <= k < i ==> coef[0, k] == 0.1 / (n[0] as real)
        invariant forall st, k :: 0 <= st < StateLast && 0 <= k < ProductSlots && (st == 1 || k >= i) ==> coef[st, k] == old(coef[st, k])
      {
        coef[0, i] := 0.1 / (n[0] as real);
        i := i + 1;
      }
      i := 0;
      while i < n[1]
        invariant 0 <= i <= n[1]
        invariant forall k :: 0 <= k < n[0] ==> coef[0, k] == 0.1 / (n[0] as real)
        invariant forall k :: 0 <= k < i ==> coef[1, k] == 0.0
        invariant forall st, k :: 0 <= st < StateLast && n[st] <= k < ProductSlots ==> coef[st, k] == old(coef[st, k])
        invariant forall k :: i <= k < ProductSlots ==> coef[1, k] == old(coef[1, k])
      {
        coef[1, i] := 0.0;
        i := i + 1;
      }
    }

    /** The removal loop of `remove_condensed`: species[C][j] = species[C][j + 1] for i <= j < m. */
    method ShiftDown(i: nat, m: nat)
      requires Valid() && i <= m < ProductSlots
      modifies species
      ensures Ids(1) == Shift(old(Ids(1)), i, m) && Ids(0) == old(Ids(0))
    {
      ghost var ids0 := Ids(1);
      ghost var gas := Ids(0);
      var j := i;
      while j < m
        invariant i <= j <= m
        invariant forall k :: i <= k < j ==> species[1, k] == ids0[k + 1]
        invariant forall k :: (0 <= k < i || j <= k < ProductSlots) ==> species[1, k] == ids0[k]
        invariant forall k :: 0 <= k < ProductSlots ==> species[0, k] == gas[k]
      {
        species[1, j] := species[1, j + 1];
        j := j + 1;
      }
      assert Ids(1) == Shift(ids0, i, m);
      assert Ids(0) == gas;
    }

    /** The exchange of `include_condensed`: species[C][a] and species[C][b] trade places. */
    method Exchange(a: nat, b: nat)
      requires Valid() && a < ProductSlots && b < ProductSlots
      modifies species
      ensures Ids(1) == Swap(old(Ids(1)), a, b) && Ids(0) == old(Ids(0))
    {
      var pos := species[1, a];
      species[1, a] := species[1, b];
      species[1, b] := pos;
    }

    /** The species loop of `list_product` against the element list el at temperature T. */
    method ListSpecies(db: seq<Thermo>, el: seq<int>, T: real) returns (count: int)
      requires Valid()
      requires forall st :: 0 <= st < StateLast ==> n[st] + |Kept(db, el, T, st, |db|)| <= ProductSlots
      modifies this, species
      ensures Valid()
      ensures forall st :: 0 <= st < StateLast ==>
        && n[st] == old(n[st]) + |Kept(db, el, T, st, |db|)|
        && Ids(st) == Overlay(old(Ids(st)), old(n[st]), Kept(db, el, T, st, |db|))
      ensures count == |Kept(db, el, T, 0, |db|)| + |Kept(db, el, T, 1, |db|)|
    {
      ghost var g0, c0 := n[0], n[1];
      ghost var gas0, cond0 := Ids(0), Ids(1);
      count := 0;
      var j := 0;
      while j < |db|
        invariant 0 <= j <= |db| && Valid()
        invariant n[0] == g0 + |Kept(db, el, T, 0, j)| && n[1] == c0 + |Kept(db, el, T, 1, j)|
        invariant Ids(0) == Overlay(gas0, g0, Kept(db, el, T, 0, j))
        invariant Ids(1) == Overlay(cond0, c0, Kept(db, el, T, 1, j))
        invariant count == |Kept(db, el, T, 0, j)| + |Kept(db, el, T, 1, j)|
      {
        count := ListStep(db, el, T, j, count, g0, c0, gas0, cond0);
        j := j + 1;
      }
    }

    /** One pass of the species loop: the loop invariant of `ListSpecies` carried from j to j + 1. */
    method ListStep(db: seq<Thermo>, el: seq<int>, T: real, j: nat, count: int,
                    ghost g0: int, ghost c0: int, ghost gas0: seq<int>, ghost cond0: seq<int>) returns (count': int)
      requires Valid() && j < |db|
      requires g0 + |Kept(db, el, T, 0, |db|)| <= ProductSlots && c0 + |Kept(db, el, T, 1, |db|)| <= ProductSlots
      requires |gas0| == ProductSlots && |cond0| == ProductSlots && g0 >= 0 && c0 >= 0
      requires n[0] == g0 + |Kept(db, el, T, 0, j)| && n[1] == c0 + |Kept(db, el, T, 1, j)|
      requires Ids(0) == Overlay(gas0, g0, Kept(db, el, T, 0, j))
      requires Ids(1) == Overlay(cond0, c0, Kept(db, el, T, 1, j))
      requires count == |Kept(db, el, T, 0, j)| + |Kept(db, el, T, 1, j)|
      modifies this, species
      ensures Valid()
      ensures n[0] == g0 + |Kept(db, el, T, 0, j + 1)| && n[1] == c0 + |Kept(db, el, T, 1, j + 1)|
      ensures Ids(0) == Overlay(gas0, g0, Kept(db, el, T, 0, j + 1))
      ensures Ids(1) == Overlay(cond0, c0, Kept(db, el, T, 1, j + 1))
      ensures count' == |Kept(db, el, T, 0, j + 1)| + |Kept(db, el, T, 1, j + 1)|
    {
      ghost var nb, gb, cb := n, Ids(0), Ids(1);
      RoomFor(db, el, T, j, g0, c0);
      var added := ConsiderSpecies(db[j], j, el, T);
      count' := if added then count + 1 else count;
      ghost var na, ga, ca := n, Ids(0), Ids(1);
      ListStepValues(db, el, T, j, added, nb, gb, cb, na, ga, ca, g0, c0, gas0, cond0);
    }

    /** One pass of the species loop of `list_product`: database entry sp, at index j, is
        appended to the buffer of its state when it passes both tests. */
    method ConsiderSpecies(sp: Thermo, j: int, el: seq<int>, T: real) returns (added: bool)
      requires Valid()
      requires Accepts(sp, el, T) ==> n[StateIndex(sp.state)] < ProductSlots
      modifies this, species
      ensures Valid()
      ensures added == Accepts(sp, el, T)
      ensures added && sp.state == Gas ==>
        n == [old(n[0]) + 1, old(n[1])] && Ids(0) == old(Ids(0))[old(n[0]) := j] && Ids(1) == old(Ids(1))
      ensures added && sp.state == Condensed ==>
        n == [old(n[0]), old(n[1]) + 1] && Ids(1) == old(Ids(1))[old(n[1]) := j] && Ids(0) == old(Ids(0))
      ensures !added ==> n == old(n) && Ids(0) == old(Ids(0)) && Ids(1) == old(Ids(1))
    {
      var ok := CheckFormable(sp, el);
      added := ok && TemperatureCheck(sp, T);
      if added {
        if sp.state == Gas {
          Append(0, j);
        } else {
          Append(1, j);
        }
      }
    }

    /** `remove_condensed` as written: scans the active condensed species once; each one whose
        amount is not positive is overwritten by shifting the ids above it down by one, up to
        the active count only, and the active count, the total count `*n` and the system size
        drop by one; the amounts are not moved. */
    method RemoveCondensed(size: int, total: int) returns (r: int, size': int, total': int)
      requires Valid() && n[1] < ProductSlots
      modifies this, species
      ensures Valid()
      ensures var s := RemoveScan(old(Ids(1)), Amounts(1), old(n[1]), 0);
        && Ids(1) == s.0 && n == old(n)[1 := s.1]
        && r == (if s.2 > 0 then 1 else 0) && size' == size - s.2 && total' == total - s.2
      ensures Ids(0) == old(Ids(0))
    {
      ghost var ids0 := Ids(1);
      ghost var m0 := n[1];
      ghost var am := Amounts(1);
      r, size', total' := 0, size, total;
      var i := 0;
      while i < n[1]
        invariant Valid() && 0 <= i <= n[1] + 1 && n[1] <= m0 && n[0] == old(n[0])
        invariant Ids(0) == old(Ids(0))
        invariant var s := RemoveScan(Ids(1), am, n[1], i);
          RemoveScan(ids0, am, m0, 0) == (s.0, s.1, s.2 + (m0 - n[1]))
        invariant r == (if m0 - n[1] > 0 then 1 else 0)
        invariant size' == size - (m0 - n[1]) && total' == total - (m0 - n[1])
        decreases n[1] - i
      {
        if coef[1, i] <= 0.0 {
          ShiftDown(i, n[1]);
          total' := total' - 1;
          n := n[1 := n[1] - 1];
          size' := size' - 1;
          r := 1;
        }
        i := i + 1;
      }
    }

    /** The active condensed species with their amounts, in order. */
    ghost function Active(): (ps: seq<(int, real)>)
      reads this, species, coef
      requires Valid()
    {
      Row(0, n[1])
    }

    /** The condensed (id, amount) pairs of slots lo .. hi - 1, in order. */
    function Row(lo: nat, hi: nat): (ps: seq<(int, real)>)
      reads this, species, coef
      requires Valid() && lo <= hi <= ProductSlots
      ensures |ps| == hi - lo && forall k :: 0 <= k < hi - lo ==> ps[k].0 == species[1, lo + k] && ps[k].1 == coef[1, lo + k]
      decreases hi - lo
    {
      if lo == hi then [] else [(species[1, lo], coef[1, lo])] + Row(lo + 1, hi)
    }

    /** The removal `remove_condensed` is meant to make (see RemoveScanSkips for what it does):
        the active condensed species with a positive amount stay active, in order and each
        with its own amount; the others leave the list, the inactive species move down behind
        the active ones, and the active count, *n and *size drop by the number removed: the
        inactive species at slot t moves to slot t minus the number removed. */
    method RemoveCondensedIntended(size: int, total: int) returns (r: int, size': int, total': int)
      requires Valid() && n[1] <= total <= ProductSlots
      modifies this, species, coef
      ensures Valid() && n[0] == old(n[0])
      ensures n[1] == |Purge(old(Active()))|
      ensures forall k :: 0 <= k < n[1] ==> species[1, k] == Purge(old(Active()))[k].0 && coef[1, k] == Purge(old(Active()))[k].1
      ensures r == (if n[1] < old(n[1]) then 1 else 0)
      ensures size' == size - (old(n[1]) - n[1]) && total' == total - (old(n[1]) - n[1])
      ensures forall t :: old(n[1]) <= t < total ==>
                species[1, t - (old(n[1]) - n[1])] == old(species[1, t]) && coef[1, t - (old(n[1]) - n[1])] == old(coef[1, t])
      ensures Ids(0) == old(Ids(0)) && Amounts(0) == old(Amounts(0))
    {
      var m := n[1];
      var kept := Purge(Row(0, m));
      var rest := Row(m, total);
      Install(kept, rest);
      var w := |kept|;
      r := if w < m then 1 else 0;
      size', total' := size - (m - w), total - (m - w);
    }

    /** The active species become kept, followed by the inactive species rest; the gas buffers
        and the condensed slots after them keep their contents. */
    method Install(kept: seq<(int, real)>, rest: seq<(int, real)>)
      requires Valid() && |kept| <= n[1] && |kept| + |rest| <= ProductSlots
      modifies this, species, coef
      ensures Valid() && n == old(n)[1 := |kept|]
      ensures forall k :: 0 <= k < |kept| ==> species[1, k] == kept[k].0 && coef[1, k] == kept[k].1
      ensures forall t :: |kept| <= t < |kept| + |rest| ==> species[1, t] == rest[t - |kept|].0 && coef[1, t] == rest[t - |kept|].1
      ensures Ids(0) == old(Ids(0)) && Amounts(0) == old(Amounts(0))
    {
      WriteRow(kept + rest);
      n := n[1 := |kept|];
      assert forall k :: 0 <= k < |kept| ==> (kept + rest)[k] == kept[k];
      assert forall t :: |kept| <= t < |kept| + |rest| ==> (kept + rest)[t] == rest[t - |kept|];
    }

    /** The condensed slots 0 .. |row| - 1 take the ids and amounts of row; every other slot, and
        the gas buffers, keep theirs. */
    method WriteRow(row: seq<(int, real)>)
      requires Valid() && |row| <= ProductSlots
      modifies species, coef
      ensures forall k :: 0 <= k < |row| ==> species[1, k] == row[k].0 && coef[1, k] == row[k].1
      ensures forall k :: |row| <= k < ProductSlots ==> species[1, k] == old(species[1, k]) && coef[1, k] == old(coef[1, k])
      ensures Ids(0) == old(Ids(0)) && Amounts(0) == old(Amounts(0))
    {
      ghost var gas, gasAm := Ids(0), Amounts(0);
      for k := 0 to |row|
        invariant forall q :: 0 <= q < k ==> species[1, q] == row[q].0 && coef[1, q] == row[q].1
        invariant forall q :: k <= q < ProductSlots ==> species[1, q] == old(species[1, q]) && coef[1, q] == old(coef[1, q])
        invariant forall q :: 0 <= q < ProductSlots ==> species[0, q] == gas[q] && coef[0, q] == gasAm[q]
      {
        species[1, k] := row[k].0;
        coef[1, k] := row[k].1;
      }
      assert Ids(0) == gas;
      assert Amounts(0) == gasAm;
    }

    /** `include_condensed`, with the element list el and the temperature T of the equilibrium:
        among the inactive condensed species, positions n[C] .. total - 1, picks the first one
        with the smallest negative margin, exchanges it with the species at position n[C], makes
        it active and sets the system size to n_element + n[C] + 1; returns 0 and changes
        nothing when no margin is negative. */
    method IncludeCondensed(fns: ThermoFns, db: seq<Thermo>, el: seq<int>, sol: seq<real>, T: real, total: int, size: int)
      returns (r: int, size': int)
      requires Valid() && n[1] <= total <= ProductSlots && |el| <= |sol|
      requires forall i :: n[1] <= i < total ==> 0 <= species[1, i] < |db|
      modifies this, species
      ensures Valid()
      ensures var vs := Margins(fns, db, el, sol, T, old(Ids(1)), old(n[1]), total); var b := Best(vs, |vs|);
        if b.1 == -1 then
          r == 0 && size' == size && n == old(n) && Ids(1) == old(Ids(1))
        else
          && r == 1 && n == old(n)[1 := old(n[1]) + 1] && size' == |el| + n[1] + 1
          && Ids(1) == Swap(old(Ids(1)), old(n[1]), old(n[1]) + b.1)
      ensures Ids(0) == old(Ids(0))
    {
      ghost var vs := Margins(fns, db, el, sol, T, Ids(1), n[1], total);
      var m := n[1];
      var tmp := 0.0;
      var j := -1;
      ghost var q := -1;
      var i := m;
      while i < total
        modifies {}
        invariant m <= i <= total
        invariant (tmp, q) == Best(vs, i - m)
        invariant j == if q == -1 then -1 else m + q
      {
        var g := CondensedMargin(fns, db, el, sol, T, species[1, i]);
        ghost var k := i - m;
        MarginsAt(fns, db, el, sol, T, Ids(1), m, total, k);
        assert g == vs[k];
        if g < tmp {
          tmp := g;
          j := i;
          q := k;
        }
        i := i + 1;
      }
      ghost var b := Best(vs, |vs|);
      if j != -1 {
        assert m + b.1 == j;
        Exchange(m, j);
        n := n[1 := n[1] + 1];
        size' := |el| + n[1] + 1;
        r := 1;
      } else {
        r, size' := 0, size;
      }
    }
  }

  /** equilibrium_t: composition, product, element list, state (T, P) and total moles. */
  class Equilibrium {
    const c: Composition
    const p: Product
    const element: array<int>
    var nElement: int
    var T: real
    var P: real
    var n: real

    ghost predicate Valid()
      reads this, c, p
    {
      && c.Valid() && p.Valid()
      && element.Length == ElementSlots && 0 <= nElement <= ElementSlots
      && element != c.molecule
    }

    /** What `fill_matrix` reads of this equilibrium, with the thermo and propellant databases
        and the thermo functions (globals of the source) as parameters: the listed elements, the
        active gas and condensed species with their amounts, the components of the composition,
        and n, T and P. */
    ghost function MixOf(db: seq<Thermo>, fns: ThermoFns, props: seq<Propellant>): (x: Mix)
      reads this, c, p, element, c.molecule, c.coef, p.species, p.coef
      requires Valid()
      ensures x.db == db && x.fns == fns && x.props == props && x.n == n && x.T == T && x.P == P
      ensures x.el == element[..nElement]
      ensures |x.gas| == |x.gasN| == p.n[0] && |x.cond| == |x.condN| == p.n[1] && |x.mol| == |x.mc| == c.ncomp
      ensures forall k :: 0 <= k < p.n[0] ==> x.gas[k] == p.species[0, k] && x.gasN[k] == p.coef[0, k]
      ensures forall k :: 0 <= k < p.n[1] ==> x.cond[k] == p.species[1, k] && x.condN[k] == p.coef[1, k]
      ensures forall k :: 0 <= k < c.ncomp ==> x.mol[k] == c.molecule[k] && x.mc[k] == c.coef[k]
      ensures Size(x) == nElement + p.n[1] + 1
      ensures MixOk(x) <==>
        && (forall k :: 0 <= k < p.n[0] ==> 0 <= p.species[0, k] < |db|)
        && (forall k :: 0 <= k < p.n[1] ==> 0 <= p.species[1, k] < |db|)
        && (forall k :: 0 <= k < c.ncomp ==> 0 <= c.molecule[k] < |props|)
    {
      Mix(db, fns, props, element[..nElement],
          p.Ids(0)[..p.n[0]], p.Amounts(0)[..p.n[0]],
          p.Ids(1)[..p.n[1]], p.Amounts(1)[..p.n[1]],
          c.molecule[..c.ncomp], c.coef[..c.ncomp],
          n, T, P)
    }

    /** The condensed part of `MixOf` is the active list of the product, in order. */
    lemma MixOfActive(db: seq<Thermo>, fns: ThermoFns, props: seq<Propellant>)
      requires Valid()
      ensures Pairs(MixOf(db, fns, props).cond, MixOf(db, fns, props).condN) == p.Active()
    {
      var x := MixOf(db, fns, props);
      var a := p.Active();
      assert forall k :: 0 <= k < |a| ==> Pairs(x.cond, x.condN)[k] == a[k];
    }

    /** `initialize_equilibrium` with `initialize_product`: an empty composition and product and
        an element list of -1 entries. */
    constructor ()
      ensures Valid() && fresh(c) && fresh(p) && fresh(element)
      ensures fresh(c.molecule) && fresh(c.coef) && fresh(p.species) && fresh(p.coef)
      ensures c.ncomp == 0 && p.n[0] == 0 && p.n[1] == 0 && nElement == 0
      ensures forall k :: 0 <= k < ElementSlots ==> element[k] == -1
    {
      c := new Composition();
      p := new Product();
      element := new int[ElementSlots](_ => -1);
      nElement := 0;
      T := 0.0;
      P := 0.0;
      n := 0.0;
    }

    /** `set_state` */
    method SetState(temperature: real, pressure: real)
      modifies this
      ensures T == temperature && P == pressure && n == old(n) && nElement == old(nElement)
    {
      T := temperature;
      P := pressure;
    }

    /** `add_in_propellant`: appends the component (sp, mol). */
    method AddInPropellant(sp: int, mol: real)
      requires Valid() && c.ncomp < MaxComp
      modifies c, c.molecule, c.coef
      ensures Valid()
      ensures c.Components() == old(c.Components()) + [(sp, mol)]
      ensures c.molecule[..] == old(c.molecule[..])[old(c.ncomp) := sp]
      ensures c.coef[..] == old(c.coef[..])[old(c.ncomp) := mol]
    {
      c.molecule[c.ncomp] := sp;
      c.coef[c.ncomp] := mol;
      c.ncomp := c.ncomp + 1;
    }

    /** `list_element`: collects the elements of the composition into `element`, as
        `DiscoverAll` describes, and returns their number. */
    method ListElement(props: seq<Propellant>) returns (count: int)
      requires Valid()
      requires forall k :: 0 <= k < c.ncomp ==> 0 <= c.molecule[k] < |props|
      requires |Elements(Candidates(c.molecule[..c.ncomp], props))| < ElementSlots
      modifies this, element
      ensures Valid()
      ensures (element[..], nElement) == DiscoverAll(old(element[..]), 0, Candidates(c.molecule[..c.ncomp], props))
      ensures count == nElement
      ensures T == old(T) && P == old(P) && n == old(n)
    {
      assert element != c.molecule;
      ghost var el0 := element[..];
      var nn := ListComponents(c.molecule[..c.ncomp], props);
      DiscoverFacts(el0, Candidates(c.molecule[..c.ncomp], props));
      nElement := nn;
      count := nn;
    }

    /** The loop of `list_element` over the components mol of the composition. */
    method ListComponents(mol: seq<int>, props: seq<Propellant>) returns (nn: int)
      requires element.Length == ElementSlots
      requires forall k :: 0 <= k < |mol| ==> 0 <= mol[k] < |props|
      requires |Elements(Candidates(mol, props))| < ElementSlots
      modifies element
      ensures (element[..], nn) == DiscoverAll(old(element[..]), 0, Candidates(mol, props))
    {
      ghost var el0 := element[..];
      ghost var all := Candidates(mol, props);
      nn := 0;
      var i := 0;
      while i < |mol|
        invariant 0 <= i <= |mol| && nn >= 0
        invariant (element[..], nn) == DiscoverAll(el0, 0, Candidates(mol, props, i))
      {
        var pr := props[mol[i]];
        CandidatesStep(mol, props, i);
        nn := ListComponent(pr, nn, el0, Candidates(mol, props, i), all);
        i := i + 1;
      }
    }

    /** The slot loop of `list_element` for one component pr, after the elements `before`. */
    method ListComponent(pr: Propellant, nn: int, ghost el0: seq<int>, ghost before: seq<int>, ghost all: seq<int>)
      returns (m: int)
      requires element.Length == ElementSlots && |el0| == ElementSlots
      requires |before| + |SlotCandidates(pr, 6)| <= |all| && all[..|before| + |SlotCandidates(pr, 6)|] == before + SlotCandidates(pr, 6)
      requires |Elements(all)| < ElementSlots
      requires nn >= 0 && (element[..], nn) == DiscoverAll(el0, 0, before)
      modifies element
      ensures (element[..], m) == DiscoverAll(el0, 0, before + SlotCandidates(pr, 6))
    {
      m := nn;
      var j := 0;
      assert before + SlotCandidates(pr, 0) == before;
      while j < 6
        invariant 0 <= j <= 6 && m >= 0
        invariant (element[..], m) == DiscoverAll(el0, 0, before + SlotCandidates(pr, j))
      {
        ghost var sofar := before + SlotCandidates(pr, j);
        SlotPrefix(pr, j, 6);
        if pr.coef[j] != 0 {
          var t := pr.elem[j];
          assert sofar + [t] == before + SlotCandidates(pr, j + 1);
          PrefixElements(sofar, all);
          DiscoverBound(el0, sofar, all);
          m := DiscoverOne(m, t);
          DiscoverAllSnoc(el0, sofar, t);
        } else {
          assert sofar == before + SlotCandidates(pr, j + 1);
        }
        j := j + 1;
      }
    }

    /** The innermost loop of `list_element`: scans k = 0 .. n for t and appends it at k == n. */
    method DiscoverOne(nn: int, t: int) returns (m: int)
      requires element.Length == ElementSlots && 0 <= nn < ElementSlots
      modifies element
      ensures (element[..], m) == Discover(old(element[..]), nn, t)
    {
      m := nn;
      var k := 0;
      while k <= nn
        invariant 0 <= k <= nn && m == nn && element[..] == old(element[..])
        invariant forall i :: 0 <= i < k ==> element[i] != t
      {
        if element[k] == t {
          assert t in element[..nn + 1];
          return;
        }
        if k == nn {
          assert t !in element[..nn + 1];
          element[nn] := t;
          m := nn + 1;
          return;
        }
        k := k + 1;
      }
    }

    /** `list_product`: appends the index of every species of the database that can be formed
        from the element list and exists at T to the buffer of its state, in ascending order, and
        sets the initial amounts. */
    method ListProduct(db: seq<Thermo>) returns (count: int)
      requires Valid()
      requires forall st :: 0 <= st < StateLast ==> p.n[st] + |Kept(db, element[..nElement], T, st, |db|)| <= ProductSlots
      modifies p, p.species, p.coef
      ensures Valid()
      ensures forall st :: 0 <= st < StateLast ==>
        && p.n[st] == old(p.n[st]) + |Kept(db, element[..nElement], T, st, |db|)|
        && p.Ids(st) == Overlay(old(p.Ids(st)), old(p.n[st]), Kept(db, element[..nElement], T, st, |db|))
      ensures count == |Kept(db, element[..nElement], T, 0, |db|)| + |Kept(db, element[..nElement], T, 1, |db|)|
      ensures forall k :: 0 <= k < p.n[0] ==> p.coef[0, k] == 0.1 / (p.n[0] as real)
      ensures forall k :: 0 <= k < p.n[1] ==> p.coef[1, k] == 0.0
      ensures forall st, k :: 0 <= st < StateLast && p.n[st] <= k < ProductSlots ==> p.coef[st, k] == old(p.coef[st, k])
    {
      count := p.ListSpecies(db, element[..nElement], T);
      p.InitAmounts();
    }
  }

  /** The subset test of `list_product` for one species: each element with a nonzero
      coefficient is searched among the listed ones. */
  method CheckFormable(sp: Thermo, el: seq<int>) returns (ok: bool)
    ensures ok == Formable(sp, el)
  {
    ok := true;
    var k := 0;
    while k < 5
      invariant 0 <= k <= 5
      invariant ok == (|el| == 0 || forall q :: 0 <= q < k && sp.coef[q] != 0 ==> sp.elem[q] in el)
    {
      if sp.coef[k] != 0 {
        var i := 0;
        while i < |el|
          invariant 0 <= i <= |el| && ok == (i < |el| || |el| == 0)
          invariant forall q :: 0 <= q < i ==> el[q] != sp.elem[k]
        {
          if el[i] == sp.elem[k] {
            break;
          } else if i == |el| - 1 {
            ok := false;
          }
          i := i + 1;
        }
        if !ok {
          assert sp.elem[k] !in el;
          return;
        }
      }
      k := k + 1;
    }
  }

  /** The margin of one inactive condensed species in `include_condensed`: G0(sp, T) minus
      the sum over the listed elements of sol[k] times the species' atoms of element k. */
  method CondensedMargin(fns: ThermoFns, db: seq<Thermo>, el: seq<int>, sol: seq<real>, T: real, sp: int)
    returns (g: real)
    requires 0 <= sp < |db| && |el| <= |sol|
    ensures g == Margin(fns, db, el, sol, T, sp)
  {
    var temp := 0.0;
    var k := 0;
    while k < |el|
      invariant 0 <= k <= |el|
      invariant temp == Dot(el, sol, db[sp], k)
    {
      temp := temp + Weigh(sol[k], ProductElementCoef(el[k], db[sp]));
      k := k + 1;
    }
    g := fns.gibbs0(sp, T) - temp;
  }

  // ---------------------------------------------------------------- list_element, as functions

  /** The elements of propellant slots 0 .. j - 1 with a nonzero coefficient, in slot order. */
  function SlotCandidates(pr: Propellant, j: nat): (ts: seq<int>)
    requires j <= 6
    ensures forall t :: t in ts <==> exists s :: 0 <= s < j && pr.coef[s] != 0 && pr.elem[s] == t
  {
    if j == 0 then []
    else SlotCandidates(pr, j - 1) + (if pr.coef[j - 1] != 0 then [pr.elem[j - 1]] else [])
  }

  /** The elements met by `list_element`, component by component, in the order it meets them. */
  function Candidates(mol: seq<int>, props: seq<Propellant>, i: nat := |mol|): (ts: seq<int>)
    requires i <= |mol| && forall k :: 0 <= k < |mol| ==> 0 <= mol[k] < |props|
  {
    if i == 0 then [] else Candidates(mol, props, i - 1) + SlotCandidates(props[mol[i - 1]], 6)
  }

  lemma {:induction false} CandidatesPrefix(mol: seq<int>, props: seq<Propellant>, i: nat, i': nat)
    requires i <= i' <= |mol| && forall k :: 0 <= k < |mol| ==> 0 <= mol[k] < |props|
    ensures |Candidates(mol, props, i)| <= |Candidates(mol, props, i')|
    ensures Candidates(mol, props, i')[..|Candidates(mol, props, i)|] == Candidates(mol, props, i)
    decreases i' - i
  {
    if i < i' {
      CandidatesPrefix(mol, props, i, i' - 1);
    }
  }

  /** The candidates up to component i + 1 extend those up to i by its slots, and prefix all of them. */
  lemma CandidatesStep(mol: seq<int>, props: seq<Propellant>, i: nat)
    requires i < |mol| && forall k :: 0 <= k < |mol| ==> 0 <= mol[k] < |props|
    ensures Candidates(mol, props, i + 1) == Candidates(mol, props, i) + SlotCandidates(props[mol[i]], 6)
    ensures |Candidates(mol, props, i + 1)| <= |Candidates(mol, props)|
    ensures Candidates(mol, props)[..|Candidates(mol, props, i + 1)|] == Candidates(mol, props, i + 1)
  {
    CandidatesPrefix(mol, props, i + 1, |mol|);
  }

  lemma {:induction false} SlotPrefix(pr: Propellant, j: nat, j': nat)
    requires j <= j' <= 6
    ensures |SlotCandidates(pr, j)| <= |SlotCandidates(pr, j')|
    ensures SlotCandidates(pr, j')[..|SlotCandidates(pr, j)|] == SlotCandidates(pr, j)
    decreases j' - j
  {
    if j < j' {
      SlotPrefix(pr, j, j' - 1);
    }
  }

  /** The elements of a prefix of all are elements of all. */
  lemma PrefixElements(ts: seq<int>, all: seq<int>)
    requires |ts| <= |all| && all[..|ts|] == ts
    ensures Elements(ts) <= Elements(all)
  {
    forall t | t in ts
      ensures t in all
    {
      var k :| 0 <= k < |ts| && ts[k] == t;
      assert all[k] == t;
    }
  }

  function Elements(ts: seq<int>): set<int> {
    set t | t in ts
  }

  /** An element is met exactly when some component has a nonzero coefficient for it. */
  lemma {:induction false} CandidatesMembers(mol: seq<int>, props: seq<Propellant>, i: nat, t: int)
    requires i <= |mol| && forall k :: 0 <= k < |mol| ==> 0 <= mol[k] < |props|
    ensures t in Candidates(mol, props, i) <==>
      exists k, s :: 0 <= k < i && 0 <= s < 6 && props[mol[k]].coef[s] != 0 && props[mol[k]].elem[s] == t
    decreases i
  {
    if i > 0 {
      CandidatesMembers(mol, props, i - 1, t);
      if t in SlotCandidates(props[mol[i - 1]], 6) {
        var s :| 0 <= s < 6 && props[mol[i - 1]].coef[s] != 0 && props[mol[i - 1]].elem[s] == t;
        assert exists k, s :: 0 <= k < i && 0 <= s < 6 && props[mol[k]].coef[s] != 0 && props[mol[k]].elem[s] == t;
      }
      if exists k, s :: 0 <= k < i && 0 <= s < 6 && props[mol[k]].coef[s] != 0 && props[mol[k]].elem[s] == t {
        var k, s :| 0 <= k < i && 0 <= s < 6 && props[mol[k]].coef[s] != 0 && props[mol[k]].elem[s] == t;
        if k == i - 1 {
          assert t in SlotCandidates(props[mol[i - 1]], 6);
        }
      }
    }
  }

  /** One element met by `list_element` against the list el of n entries: its scan stops at the
      first k <= n with el[k] == t and appends t at n when it reaches k == n without a match, so
      an old value equal to t in slot n also stops it. */
  function Discover(el: seq<int>, n: nat, t: int): (r: (seq<int>, nat))
    ensures |r.0| == |el|
  {
    if n >= |el| then (el, n)
    else if t in el[..n + 1] then (el, n)
    else (el[n := t], n + 1)
  }

  /** `Discover` applied to each element of ts in turn. */
  function DiscoverAll(el: seq<int>, n: nat, ts: seq<int>): (r: (seq<int>, nat))
    ensures |r.0| == |el|
    decreases |ts|
  {
    if |ts| == 0 then (el, n)
    else
      var r := DiscoverAll(el, n, ts[..|ts| - 1]);
      Discover(r.0, r.1, ts[|ts| - 1])
  }

  lemma DiscoverAllSnoc(el: seq<int>, ts: seq<int>, t: int)
    ensures DiscoverAll(el, 0, ts + [t]) == Discover(DiscoverAll(el, 0, ts).0, DiscoverAll(el, 0, ts).1, t)
  {
    assert (ts + [t])[..|ts|] == ts;
  }

  predicate Distinct(s: seq<int>) {
    forall a, b :: 0 <= a < b < |s| ==> s[a] != s[b]
  }

  /** The entries found so far are distinct elements met. */
  lemma {:induction false} DiscoverFacts(el: seq<int>, ts: seq<int>)
    ensures DiscoverAll(el, 0, ts).1 <= |el|
    ensures Distinct(DiscoverAll(el, 0, ts).0[..DiscoverAll(el, 0, ts).1])
    ensures forall k :: 0 <= k < DiscoverAll(el, 0, ts).1 ==> DiscoverAll(el, 0, ts).0[k] in ts
    decreases |ts|
  {
    if |ts| > 0 {
      var front := ts[..|ts| - 1];
      DiscoverFacts(el, front);
      var r := DiscoverAll(el, 0, front);
      assert forall x :: x in front ==> x in ts;
      if r.1 < |el| && ts[|ts| - 1] !in r.0[..r.1 + 1] {
        assert r.0[r.1 := ts[|ts| - 1]][..r.1 + 1] == r.0[..r.1] + [ts[|ts| - 1]];
      }
    }
  }

  /** A list of distinct members of S is no longer than S has members. */
  lemma {:induction false} DistinctCard(s: seq<int>, S: set<int>)
    requires Distinct(s) && forall k :: 0 <= k < |s| ==> s[k] in S
    ensures |s| <= |S|
    decreases |s|
  {
    if |s| > 0 {
      var x := s[|s| - 1];
      var front := s[..|s| - 1];
      assert forall k :: 0 <= k < |front| ==> front[k] in S - {x};
      DistinctCard(front, S - {x});
    }
  }

  /** While fewer than n distinct elements are met in all, the list never reaches n entries. */
  lemma DiscoverBound(el: seq<int>, ts: seq<int>, all: seq<int>)
    requires Elements(ts) <= Elements(all) && |Elements(all)| < |el|
    ensures DiscoverAll(el, 0, ts).1 < |el|
  {
    DiscoverFacts(el, ts);
    var r := DiscoverAll(el, 0, ts);
    DistinctCard(r.0[..r.1], Elements(all));
  }

  /** The elements of ts in order of first occurrence, each once. */
  function Dedup(ts: seq<int>): (d: seq<int>)
    decreases |ts|
  {
    if |ts| == 0 then []
    else
      var d := Dedup(ts[..|ts| - 1]);
      if ts[|ts| - 1] in d then d else d + [ts[|ts| - 1]]
  }

  /** Dedup keeps exactly the elements of ts, without repetition. */
  lemma {:induction false} DedupFacts(ts: seq<int>)
    ensures Distinct(Dedup(ts))
    ensures Elements(Dedup(ts)) == Elements(ts)
    ensures |Dedup(ts)| == |Elements(ts)|
    decreases |ts|
  {
    if |ts| > 0 {
      var front := ts[..|ts| - 1];
      var t := ts[|ts| - 1];
      DedupFacts(front);
      assert ts == front + [t];
      assert Elements(ts) == Elements(front) + {t};
      if t !in Dedup(front) {
        assert Elements(Dedup(front) + [t]) == Elements(Dedup(front)) + {t};
      }
    }
  }

  /** From the element list `initialize_equilibrium` sets up (all -1) and atomic numbers that are
      never negative, `list_element` yields each element once, in the order first met, and sets
      the count to the number of distinct elements. */
  lemma {:induction false} DiscoverFresh(el: seq<int>, ts: seq<int>)
    requires forall k :: 0 <= k < |el| ==> el[k] == -1
    requires forall k :: 0 <= k < |ts| ==> ts[k] >= 0
    requires |Elements(ts)| < |el|
    ensures |Dedup(ts)| < |el|
    ensures DiscoverAll(el, 0, ts).1 == |Dedup(ts)|
    ensures DiscoverAll(el, 0, ts).0[..|Dedup(ts)|] == Dedup(ts)
    ensures forall k :: |Dedup(ts)| <= k < |el| ==> DiscoverAll(el, 0, ts).0[k] == -1
    decreases |ts|
  {
    DedupFacts(ts);
    if |ts| > 0 {
      var front := ts[..|ts| - 1];
      var t := ts[|ts| - 1];
      DedupFacts(front);
      var r := DiscoverAll(el, 0, front);
      DiscoverFresh(el, front);
      assert r.0[..r.1 + 1] == Dedup(front) + [-1];
      if t !in Dedup(front) {
        assert r.0[r.1 := t][..r.1 + 1] == Dedup(front) + [t];
      }
    }
  }

  // ---------------------------------------------------------------- list_product, as functions

  /** The subset test of `list_product`: every element with a nonzero coefficient in the
      species is in the element list; an empty list admits every species. */
  predicate Formable(sp: Thermo, el: seq<int>) {
    |el| == 0 || forall q :: 0 <= q < 5 && sp.coef[q] != 0 ==> sp.elem[q] in el
  }

  /** The two tests of `list_product`: formable from the element list, and existing at T. */
  predicate Accepts(sp: Thermo, el: seq<int>, T: real) {
    Formable(sp, el) && TemperatureCheck(sp, T)
  }

  /** A species kept by `list_product` into the buffer of state st. */
  predicate Keeps(sp: Thermo, el: seq<int>, T: real, st: nat) {
    Accepts(sp, el, T) && StateIndex(sp.state) == st
  }

  /** The indices below j that `list_product` appends to the buffer of state st, in order. */
  function Kept(db: seq<Thermo>, el: seq<int>, T: real, st: nat, j: nat): (ks: seq<int>)
    requires j <= |db|
    ensures |ks| <= j
  {
    if j == 0 then [] else Kept(db, el, T, st, j - 1) + (if Keeps(db[j - 1], el, T, st) then [j - 1] else [])
  }

  /** `list_product` keeps exactly the species that pass both tests, in ascending order. */
  lemma {:induction false} KeptFacts(db: seq<Thermo>, el: seq<int>, T: real, st: nat, j: nat)
    requires j <= |db|
    ensures forall x :: x in Kept(db, el, T, st, j) <==> 0 <= x < j && Keeps(db[x], el, T, st)
    ensures forall a, b :: 0 <= a < b < |Kept(db, el, T, st, j)| ==> Kept(db, el, T, st, j)[a] < Kept(db, el, T, st, j)[b]
  {
    if j > 0 {
      KeptFacts(db, el, T, st, j - 1);
      var f := Kept(db, el, T, st, j - 1);
      assert forall a :: 0 <= a < |f| ==> f[a] in f;
    }
  }

  /** A species the loop of `list_product` accepts at index j finds a free slot in its buffer. */
  lemma RoomFor(db: seq<Thermo>, el: seq<int>, T: real, j: nat, g0: int, c0: int)
    requires j < |db|
    requires g0 + |Kept(db, el, T, 0, |db|)| <= ProductSlots && c0 + |Kept(db, el, T, 1, |db|)| <= ProductSlots
    ensures g0 + |Kept(db, el, T, 0, j + 1)| <= ProductSlots && c0 + |Kept(db, el, T, 1, j + 1)| <= ProductSlots
    ensures Accepts(db[j], el, T) && db[j].state == Gas ==> g0 + |Kept(db, el, T, 0, j)| < ProductSlots
    ensures Accepts(db[j], el, T) && db[j].state == Condensed ==> c0 + |Kept(db, el, T, 1, j)| < ProductSlots
  {
    KeptPrefix(db, el, T, 0, j + 1, |db|);
    KeptPrefix(db, el, T, 1, j + 1, |db|);
  }

  lemma {:induction false} KeptPrefix(db: seq<Thermo>, el: seq<int>, T: real, st: nat, j: nat, j': nat)
    requires j <= j' <= |db|
    ensures |Kept(db, el, T, st, j)| <= |Kept(db, el, T, st, j')|
    decreases j' - j
  {
    if j < j' {
      KeptPrefix(db, el, T, st, j, j' - 1);
    }
  }

  /** ids with xs written over it from position at on. */
  function Overlay(ids: seq<int>, at: nat, xs: seq<int>): (r: seq<int>)
    requires at + |xs| <= |ids|
    ensures |r| == |ids|
  {
    ids[..at] + xs + ids[at + |xs|..]
  }

  lemma OverlaySnoc(ids: seq<int>, at: nat, xs: seq<int>, x: int)
    requires at + |xs| < |ids|
    ensures Overlay(ids, at, xs + [x]) == Overlay(ids, at, xs)[at + |xs| := x]
  {
  }

  /** One pass of the species loop of `list_product`, on the counts and buffers before (nb, gb,
      cb) and after (na, ga, ca) the pass over database index j. */
  lemma ListStepValues(db: seq<Thermo>, el: seq<int>, T: real, j: nat, added: bool,
                       nb: seq<int>, gb: seq<int>, cb: seq<int>, na: seq<int>, ga: seq<int>, ca: seq<int>,
                       g0: int, c0: int, gas0: seq<int>, cond0: seq<int>)
    requires j < |db| && |nb| == 2
    requires g0 + |Kept(db, el, T, 0, j + 1)| <= ProductSlots && c0 + |Kept(db, el, T, 1, j + 1)| <= ProductSlots
    requires |gas0| == ProductSlots && |cond0| == ProductSlots && g0 >= 0 && c0 >= 0
    requires nb[0] == g0 + |Kept(db, el, T, 0, j)| && nb[1] == c0 + |Kept(db, el, T, 1, j)|
    requires gb == Overlay(gas0, g0, Kept(db, el, T, 0, j)) && cb == Overlay(cond0, c0, Kept(db, el, T, 1, j))
    requires added == Accepts(db[j], el, T)
    requires added && db[j].state == Gas ==> nb[0] < |gb| && na == [nb[0] + 1, nb[1]] && ga == gb[nb[0] := j] && ca == cb
    requires added && db[j].state == Condensed ==> nb[1] < |cb| && na == [nb[0], nb[1] + 1] && ca == cb[nb[1] := j] && ga == gb
    requires !added ==> na == nb && ga == gb && ca == cb
    ensures na[0] == g0 + |Kept(db, el, T, 0, j + 1)| && na[1] == c0 + |Kept(db, el, T, 1, j + 1)|
    ensures ga == Overlay(gas0, g0, Kept(db, el, T, 0, j + 1)) && ca == Overlay(cond0, c0, Kept(db, el, T, 1, j + 1))
    ensures |Kept(db, el, T, 0, j + 1)| + |Kept(db, el, T, 1, j + 1)|
            == |Kept(db, el, T, 0, j)| + |Kept(db, el, T, 1, j)| + (if added then 1 else 0)
  {
    var k0, k1 := Kept(db, el, T, 0, j), Kept(db, el, T, 1, j);
    if added {
      if db[j].state == Gas {
        assert Kept(db, el, T, 0, j + 1) == k0 + [j] && Kept(db, el, T, 1, j + 1) == k1;
        OverlaySnoc(gas0, g0, k0, j);
      } else {
        assert Kept(db, el, T, 1, j + 1) == k1 + [j] && Kept(db, el, T, 0, j + 1) == k0;
        OverlaySnoc(cond0, c0, k1, j);
      }
    } else {
      assert Kept(db, el, T, 0, j + 1) == k0 && Kept(db, el, T, 1, j + 1) == k1;
    }
  }

  // ---------------------------------------------------------------- remove_condensed, as functions

  /** The shift loop of `remove_condensed`: ids[j] = ids[j + 1] for i <= j < m. */
  function Shift(ids: seq<int>, i: nat, m: nat): (r: seq<int>)
    requires i <= m < |ids|
    ensures |r| == |ids|
    ensures forall k :: 0 <= k < |ids| ==> r[k] == if i <= k < m then ids[k + 1] else ids[k]
  {
    ids[..i] + ids[i + 1..m + 1] + ids[m..]
  }

  /** The scan of `remove_condensed` from position i with m active species: the new ids, the
      new active count and the number of species removed. The amounts am stay in place. */
  function RemoveScan(ids: seq<int>, am: seq<real>, m: nat, i: nat): (r: (seq<int>, nat, nat))
    requires |ids| == |am| && m < |ids|
    ensures |r.0| == |ids|
    decreases m - i
  {
    if i >= m then (ids, m, 0)
    else if am[i] <= 0.0 then
      var s := RemoveScan(Shift(ids, i, m), am, m - 1, i + 1);
      (s.0, s.1, s.2 + 1)
    else RemoveScan(ids, am, m, i + 1)
  }

  /** The scan removes nothing exactly when every active amount from i on is positive, and then
      it leaves ids and the count as they are. */
  lemma {:induction false} RemoveScanNone(ids: seq<int>, am: seq<real>, m: nat, i: nat)
    requires |ids| == |am| && m < |ids|
    ensures RemoveScan(ids, am, m, i).2 == 0 <==> forall k :: i <= k < m ==> am[k] > 0.0
    ensures RemoveScan(ids, am, m, i).2 == 0 ==> RemoveScan(ids, am, m, i) == (ids, m, 0)
    decreases m - i
  {
    if i < m && am[i] > 0.0 {
      RemoveScanNone(ids, am, m, i + 1);
    }
  }

  /** Every removal takes one species off the active count, and the slots from the old count on
      and those below i are left alone. */
  lemma {:induction false} RemoveScanCount(ids: seq<int>, am: seq<real>, m: nat, i: nat)
    requires |ids| == |am| && m < |ids|
    ensures var s := RemoveScan(ids, am, m, i);
      s.1 + s.2 == m && s.1 <= m
      && (forall k :: m <= k < |ids| ==> s.0[k] == ids[k])
      && (forall k :: 0 <= k < i && k < |ids| ==> s.0[k] == ids[k])
    decreases m - i
  {
    if i < m {
      if am[i] <= 0.0 {
        RemoveScanCount(Shift(ids, i, m), am, m - 1, i + 1);
      } else {
        RemoveScanCount(ids, am, m, i + 1);
      }
    }
  }

  /** As written, two adjacent active species with no amount left: the first is removed, the
      second slides into its slot and is never checked, so it stays active, and the last active
      slot is filled with a copy of the first inactive one. */
  lemma RemoveScanSkips()
    ensures RemoveScan([10, 20, 30], [0.0, 0.0, 0.0], 2, 0) == ([20, 30, 30], 1, 1)
    ensures |Purge([(10, 0.0), (20, 0.0)])| == 0
  {
    assert Shift([10, 20, 30], 0, 2) == [20, 30, 30];
  }

  /** The removal `remove_condensed` is meant to make: the active (species, amount) pairs whose
      amount is positive, in their order, each with its own amount. */
  function Purge(ps: seq<(int, real)>): (qs: seq<(int, real)>)
    ensures |qs| <= |ps|
  {
    if |ps| == 0 then []
    else if ps[|ps| - 1].1 > 0.0 then Purge(ps[..|ps| - 1]) + [ps[|ps| - 1]]
    else Purge(ps[..|ps| - 1])
  }

  /** Purge keeps each pair with a positive amount as often as it occurs and drops every other
      pair. */
  lemma {:induction false} PurgeCounts(ps: seq<(int, real)>)
    ensures forall x :: multiset(Purge(ps))[x] == if x.1 > 0.0 then multiset(ps)[x] else 0
  {
    if |ps| > 0 {
      var init, last := ps[..|ps| - 1], ps[|ps| - 1];
      PurgeCounts(init);
      assert ps == init + [last];
      assert multiset(ps) == multiset(init) + multiset{last};
      if last.1 > 0.0 {
        assert multiset(Purge(ps)) == multiset(Purge(init)) + multiset{last};
      } else {
        assert multiset(Purge(ps)) == multiset(Purge(init));
      }
    }
  }

  /** Every amount Purge keeps is positive, and it removes nothing exactly when every amount is
      positive. */
  lemma {:induction false} PurgePositive(ps: seq<(int, real)>)
    ensures forall k :: 0 <= k < |Purge(ps)| ==> Purge(ps)[k].1 > 0.0
    ensures Purge(ps) == ps <==> forall k :: 0 <= k < |ps| ==> ps[k].1 > 0.0
  {
    if |ps| > 0 {
      var init, last := ps[..|ps| - 1], ps[|ps| - 1];
      PurgePositive(init);
      assert ps == init + [last];
      if last.1 <= 0.0 {
        assert |Purge(ps)| <= |init| < |ps|;
      } else if forall k :: 0 <= k < |ps| ==> ps[k].1 > 0.0 {
        assert forall k :: 0 <= k < |init| ==> init[k].1 > 0.0 by {
          forall k | 0 <= k < |init| ensures init[k].1 > 0.0 {
            assert init[k] == ps[k];
          }
        }
      } else if Purge(ps) == ps {
        assert Purge(init) == init;
      }
    }
  }

  /** Purge distributes over concatenation, so it keeps the order of what it keeps. */
  lemma {:induction false} PurgeConcat(a: seq<(int, real)>, b: seq<(int, real)>)
    ensures Purge(a + b) == Purge(a) + Purge(b)
    decreases |b|
  {
    if |b| == 0 {
      assert a + b == a;
    } else {
      var init := b[..|b| - 1];
      assert (a + b)[..|a + b| - 1] == a + init;
      PurgeConcat(a, init);
    }
  }

  // ---------------------------------------------------------------- include_condensed, as functions

  /** sum of sol[k] * (atoms of element el[k] in species s) for k < n */
  function Dot(el: seq<int>, sol: seq<real>, s: Thermo, n: nat): real
    requires n <= |el| && n <= |sol|
  {
    if n == 0 then 0.0 else Dot(el, sol, s, n - 1) + Weigh(sol[n - 1], ProductElementCoef(el[n - 1], s))
  }

  /** The quantity `include_condensed` minimises for species sp: G0(sp, T) less the element
      potentials sol[k] weighted by the species' atoms. */
  function Margin(fns: ThermoFns, db: seq<Thermo>, el: seq<int>, sol: seq<real>, T: real, sp: int): real
    requires 0 <= sp < |db| && |el| <= |sol|
  {
    fns.gibbs0(sp, T) - Dot(el, sol, db[sp], |el|)
  }

  /** The margins of the species at positions lo .. hi - 1 of ids. */
  function Margins(fns: ThermoFns, db: seq<Thermo>, el: seq<int>, sol: seq<real>, T: real, ids: seq<int>, lo: nat, hi: nat)
    : (vs: seq<real>)
    requires lo <= hi <= |ids| && |el| <= |sol|
    requires forall i :: lo <= i < hi ==> 0 <= ids[i] < |db|
    ensures |vs| == hi - lo
    decreases hi - lo
  {
    if hi == lo then [] else Margins(fns, db, el, sol, T, ids, lo, hi - 1) + [Margin(fns, db, el, sol, T, ids[hi - 1])]
  }

  lemma {:induction false} MarginsAt(fns: ThermoFns, db: seq<Thermo>, el: seq<int>, sol: seq<real>, T: real, ids: seq<int>,
                                     lo: nat, hi: nat, q: nat)
    requires lo <= hi <= |ids| && |el| <= |sol|
    requires forall i :: lo <= i < hi ==> 0 <= ids[i] < |db|
    requires q < hi - lo
    ensures Margins(fns, db, el, sol, T, ids, lo, hi)[q] == Margin(fns, db, el, sol, T, ids[lo + q])
    decreases hi - lo
  {
    if q < hi - 1 - lo {
      MarginsAt(fns, db, el, sol, T, ids, lo, hi - 1, q);
    }
  }

  /** The selection loop of `include_condensed` over the values vs[0 .. k - 1], from
      (tmp, j) = (0, -1). */
  function Best(vs: seq<real>, k: nat): (b: (real, int))
    requires k <= |vs|
    ensures b.1 == -1 || 0 <= b.1 < k
  {
    if k == 0 then (0.0, -1)
    else
      var f := Best(vs, k - 1);
      if vs[k - 1] < f.0 then (vs[k - 1], k - 1) else f
  }

  /** The selection finds nothing exactly when no value is negative; otherwise it finds the
      first position of the smallest value, which is negative. */
  lemma {:induction false} BestFacts(vs: seq<real>, k: nat)
    requires k <= |vs|
    ensures Best(vs, k).1 == -1 <==> forall q :: 0 <= q < k ==> vs[q] >= 0.0
    ensures Best(vs, k).1 == -1 ==> Best(vs, k).0 == 0.0
    ensures Best(vs, k).1 != -1 ==> Best(vs, k).0 == vs[Best(vs, k).1] < 0.0
    ensures Best(vs, k).1 != -1 ==> forall q :: 0 <= q < k ==> vs[Best(vs, k).1] <= vs[q]
    ensures Best(vs, k).1 != -1 ==> forall q :: 0 <= q < Best(vs, k).1 ==> vs[q] > vs[Best(vs, k).1]
  {
    if k > 0 {
      BestFacts(vs, k - 1);
    }
  }

  /** s with the entries at a and b exchanged. */
  function Swap(s: seq<int>, a: nat, b: nat): (r: seq<int>)
    requires a < |s| && b < |s|
    ensures |r| == |s|
    ensures r[a] == s[b] && r[b] == s[a] && forall k :: 0 <= k < |s| && k != a && k != b ==> r[k] == s[k]
  {
    s[a := s[b]][b := s[a]]
  }
}
