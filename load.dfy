/** load.c: `trim_spaces` and the fixed-column field rules of the two data file loaders. A line
    is what one `fgets(buf, 88, fd)` call stores: at most 87 characters, then a NUL, with the rest
    of the 88-character buffer left from earlier lines. The numbers `atoi` and `atof` read from a
    field are given functions of the field's C string. */
module Load {
  import opened Numeric
  import opened Species

  const BufSize: nat := 88
  const CalToJoule: real := 4.1868
  const ClbsToCcm: real := 27.679905

  /** `symb`: the element symbols, two characters each, in atomic-number order; E is the
      electron and D deuterium. */
  const Symbols: seq<seq<char>> := [
    "H ", "HE", "LI", "BE", "B ", "C ", "N ", "O ",
    "F ", "NE", "NA", "MG", "AL", "SI", "P ", "S ", "CL", "AR", "K ", "CA",
    "SC", "TI", "V ", "CR", "MN", "FE", "CO", "NI", "CU", "ZN", "GA", "GE",
    "AS", "SE", "BR", "KR", "RB", "SR", "Y ", "ZR", "NB", "MO", "TC", "RU",
    "RH", "PD", "AG", "CD", "IN", "SN", "SB", "TE", "I ", "XE", "CS", "BA",
    "LA", "CE", "PR", "ND", "PM", "SM", "EU", "GD", "TB", "DY", "HO", "ER",
    "TM", "YB", "LU", "HF", "TA", "W ", "RE", "OS", "IR", "PT", "AU", "HG", "TL",
    "PB", "BI", "PO", "AT", "RN", "FR", "RA", "AC", "TH", "PA", "U ", "NP",
    "U6", "U5", "U1", "U2", "U3", "U4", "FM",
    "E ", "D "]

  /** `atoi` and `atof` of a C string. */
  datatype Readers = Readers(atoi: seq<char> -> int, atof: seq<char> -> real)

  // ---------------------------------------------------------------- C strings

  /** The characters of a C string: those before the first NUL. */
  function CString(s: seq<char>): (t: seq<char>)
    ensures |t| <= |s| && t == s[..|t|]
    ensures forall i :: 0 <= i < |t| ==> t[i] != '\0'
    ensures |t| < |s| ==> s[|t|] == '\0'
  {
    if |s| == 0 || s[0] == '\0' then [] else [s[0]] + CString(s[1..])
  }

  /** A buffer of `BufSize` characters. */
  predicate IsBuffer(buf: seq<char>) {
    |buf| == BufSize
  }

  /** What one successful `fgets(buf, 88, fd)` leaves: the line read and its NUL over the front
      of the buffer, the rest as it was. */
  function Fgets(buf: seq<char>, line: seq<char>): (b: seq<char>)
    requires IsBuffer(buf) && |line| < BufSize
    ensures IsBuffer(b) && b[..|line|] == line && b[|line|] == '\0' && b[|line| + 1..] == buf[|line| + 1..]
  {
    line + ['\0'] + buf[|line| + 1..]
  }

  /** `strncpy(dst, src, n)`: the C string of the n-character window, padded with NULs to n. */
  function Strncpy(w: seq<char>): (d: seq<char>)
    ensures |d| == |w| && d[..|CString(w)|] == CString(w)
    ensures forall i :: |CString(w)| <= i < |d| ==> d[i] == '\0'
  {
    CString(w) + seq(|w| - |CString(w)|, _ => '\0')
  }

  // ---------------------------------------------------------------- trim_spaces

  /** The index `trim_spaces` scans down to from i: one past the first non-space at or below i,
      or 1 when every position from 1 to i is a space. */
  function ScanDown(s: seq<char>, i: nat): (k: nat)
    requires i < |s|
    ensures 1 <= k <= i + 1
  {
    if i == 0 then 1 else if s[i] != ' ' then i + 1 else ScanDown(s, i - 1)
  }

  /** Where `trim_spaces(str, len)` puts its NUL. */
  function TrimEnd(s: seq<char>, len: nat): (k: nat)
    requires 1 <= len <= |s|
    ensures 1 <= k <= len
  {
    ScanDown(s, len - 1)
  }

  /** The NUL goes just after the last non-space among positions 1 to len - 1, or at 1 when
      they are all spaces; position 0 is never examined. */
  lemma {:induction false} ScanDownFacts(s: seq<char>, i: nat)
    requires i < |s|
    ensures forall m :: ScanDown(s, i) <= m <= i ==> s[m] == ' '
    ensures ScanDown(s, i) >= 2 ==> s[ScanDown(s, i) - 1] != ' '
    ensures ScanDown(s, i) == 1 <==> forall m :: 1 <= m <= i ==> s[m] == ' '
  {
    if i > 0 && s[i] == ' ' {
      ScanDownFacts(s, i - 1);
    }
  }

  /** `trim_spaces` over a character sequence. */
  function Trim(s: seq<char>, len: nat): (t: seq<char>)
    requires 1 <= len < |s|
    ensures |t| == |s|
  {
    s[TrimEnd(s, len) := '\0']
  }

  /** The trimmed string keeps the prefix up to the NUL and ends in a non-space unless it is the
      single unexamined character at position 0. */
  lemma TrimmedString(s: seq<char>, len: nat)
    requires 1 <= len < |s|
    requires forall i :: 0 <= i < TrimEnd(s, len) ==> s[i] != '\0'
    ensures CString(Trim(s, len)) == s[..TrimEnd(s, len)]
    ensures |CString(Trim(s, len))| >= 2 ==> CString(Trim(s, len))[|CString(Trim(s, len))| - 1] != ' '
  {
    ScanDownFacts(s, len - 1);
    var k := TrimEnd(s, len);
    var t := Trim(s, len);
    CStringAt(t, k);
  }

  /** A C string whose first NUL is at k is the k characters before it. */
  lemma {:induction false} CStringAt(s: seq<char>, k: nat)
    requires k < |s| && s[k] == '\0' && forall i :: 0 <= i < k ==> s[i] != '\0'
    ensures CString(s) == s[..k]
  {
    if k > 0 {
      CStringAt(s[1..], k - 1);
    }
  }

  /** `trim_spaces(str, len)`: exactly one NUL written, at TrimEnd, and nothing else changed. */
  method TrimSpaces(str: array<char>, len: nat)
    requires 1 <= len < str.Length
    modifies str
    ensures str[..] == Trim(old(str[..]), len)
  {
    ghost var s := str[..];
    var i := len - 1;
    while i > 0
      invariant 0 <= i <= len - 1
      invariant ScanDown(s, i) == TrimEnd(s, len) && str[..] == s
    {
      if str[i] != ' ' {
        str[i + 1] := '\0';
        return;
      }
      i := i - 1;
    }
    str[1] := '\0';
  }

  /** A field copied with `strncpy` into storage of n + 1 characters and trimmed: the C string
      the record field holds. The storage's last character is never read, as the NUL comes first. */
  function TrimmedField(buf: seq<char>, start: nat, n: nat): seq<char>
    requires 1 <= n && start + n <= |buf|
  {
    CString(Trim(Strncpy(buf[start..start + n]) + ['\0'], n))
  }

  /** `strncpy` of n characters from column start into a record field of n + 1 characters,
      then `trim_spaces(field, n)`. */
  method ReadField(buf: seq<char>, start: nat, n: nat) returns (f: seq<char>)
    requires 1 <= n && start + n <= |buf|
    ensures f == TrimmedField(buf, start, n)
  {
    var w := Strncpy(buf[start..start + n]) + ['\0'];
    var str := new char[n + 1](i requires 0 <= i < n + 1 => w[i]);
    assert str[..] == w;
    TrimSpaces(str, n);
    f := CString(str[..]);
  }

  // ---------------------------------------------------------------- element symbols

  /** The first index from l on whose symbol is t, or -1. */
  function SymbolFrom(t: seq<char>, l: nat): (r: int)
    requires l <= |Symbols|
    ensures r == -1 || l <= r < |Symbols|
    ensures r >= 0 ==> Symbols[r] == t && forall m :: l <= m < r ==> Symbols[m] != t
    ensures r == -1 <==> forall m :: l <= m < |Symbols| ==> Symbols[m] != t
    decreases |Symbols| - l
  {
    if l == |Symbols| then -1 else if Symbols[l] == t then l else SymbolFrom(t, l + 1)
  }

  /** The atomic number `strcmp` against `symb` finds for t. */
  function SymbolIndex(t: seq<char>): int {
    SymbolFrom(t, 0)
  }

  /** The search loop over `symb`. */
  method FindSymbol(t: seq<char>) returns (l: int)
    ensures l == SymbolIndex(t)
  {
    l := 0;
    while l < NSymb
      invariant 0 <= l <= NSymb == |Symbols|
      invariant SymbolFrom(t, l) == SymbolFrom(t, 0)
    {
      if t == Symbols[l] {
        return;
      }
      l := l + 1;
    }
    l := -1;
  }

  /** The element slot after the symbol search: the symbol's index, or the slot unchanged when
      the symbol is not in the table. */
  function SlotElement(t: seq<char>, prior: int): int {
    if SymbolIndex(t) >= 0 then SymbolIndex(t) else prior
  }

  /** The slot takes an atomic number only if the symbol is in the table, and the one that
      names it. */
  lemma SlotElementFacts(t: seq<char>, prior: int)
    ensures SlotElement(t, prior) != prior ==> 0 <= SlotElement(t, prior) < NSymb && Symbols[SlotElement(t, prior)] == t
    ensures (forall m :: 0 <= m < NSymb ==> Symbols[m] != t) ==> SlotElement(t, prior) == prior
  {
  }

  // ---------------------------------------------------------------- load_thermo

  /** A thermo line starting with '!' is a comment. */
  predicate ThermoComment(buf: seq<char>)
    requires IsBuffer(buf)
  {
    buf[0] == '!'
  }

  /** The symbol of slot k of the second header line. */
  function ThermoSymbol(buf: seq<char>, k: nat): seq<char>
    requires IsBuffer(buf) && k < 5
  {
    CString([buf[k * 8 + 10], buf[k * 8 + 11]])
  }

  /** The atom count of slot k: `(int) atof` of the 6 columns from k * 8 + 13, truncated. */
  function ThermoCount(rd: Readers, buf: seq<char>, k: nat): int
    requires IsBuffer(buf) && k < 5
  {
    Trunc(rd.atof(CString(buf[k * 8 + 13..k * 8 + 19])))
  }

  /** The element loop of `load_thermo`: five (element, count) slots. */
  method ThermoSlots(rd: Readers, buf: seq<char>, elem0: seq<int>) returns (elem: seq<int>, coef: seq<int>)
    requires IsBuffer(buf) && |elem0| == 5
    ensures |elem| == 5 && |coef| == 5
    ensures forall k :: 0 <= k < 5 ==> elem[k] == SlotElement(ThermoSymbol(buf, k), elem0[k]) && coef[k] == ThermoCount(rd, buf, k)
  {
    elem, coef := elem0, [0, 0, 0, 0, 0];
    for k := 0 to 5
      invariant |elem| == 5 && |coef| == 5
      invariant forall m :: 0 <= m < k ==> elem[m] == SlotElement(ThermoSymbol(buf, m), elem0[m]) && coef[m] == ThermoCount(rd, buf, m)
      invariant forall m :: k <= m < 5 ==> elem[m] == elem0[m]
    {
      var l := FindSymbol(ThermoSymbol(buf, k));
      if l >= 0 {
        elem := elem[k := l];
      }
      coef := coef[k := ThermoCount(rd, buf, k)];
    }
  }

  /** The state column: GAS iff column 51 holds '0'. */
  function StateColumn(buf: seq<char>): (st: State)
    requires IsBuffer(buf)
    ensures st == Gas <==> buf[51] == '0'
  {
    if buf[51] == '0' then Gas else Condensed
  }

  /** The flag loop of the heat rule: every (coef, elem) pair equals the previous record's. */
  method SameFormula(elem: seq<int>, coef: seq<int>, prev: Thermo) returns (l: bool)
    requires |elem| == 5 && |coef| == 5
    ensures l <==> elem == prev.elem && coef == prev.coef
  {
    l := true;
    for j := 0 to 5
      invariant l <==> elem[..j] == prev.elem[..j] && coef[..j] == prev.coef[..j]
    {
      assert elem[..j + 1] == elem[..j] + [elem[j]] && prev.elem[..j + 1] == prev.elem[..j] + [prev.elem[j]];
      assert coef[..j + 1] == coef[..j] + [coef[j]] && prev.coef[..j + 1] == prev.coef[..j] + [prev.coef[j]];
      if !(coef[j] == prev.coef[j] && elem[j] == prev.elem[j]) {
        l := false;
      }
    }
    assert elem[..5] == elem && coef[..5] == coef && prev.elem[..5] == prev.elem && prev.coef[..5] == prev.coef;
  }

  /** The heat of formation a record with data intervals gets, as intended: the field, or, when
      the field is 0 and record i - 1 exists and has the same formula, that record's heat. */
  function InheritedHeat(heat: real, elem: seq<int>, coef: seq<int>, list: seq<Thermo>, i: nat): real
    requires i <= |list|
  {
    if heat == 0.0 && i >= 1 && elem == list[i - 1].elem && coef == list[i - 1].coef then list[i - 1].heat else heat
  }

  /** The record `thermo_list + i - 1` designates: record i - 1 of the list, and for i = 0 the
      record before the start of the list, whatever the memory there holds (before). */
  function Previous(list: seq<Thermo>, i: nat, before: Thermo): Thermo
    requires i <= |list|
  {
    if i >= 1 then list[i - 1] else before
  }

  /** The heat rule of load.c:154-167 as written: when the field is 0 and the previous record has
      the same formula, that record's heat, with no test of i. */
  function WrittenHeat(heat: real, elem: seq<int>, coef: seq<int>, prev: Thermo): real {
    if heat == 0.0 && elem == prev.elem && coef == prev.coef then prev.heat else heat
  }

  /** For every record after the first, the rule as written is the guarded rule. */
  lemma WrittenHeatAgrees(heat: real, elem: seq<int>, coef: seq<int>, list: seq<Thermo>, i: nat, before: Thermo)
    requires 1 <= i <= |list|
    ensures WrittenHeat(heat, elem, coef, Previous(list, i, before)) == InheritedHeat(heat, elem, coef, list, i)
  {
  }

  /** As written, a first record with a zero heat field and the formula of the record before the
      list takes that record's heat, where the guarded rule keeps 0. */
  lemma FirstRecordReadsBefore(list: seq<Thermo>, before: Thermo)
    requires before.heat != 0.0
    ensures WrittenHeat(0.0, before.elem, before.coef, Previous(list, 0, before)) == before.heat
    ensures InheritedHeat(0.0, before.elem, before.coef, list, 0) == 0.0
  {
  }

  /** The guarded rule reads only records of the list, and changes the heat only when the field
      is 0, to the heat of a preceding record with the same formula. */
  lemma InheritedHeatFacts(heat: real, elem: seq<int>, coef: seq<int>, list: seq<Thermo>, i: nat)
    requires i <= |list|
    ensures heat != 0.0 ==> InheritedHeat(heat, elem, coef, list, i) == heat
    ensures i == 0 ==> InheritedHeat(heat, elem, coef, list, i) == heat
    ensures InheritedHeat(heat, elem, coef, list, i) != heat ==>
              i >= 1 && list[i - 1].elem == elem && list[i - 1].coef == coef && InheritedHeat(heat, elem, coef, list, i) == list[i - 1].heat
  {
  }

  /** The two header lines of record i of `load_thermo`: name and comments from the first;
      nint, id, the five element slots, the state, the weight and the heat column from the
      second. With no data intervals the heat column is the enthalpy; otherwise it is the heat
      of formation, inherited from the previous record by the rule as written, which for i = 0
      reads before, the record in front of the list. nint is `atoi` of the
      scratch buffer after only its first three characters were overwritten, so it reads on
      into what tmp0, the scratch buffer's earlier content, holds from column 3. Every other
      field keeps its value in prior. */
  method ReadHeader(rd: Readers, b1: seq<char>, b2: seq<char>, tmp0: seq<char>, prior: Thermo, list: seq<Thermo>, i: nat,
                    before: Thermo) returns (t: Thermo)
    requires IsBuffer(b1) && IsBuffer(b2) && |tmp0| == 32 && i <= |list|
    ensures t.name == TrimmedField(b1, 0, 18) && t.comments == TrimmedField(b1, 18, 55)
    ensures t.nint == rd.atoi(CString(b2[..3] + tmp0[3..])) && t.id == TrimmedField(b2, 3, 6)
    ensures forall k :: 0 <= k < 5 ==> t.elem[k] == SlotElement(ThermoSymbol(b2, k), prior.elem[k]) && t.coef[k] == ThermoCount(rd, b2, k)
    ensures t.state == StateColumn(b2) && t.weight == rd.atof(CString(b2[52..65]))
    ensures t.nint == 0 ==> t.enth == rd.atof(CString(b2[65..78])) && t.heat == prior.heat
    ensures t.nint != 0 ==> t.enth == prior.enth && t.heat == WrittenHeat(rd.atof(CString(b2[65..78])), t.elem, t.coef, Previous(list, i, before))
    ensures t.range == prior.range && t.ncoef == prior.ncoef && t.ex == prior.ex && t.param == prior.param
    ensures t.dho == prior.dho && t.temp == prior.temp
  {
    var name := ReadField(b1, 0, 18);
    var comments := ReadField(b1, 18, 55);
    var id := ReadField(b2, 3, 6);
    var elem, coef := ThermoSlots(rd, b2, prior.elem);
    var nint := rd.atoi(CString(b2[..3] + tmp0[3..]));
    var field := rd.atof(CString(b2[65..78]));
    var heat, enth := prior.heat, prior.enth;
    if nint == 0 {
      enth := field;
    } else {
      heat := field;
      if heat == 0.0 {
        var prev := if i >= 1 then list[i - 1] else before;
        var l := SameFormula(elem, coef, prev);
        if l {
          heat := prev.heat;
        }
      }
    }
    t := prior.(name := name, comments := comments, nint := nint, id := id, elem := elem, coef := coef,
                state := StateColumn(b2), weight := rd.atof(CString(b2[52..65])), heat := heat, enth := enth);
  }

  /** The line after the header of a record without data intervals: the temperature of the
      assigned enthalpy, `atof` of columns 1-10. Nothing else changes. */
  method ReadAssignedTemperature(rd: Readers, b3: seq<char>, t0: Thermo) returns (t: Thermo)
    requires IsBuffer(b3)
    ensures t == t0.(temp := rd.atof(CString(b3[1..11])))
  {
    t := t0.(temp := rd.atof(CString(b3[1..11])));
  }

  /** Exponent l of an interval: `atoi` of 5 columns from l * 5 + 23. */
  function Exponent(rd: Readers, b: seq<char>, l: nat): int
    requires IsBuffer(b) && l < 8
  {
    rd.atoi(CString(b[l * 5 + 23..l * 5 + 28]))
  }

  /** Coefficient l of an interval: five 16-column fields on its second line, then two from
      column 0 and two from column 48 of its third. */
  function Parameter(rd: Readers, b2: seq<char>, b3: seq<char>, l: nat): real
    requires IsBuffer(b2) && IsBuffer(b3) && l < 9
  {
    if l < 5 then rd.atof(CString(b2[l * 16..l * 16 + 16]))
    else if l < 7 then rd.atof(CString(b3[(l - 5) * 16..(l - 5) * 16 + 16]))
    else rd.atof(CString(b3[(l - 7) * 16 + 48..(l - 7) * 16 + 64]))
  }

  /** The three lines of data interval j: its range from columns 1-10 and 11-20, the number of
      coefficients from column 22, eight exponents and H(298.15) - H(0) from the first line, nine
      coefficients from the other two. Only interval j and dho change. */
  method ReadInterval(rd: Readers, b1: seq<char>, b2: seq<char>, b3: seq<char>, t0: Thermo, j: nat) returns (t: Thermo)
    requires IsBuffer(b1) && IsBuffer(b2) && IsBuffer(b3) && j < 4
    ensures t.range == t0.range[j := (rd.atof(CString(b1[1..11])), rd.atof(CString(b1[11..21])))]
    ensures t.ncoef == t0.ncoef[j := rd.atoi(CString([b1[22]]))]
    ensures |t.ex| == 4 && forall q :: 0 <= q < 4 && q != j ==> t.ex[q] == t0.ex[q]
    ensures forall l :: 0 <= l < 8 ==> t.ex[j][l] == Exponent(rd, b1, l)
    ensures t.dho == rd.atof(CString(b1[65..80]))
    ensures |t.param| == 4 && forall q :: 0 <= q < 4 && q != j ==> t.param[q] == t0.param[q]
    ensures forall l :: 0 <= l < 9 ==> t.param[j][l] == Parameter(rd, b2, b3, l)
    ensures t == t0.(range := t.range, ncoef := t.ncoef, ex := t.ex, dho := t.dho, param := t.param)
  {
    var ex := t0.ex[j];
    for l := 0 to 8
      invariant |ex| == 8 && forall m :: 0 <= m < l ==> ex[m] == Exponent(rd, b1, m)
    {
      ex := ex[l := rd.atoi(CString(b1[l * 5 + 23..l * 5 + 28]))];
    }
    var param := t0.param[j];
    for l := 0 to 5
      invariant |param| == 9 && forall m :: 0 <= m < l ==> param[m] == Parameter(rd, b2, b3, m)
    {
      param := param[l := rd.atof(CString(b2[l * 16..l * 16 + 16]))];
    }
    for l := 0 to 2
      invariant |param| == 9 && forall m :: 0 <= m < 5 + l ==> param[m] == Parameter(rd, b2, b3, m)
    {
      param := param[l + 5 := rd.atof(CString(b3[l * 16..l * 16 + 16]))];
    }
    for l := 0 to 2
      invariant |param| == 9 && forall m :: 0 <= m < 7 + l ==> param[m] == Parameter(rd, b2, b3, m)
    {
      param := param[l + 7 := rd.atof(CString(b3[l * 16 + 48..l * 16 + 64]))];
    }
    t := t0.(range := t0.range[j := (rd.atof(CString(b1[1..11])), rd.atof(CString(b1[11..21])))],
             ncoef := t0.ncoef[j := rd.atoi(CString([b1[22]]))], ex := t0.ex[j := ex],
             dho := rd.atof(CString(b1[65..80])), param := t0.param[j := param]);
  }

  // ---------------------------------------------------------------- load_propellant

  /** A propellant line starting with '*' or '+' is a comment. */
  predicate PropellantComment(buf: seq<char>)
    requires IsBuffer(buf)
  {
    buf[0] == '*' || buf[0] == '+'
  }

  /** The symbol of slot j: columns j * 5 + 42 and 43. */
  function PropellantSymbol(buf: seq<char>, j: nat): seq<char>
    requires IsBuffer(buf) && j < 6
  {
    CString([buf[j * 5 + 42], buf[j * 5 + 43]])
  }

  /** The atom count of slot j: `atoi` of columns j * 5 + 39 to 41. */
  function PropellantCount(rd: Readers, buf: seq<char>, j: nat): int
    requires IsBuffer(buf) && j < 6
  {
    rd.atoi(CString([buf[j * 5 + 39], buf[j * 5 + 40], buf[j * 5 + 41]]))
  }

  /** The record `load_propellant` reads from one line over the record prior in its slot: the
      name from column 9, six (count, symbol) slots of 3 + 2 columns from column 39, the heat
      `atoi` of columns 69-73 in calories converted to joules and truncated to an int, and the
      density `atof` of columns 75-79 in lb/in^3 converted to g/cm^3. */
  function ParsePropellant(rd: Readers, buf: seq<char>, prior: Propellant): (p: Propellant)
    requires IsBuffer(buf)
  {
    PropellantRec(
      TrimmedField(buf, 9, 29),
      seq(6, j requires 0 <= j < 6 => SlotElement(PropellantSymbol(buf, j), prior.elem[j])),
      seq(6, j requires 0 <= j < 6 => PropellantCount(rd, buf, j)),
      Trunc(rd.atoi(CString(buf[69..74])) as real * CalToJoule),
      rd.atof(CString(buf[75..80])) * ClbsToCcm)
  }

  /** The body of `load_propellant` for one record line: the name, the six slots (each a
      symbol search), the heat and the density. */
  method ReadPropellant(rd: Readers, buf: seq<char>, prior: Propellant) returns (p: Propellant)
    requires IsBuffer(buf)
    ensures p == ParsePropellant(rd, buf, prior)
  {
    var name := ReadField(buf, 9, 29);
    var elem, coef := prior.elem, prior.coef;
    for j := 0 to 6
      invariant |elem| == 6 && |coef| == 6
      invariant forall m :: 0 <= m < j ==> elem[m] == SlotElement(PropellantSymbol(buf, m), prior.elem[m]) && coef[m] == PropellantCount(rd, buf, m)
      invariant forall m :: j <= m < 6 ==> elem[m] == prior.elem[m]
    {
      coef := coef[j := PropellantCount(rd, buf, j)];
      var k := FindSymbol(PropellantSymbol(buf, j));
      if k >= 0 {
        elem := elem[j := k];
      }
    }
    p := PropellantRec(name, elem, coef, Trunc(rd.atoi(CString(buf[69..74])) as real * CalToJoule),
                       rd.atof(CString(buf[75..80])) * ClbsToCcm);
  }

  /** The state of `load_propellant` between lines: the list, the records read, the buffer. */
  datatype Loading = Loading(list: seq<Propellant>, count: nat, buf: seq<char>)

  /** One line: read into the buffer; a record line fills slot count and advances it. */
  function LoadLine(rd: Readers, s: Loading, line: seq<char>): (s': Loading)
    requires IsBuffer(s.buf) && |line| < BufSize
    ensures IsBuffer(s'.buf) && |s'.list| == |s.list|
  {
    var b := Fgets(s.buf, line);
    if PropellantComment(b) || s.count >= |s.list| then Loading(s.list, s.count, b)
    else Loading(s.list[s.count := ParsePropellant(rd, b, s.list[s.count])], s.count + 1, b)
  }

  predicate Lines(lines: seq<seq<char>>) {
    forall i :: 0 <= i < |lines| ==> |lines[i]| < BufSize
  }

  /** The state after the given lines, from s. */
  function LoadLines(rd: Readers, s: Loading, lines: seq<seq<char>>): (s': Loading)
    requires IsBuffer(s.buf) && Lines(lines)
    ensures IsBuffer(s'.buf) && |s'.list| == |s.list|
  {
    if |lines| == 0 then s else LoadLine(rd, LoadLines(rd, s, lines[..|lines| - 1]), lines[|lines| - 1])
  }

  /** A line is a record line when its first character is neither '*' nor '+' (an empty line
      leaves the buffer's first character a NUL, so it counts too). */
  predicate RecordLine(line: seq<char>) {
    !(|line| > 0 && (line[0] == '*' || line[0] == '+'))
  }

  /** The number of record lines. */
  function Records(lines: seq<seq<char>>): nat {
    if |lines| == 0 then 0 else Records(lines[..|lines| - 1]) + (if RecordLine(lines[|lines| - 1]) then 1 else 0)
  }

  /** A comment line changes only the buffer; a record line writes exactly the next slot. */
  lemma LoadLineFacts(rd: Readers, s: Loading, line: seq<char>)
    requires IsBuffer(s.buf) && |line| < BufSize
    ensures !RecordLine(line) ==> LoadLine(rd, s, line).list == s.list && LoadLine(rd, s, line).count == s.count
    ensures RecordLine(line) && s.count < |s.list| ==> LoadLine(rd, s, line).count == s.count + 1
    ensures RecordLine(line) && s.count < |s.list| ==> LoadLine(rd, s, line).list == s.list[s.count := ParsePropellant(rd, Fgets(s.buf, line), s.list[s.count])]
  {
    var b := Fgets(s.buf, line);
    if |line| == 0 {
      assert b[0] == '\0';
    } else {
      assert b[0] == line[0];
    }
  }

  /** `load_propellant` over the lines of the file: every record line, in order, fills the next
      slot of the list, and the number of records is returned. */
  method LoadPropellant(rd: Readers, lines: seq<seq<char>>, list: array<Propellant>, buf0: seq<char>) returns (count: int)
    requires IsBuffer(buf0) && Lines(lines) && Records(lines) <= list.Length
    modifies list
    ensures count == Records(lines)
    ensures LoadLines(rd, Loading(old(list[..]), 0, buf0), lines) == Loading(list[..], count, LoadLines(rd, Loading(old(list[..]), 0, buf0), lines).buf)
  {
    ghost var s0 := Loading(list[..], 0, buf0);
    var buf := buf0;
    var i := 0;
    for m := 0 to |lines|
      invariant IsBuffer(buf)
      invariant LoadLines(rd, s0, lines[..m]) == Loading(list[..], i, buf)
      invariant i == Records(lines[..m])
    {
      LoadStep(rd, s0, lines, m);
      RecordsPrefix(lines, m + 1);
      LoadLineFacts(rd, Loading(list[..], i, buf), lines[m]);
      buf := Fgets(buf, lines[m]);
      if !PropellantComment(buf) {
        var p := ReadPropellant(rd, buf, list[i]);
        list[i] := p;
        i := i + 1;
      }
    }
    assert lines[..|lines|] == lines;
    count := i;
  }

  /** One more line is one more LoadLine step and adds its record to the count. */
  lemma LoadStep(rd: Readers, s0: Loading, lines: seq<seq<char>>, m: nat)
    requires IsBuffer(s0.buf) && Lines(lines) && m < |lines|
    ensures LoadLines(rd, s0, lines[..m + 1]) == LoadLine(rd, LoadLines(rd, s0, lines[..m]), lines[m])
    ensures Records(lines[..m + 1]) == Records(lines[..m]) + (if RecordLine(lines[m]) then 1 else 0)
  {
    assert lines[..m + 1][..m] == lines[..m];
  }

  lemma {:induction false} RecordsPrefix(lines: seq<seq<char>>, m: nat)
    requires m <= |lines|
    ensures Records(lines[..m]) <= Records(lines)
    decreases |lines| - m
  {
    if m < |lines| {
      RecordsPrefix(lines, m + 1);
      assert lines[..m + 1][..m] == lines[..m];
    } else {
      assert lines[..m] == lines;
    }
  }
}
