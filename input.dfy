/** cpropep.c: `load_input`, the reader of the problem file. Lines are read in turn and a
    section variable says how each is read: in the option section a keyword line chooses the
    problem and sets the temperature, the pressure and the exit pressure, and a line starting
    with "Propellant" opens the propellant section; there, each '+' line appends a component to
    the composition. The numbers `sscanf`, `atoi` and `atof` produce are given functions of the
    text they read. */
module Input {
  import opened Numeric
  import opened Species
  import opened Equilibrium
  import opened Load

  /** p_type: the analysis the problem file asks for. */
  datatype Problem = SimpleEquilibrium | FindFlameTemperature | FrozenPerformance | EquilibriumPerformance | AllPerformance

  datatype Section = Options | Propellants

  datatype Option<T> = None | Some(value: T)

  /** The size of `buffer`: `fgets` stores at most 127 characters of a line. */
  const LineSize: nat := 128

  /** The doubles `sscanf(buffer, "%s %lf %lf %lf", ...)` converts after the first word, in
      order; it stops at the first that fails, so there may be fewer than three. */
  type Scanner = seq<char> -> seq<real>

  // ---------------------------------------------------------------- text

  predicate StartsWith(text: seq<char>, pre: seq<char>) {
    |pre| <= |text| && text[..|pre|] == pre
  }

  /** The space characters of `isspace`, which end a `%s` word. */
  predicate IsSpace(c: char) {
    c == ' ' || c == '\t' || c == '\n' || c == '\r' || c == '\U{0B}' || c == '\U{0C}'
  }

  /** A line that starts blank: ' ', '\n', or nothing before the NUL. */
  predicate Blank(text: seq<char>) {
    |text| == 0 || text[0] == ' ' || text[0] == '\n'
  }

  /** The text after the leading spaces. */
  function SkipSpaces(s: seq<char>): (t: seq<char>)
    ensures |t| <= |s|
  {
    if |s| > 0 && IsSpace(s[0]) then SkipSpaces(s[1..]) else s
  }

  /** SkipSpaces drops exactly the leading spaces: what it keeps is a suffix that does not
      start with a space, and everything before that suffix is a space. */
  lemma {:induction false} SkipSpacesFacts(s: seq<char>)
    ensures var t := SkipSpaces(s);
            && t == s[|s| - |t|..]
            && (|t| > 0 ==> !IsSpace(t[0]))
            && forall i :: 0 <= i < |s| - |t| ==> IsSpace(s[i])
    decreases |s|
  {
    if |s| > 0 && IsSpace(s[0]) {
      SkipSpacesFacts(s[1..]);
      var t := SkipSpaces(s);
      forall i | 0 <= i < |s| - |t|
        ensures IsSpace(s[i])
      {
        if i > 0 {
          assert s[i] == s[1..][i - 1];
        }
      }
    }
  }

  /** The run of non-spaces at the start of s. */
  function Nonspaces(s: seq<char>): (w: seq<char>)
    ensures |w| <= |s|
  {
    if |s| > 0 && !IsSpace(s[0]) then [s[0]] + Nonspaces(s[1..]) else []
  }

  /** Nonspaces is the longest prefix of s without a space: a prefix, all non-spaces, and
      followed by a space when it does not reach the end. */
  lemma {:induction false} NonspacesFacts(s: seq<char>)
    ensures var w := Nonspaces(s);
            && w == s[..|w|]
            && (forall i :: 0 <= i < |w| ==> !IsSpace(w[i]))
            && (|w| < |s| ==> IsSpace(s[|w|]))
    decreases |s|
  {
    if |s| > 0 && !IsSpace(s[0]) {
      NonspacesFacts(s[1..]);
      var w := Nonspaces(s);
      assert w == [s[0]] + Nonspaces(s[1..]);
      forall i | 0 <= i < |w|
        ensures !IsSpace(w[i])
      {
        if i > 0 {
          assert w[i] == Nonspaces(s[1..])[i - 1];
        }
      }
      if |w| < |s| {
        assert s[|w|] == s[1..][|w| - 1];
      }
      assert s[..|w|] == [s[0]] + s[1..][..|w| - 1];
    }
  }

  /** The first `%s` word of s (empty when s holds only spaces) and the text after it. */
  function Word(s: seq<char>): seq<char> {
    Nonspaces(SkipSpaces(s))
  }

  function AfterWord(s: seq<char>): seq<char> {
    SkipSpaces(s)[|Word(s)|..]
  }

  /** A word is nonempty exactly when the text holds a non-space, and it is then that text's
      first non-space run. */
  lemma WordFacts(s: seq<char>)
    ensures |Word(s)| > 0 <==> exists i :: 0 <= i < |s| && !IsSpace(s[i])
    ensures |s| > 0 && !IsSpace(s[0]) ==> |Word(s)| > 0 && Word(s)[0] == s[0]
  {
    var t := SkipSpaces(s);
    SkipSpacesFacts(s);
    NonspacesFacts(t);
    if exists i :: 0 <= i < |s| && !IsSpace(s[i]) {
      var i :| 0 <= i < |s| && !IsSpace(s[i]);
      assert |t| > 0;
    }
    if |Word(s)| > 0 {
      assert !IsSpace(s[|s| - |t|]);
    }
  }

  /** The problem of a keyword line: the first two characters. */
  function Keyword(text: seq<char>): Option<Problem> {
    if StartsWith(text, "TP") then Some(SimpleEquilibrium)
    else if StartsWith(text, "HP") then Some(FindFlameTemperature)
    else if StartsWith(text, "FR") then Some(FrozenPerformance)
    else if StartsWith(text, "EQ") then Some(EquilibriumPerformance)
    else if StartsWith(text, "PE") then Some(AllPerformance)
    else None
  }

  // ---------------------------------------------------------------- the reader's state

  /** What `load_input` keeps between lines: the section, the problem, and the temperature,
      pressure and exit pressure last scanned (tmp1 and tmp2 are locals that a line with too
      few numbers leaves as they were); qt, the quantity word of the last '+' line, which a '+'
      line with no second word reads again; the temperature and pressure of the equilibrium;
      the components appended. */
  datatype Reading = Reading(section: Section, p: Problem, tmp1: real, tmp2: real, pe: real, qt: seq<char>,
                             T: real, P: real, added: seq<(int, real)>)

  /** A keyword line: the problem, then T = the first number and P = the second, the exit
      pressure the third, each only if scanned. */
  function OptionLine(scan: Scanner, s: Reading, text: seq<char>, q: Problem): (s': Reading)
    ensures s'.section == s.section && s'.added == s.added && s'.qt == s.qt
  {
    var nums := scan(text);
    var tmp1 := if |nums| > 0 then nums[0] else s.tmp1;
    var tmp2 := if |nums| > 1 then nums[1] else s.tmp2;
    var pe := if |nums| > 2 then nums[2] else s.pe;
    s.(p := q, tmp1 := tmp1, tmp2 := tmp2, pe := pe, T := tmp1, P := tmp2)
  }

  /** The unit of a quantity word: its last character. */
  function Unit(qt: seq<char>): char
    requires |qt| > 0
  {
    qt[|qt| - 1]
  }

  /** The quantity word with its unit overwritten by '\n', as `atof` reads it. */
  function Amount(qt: seq<char>): (a: seq<char>)
    requires |qt| > 0
    ensures |a| == |qt| && a[..|qt| - 1] == qt[..|qt| - 1] && a[|qt| - 1] == '\n'
  {
    qt[..|qt| - 1] + ['\n']
  }

  /** A '+' line: the propellant index is `atoi` of the first word after its '+', the quantity
      the second word; grams are turned into moles with the propellant's molar mass, moles are
      taken as they are, and any other unit adds nothing. */
  function ComponentLine(rd: Readers, molar: int -> real, s: Reading, text: seq<char>): (s': Reading)
    ensures s'.section == s.section && |s.added| <= |s'.added| <= |s.added| + 1 && s'.added[..|s.added|] == s.added
  {
    var num := Word(text);
    var qt := if |Word(AfterWord(text))| > 0 then Word(AfterWord(text)) else s.qt;
    if |num| == 0 || |qt| == 0 then s.(qt := qt)
    else
      var extra := Component(rd, molar, num, qt);
      assert (s.added + extra)[..|s.added|] == s.added;
      s.(qt := Amount(qt), added := s.added + extra)
  }

  /** The component a '+' line with first word num and quantity word qt appends: none, or the
      propellant `atoi` reads after the '+' with its amount in moles. */
  function Component(rd: Readers, molar: int -> real, num: seq<char>, qt: seq<char>): (extra: seq<(int, real)>)
    requires |num| > 0 && |qt| > 0
    ensures |extra| <= 1
  {
    var sp := rd.atoi(num[1..]);
    var m := rd.atof(Amount(qt));
    if Unit(qt) == 'g' then [(sp, Quot(m, molar(sp)))]
    else if Unit(qt) == 'm' then [(sp, m)]
    else []
  }

  /** One line of the problem file, as `fgets` stored it. */
  function ReadLine(rd: Readers, scan: Scanner, molar: int -> real, s: Reading, line: seq<char>): (s': Reading)
    ensures |s.added| <= |s'.added| <= |s.added| + 1 && s'.added[..|s.added|] == s.added
  {
    var text := CString(line);
    match s.section
    case Options =>
      if Blank(text) then s
      else if StartsWith(text, "Propellant") then s.(section := Propellants)
      else if Keyword(text).Some? then OptionLine(scan, s, text, Keyword(text).value)
      else s
    case Propellants =>
      if StartsWith(text, "+") then ComponentLine(rd, molar, s, text)
      else if StartsWith(text, "#") then s
      else if Blank(text) then s.(section := Options)
      else s
  }

  /** The state after the given lines. */
  function ReadLines(rd: Readers, scan: Scanner, molar: int -> real, s: Reading, lines: seq<seq<char>>): Reading {
    if |lines| == 0 then s else ReadLine(rd, scan, molar, ReadLines(rd, scan, molar, s, lines[..|lines| - 1]), lines[|lines| - 1])
  }

  // ---------------------------------------------------------------- properties of one line

  /** In the option section a blank line changes nothing, and a "Propellant" line only opens
      the propellant section. */
  lemma OptionSectionMoves(rd: Readers, scan: Scanner, molar: int -> real, s: Reading, line: seq<char>)
    requires s.section == Options
    ensures Blank(CString(line)) ==> ReadLine(rd, scan, molar, s, line) == s
    ensures StartsWith(CString(line), "Propellant") ==> ReadLine(rd, scan, molar, s, line) == s.(section := Propellants)
  {
    var text := CString(line);
    if StartsWith(text, "Propellant") {
      assert text[0] == 'P';
    }
  }

  /** A keyword line chooses its problem and sets T and P from the numbers it holds, keeping
      the section and the components; a line with no keyword changes nothing. */
  lemma KeywordLine(rd: Readers, scan: Scanner, molar: int -> real, s: Reading, line: seq<char>)
    requires s.section == Options && !Blank(CString(line)) && !StartsWith(CString(line), "Propellant")
    ensures Keyword(CString(line)) == None ==> ReadLine(rd, scan, molar, s, line) == s
    ensures Keyword(CString(line)).Some? ==>
              var s' := ReadLine(rd, scan, molar, s, line);
              var nums := scan(CString(line));
              s'.p == Keyword(CString(line)).value && s'.section == Options && s'.added == s.added && s'.qt == s.qt
              && (|nums| >= 2 ==> s'.T == nums[0] && s'.P == nums[1])
              && (|nums| >= 3 ==> s'.pe == nums[2])
              && (|nums| < 3 ==> s'.pe == s.pe)
  {
  }

  /** The five keywords name the five problems. */
  lemma KeywordsChoose()
    ensures Keyword("TP 3000 20") == Some(SimpleEquilibrium) && Keyword("HP") == Some(FindFlameTemperature)
    ensures Keyword("FR") == Some(FrozenPerformance) && Keyword("EQ") == Some(EquilibriumPerformance)
    ensures Keyword("PE") == Some(AllPerformance) && Keyword("Propellant") == None && Keyword("T") == None
  {
    assert "TP 3000 20"[..2] == "TP";
    assert "HP"[..2] == "HP" && "FR"[..2] == "FR" && "EQ"[..2] == "EQ" && "PE"[..2] == "PE";
    assert "Propellant"[..2] == "Pr";
  }

  /** In the propellant section: a '#' line changes nothing, a blank line goes back to the
      option section, and any other line that is not a '+' line changes nothing. */
  lemma PropellantSectionMoves(rd: Readers, scan: Scanner, molar: int -> real, s: Reading, line: seq<char>)
    requires s.section == Propellants && !StartsWith(CString(line), "+")
    ensures StartsWith(CString(line), "#") ==> ReadLine(rd, scan, molar, s, line) == s
    ensures Blank(CString(line)) ==> ReadLine(rd, scan, molar, s, line) == s.(section := Options)
    ensures !StartsWith(CString(line), "#") && !Blank(CString(line)) ==> ReadLine(rd, scan, molar, s, line) == s
  {
    var text := CString(line);
    if StartsWith(text, "#") {
      assert text[0] == '#';
    }
  }

  /** A '+' line with a quantity word of unit 'g' or 'm' appends exactly one component, the
      propellant after the '+' with its amount in moles; one with another unit appends none.
      Nothing but the quantity word and the components changes. */
  lemma ComponentLineFacts(rd: Readers, scan: Scanner, molar: int -> real, s: Reading, line: seq<char>, qt: seq<char>)
    requires s.section == Propellants && StartsWith(CString(line), "+")
    requires qt == Word(AfterWord(CString(line))) && |qt| > 0
    ensures var s' := ReadLine(rd, scan, molar, s, line);
            var sp := rd.atoi(Word(CString(line))[1..]);
            && s' == s.(qt := Amount(qt), added := s'.added)
            && (Unit(qt) == 'm' ==> s'.added == s.added + [(sp, rd.atof(Amount(qt)))])
            && (Unit(qt) == 'g' ==> s'.added == s.added + [(sp, Quot(rd.atof(Amount(qt)), molar(sp)))])
            && (Unit(qt) != 'm' && Unit(qt) != 'g' ==> s'.added == s.added)
  {
    var text := CString(line);
    PlusWord(text);
    assert ReadLine(rd, scan, molar, s, line) == ComponentLine(rd, molar, s, text);
  }

  /** The propellant after '+' is what follows the '+' in the first word. */
  lemma PlusWord(text: seq<char>)
    requires StartsWith(text, "+")
    ensures |Word(text)| > 0 && Word(text)[0] == '+'
  {
    assert text[0] == '+';
    WordFacts(text);
  }

  // ---------------------------------------------------------------- properties of a file

  /** Reading more lines only appends components: those of a prefix of the file come first, in
      file order, and are never changed. */
  lemma {:induction false} AddedGrows(rd: Readers, scan: Scanner, molar: int -> real, s: Reading, lines: seq<seq<char>>, k: nat)
    requires k <= |lines|
    ensures var a := ReadLines(rd, scan, molar, s, lines[..k]).added;
            var b := ReadLines(rd, scan, molar, s, lines).added;
            |a| <= |b| && b[..|a|] == a
    decreases |lines| - k
  {
    if k == |lines| {
      assert lines[..k] == lines;
    } else {
      AddedGrows(rd, scan, molar, s, lines, k + 1);
      assert lines[..k + 1][..k] == lines[..k];
    }
  }

  /** The state after k + 1 lines is ReadLine's of line k after the first k, and it has no more
      components than the state after all of them. */
  lemma ReadLinesStep(rd: Readers, scan: Scanner, molar: int -> real, s: Reading, lines: seq<seq<char>>, k: nat)
    requires k < |lines|
    ensures ReadLines(rd, scan, molar, s, lines[..k + 1]) == ReadLine(rd, scan, molar, ReadLines(rd, scan, molar, s, lines[..k]), lines[k])
    ensures |ReadLines(rd, scan, molar, s, lines[..k + 1]).added| <= |ReadLines(rd, scan, molar, s, lines).added|
  {
    assert lines[..k + 1][..k] == lines[..k];
    AddedGrows(rd, scan, molar, s, lines, k + 1);
  }

  /** Components are appended only in the propellant section: a file that never reaches a
      "Propellant" line appends none. */
  lemma {:induction false} NoPropellantsNoComponents(rd: Readers, scan: Scanner, molar: int -> real, s: Reading, lines: seq<seq<char>>)
    requires s.section == Options
    requires forall i :: 0 <= i < |lines| ==> !StartsWith(CString(lines[i]), "Propellant")
    ensures ReadLines(rd, scan, molar, s, lines).section == Options
    ensures ReadLines(rd, scan, molar, s, lines).added == s.added
  {
    if |lines| > 0 {
      NoPropellantsNoComponents(rd, scan, molar, s, lines[..|lines| - 1]);
    }
  }

  // ---------------------------------------------------------------- load_input

  /** The reading state at the start: option section, with the problem, the exit pressure,
      the temperature and pressure of e and whatever tmp1, tmp2 and qt hold beforehand. */
  function Start(p0: Problem, pe0: real, tmp1: real, tmp2: real, qt: seq<char>, T: real, P: real): Reading {
    Reading(Options, p0, tmp1, tmp2, pe0, qt, T, P, [])
  }

  /** The body of the loop of `load_input` for a line of the option section. */
  method OptionStep(e: Equilibrium, scan: Scanner, text: seq<char>, p: Problem, tmp1: real, tmp2: real, pe: real)
    returns (section': Section, p': Problem, tmp1': real, tmp2': real, pe': real)
    requires e.Valid()
    modifies e
    ensures e.Valid() && e.c.Components() == old(e.c.Components())
    ensures e.n == old(e.n) && e.nElement == old(e.nElement)
    ensures var s := Reading(Options, p, tmp1, tmp2, pe, [], old(e.T), old(e.P), []);
            var s' := if Blank(text) then s
                      else if StartsWith(text, "Propellant") then s.(section := Propellants)
                      else if Keyword(text).Some? then OptionLine(scan, s, text, Keyword(text).value)
                      else s;
            Reading(section', p', tmp1', tmp2', pe', [], e.T, e.P, []) == s'
  {
    section', p', tmp1', tmp2', pe' := Options, p, tmp1, tmp2, pe;
    if Blank(text) {
    } else if StartsWith(text, "Propellant") {
      section' := Propellants;
    } else {
      var q := Keyword(text);
      if q.Some? {
        p' := q.value;
        var nums := scan(text);
        if |nums| > 0 { tmp1' := nums[0]; }
        if |nums| > 1 { tmp2' := nums[1]; }
        if |nums| > 2 { pe' := nums[2]; }
        e.SetState(tmp1', tmp2');
      }
    }
  }

  /** Appends the component of a '+' line with first word num and quantity word q, if its unit
      is 'g' or 'm', with `add_in_propellant`. */
  method AddComponent(e: Equilibrium, rd: Readers, molar: int -> real, num: seq<char>, q: seq<char>)
    returns (ghost extra: seq<(int, real)>)
    requires e.Valid() && |num| > 0 && |q| > 0
    requires e.c.ncomp + |Component(rd, molar, num, q)| <= MaxComp
    modifies e.c, e.c.molecule, e.c.coef
    ensures e.Valid()
    ensures extra == Component(rd, molar, num, q) && e.c.Components() == old(e.c.Components()) + extra
  {
    var sp := rd.atoi(num[1..]);
    var m := rd.atof(Amount(q));
    extra := Component(rd, molar, num, q);
    if Unit(q) == 'g' {
      e.AddInPropellant(sp, Quot(m, molar(sp)));
    } else if Unit(q) == 'm' {
      e.AddInPropellant(sp, m);
    } else {
      assert e.c.Components() + extra == e.c.Components();
    }
  }

  /** The body of the loop of `load_input` for a '+' line: the component of ComponentLine, if
      any, appended with `add_in_propellant`. */
  method ComponentStep(e: Equilibrium, rd: Readers, molar: int -> real, text: seq<char>, qt: seq<char>, ghost s: Reading)
    returns (qt': seq<char>, ghost extra: seq<(int, real)>)
    requires e.Valid() && s.qt == qt
    requires e.c.ncomp + |ComponentLine(rd, molar, s, text).added| - |s.added| <= MaxComp
    modifies e.c, e.c.molecule, e.c.coef
    ensures e.Valid()
    ensures ComponentLine(rd, molar, s, text) == s.(qt := qt', added := s.added + extra)
    ensures e.c.Components() == old(e.c.Components()) + extra
  {
    var num := Word(text);
    var q := qt;
    var second := Word(AfterWord(text));
    if |second| > 0 {
      q := second;
    }
    qt', extra := q, [];
    assert s.added + extra == s.added;
    if |num| > 0 && |q| > 0 {
      qt' := Amount(q);
      extra := AddComponent(e, rd, molar, num, q);
    }
  }

  /** The body of the loop of `load_input` for one line, in the section given: the reading
      state after it is ReadLine's, and the component ReadLine adds, if any, is appended. */
  method LineStep(e: Equilibrium, rd: Readers, scan: Scanner, molar: int -> real, line: seq<char>,
                  section: Section, p: Problem, tmp1: real, tmp2: real, pe: real, qt: seq<char>, ghost added: seq<(int, real)>)
    returns (section': Section, p': Problem, tmp1': real, tmp2': real, pe': real, qt': seq<char>, ghost extra: seq<(int, real)>)
    requires e.Valid()
    requires e.c.ncomp + |ReadLine(rd, scan, molar, Reading(section, p, tmp1, tmp2, pe, qt, e.T, e.P, added), line).added| - |added| <= MaxComp
    modifies e, e.c, e.c.molecule, e.c.coef
    ensures e.Valid() && e.n == old(e.n) && e.nElement == old(e.nElement)
    ensures Reading(section', p', tmp1', tmp2', pe', qt', e.T, e.P, added + extra) == ReadLine(rd, scan, molar, Reading(section, p, tmp1, tmp2, pe, qt, old(e.T), old(e.P), added), line)
    ensures e.c.Components() == old(e.c.Components()) + extra
  {
    section', p', tmp1', tmp2', pe', qt', extra := section, p, tmp1, tmp2, pe, qt, [];
    var text := CString(line);
    match section
    case Options =>
      section', p', tmp1', tmp2', pe' := OptionStep(e, scan, text, p, tmp1, tmp2, pe);
    case Propellants =>
      if StartsWith(text, "+") {
        qt', extra := ComponentStep(e, rd, molar, text, qt, Reading(section, p, tmp1, tmp2, pe, qt, e.T, e.P, added));
      } else if StartsWith(text, "#") {
      } else if Blank(text) {
        section' := Options;
      }
  }

  /** One turn of the loop of `load_input`: from the state after lines[..k] to the state after
      lines[..k + 1], appending to the composition c0 + added what line k adds. */
  method LoadStep(e: Equilibrium, rd: Readers, scan: Scanner, molar: int -> real, ghost s0: Reading, lines: seq<seq<char>>, k: nat,
                  ghost c0: seq<(int, real)>, section: Section, p: Problem, tmp1: real, tmp2: real, pe: real, qt: seq<char>,
                  ghost added: seq<(int, real)>)
    returns (section': Section, p': Problem, tmp1': real, tmp2': real, pe': real, qt': seq<char>, ghost added': seq<(int, real)>)
    requires e.Valid() && k < |lines|
    requires ReadLines(rd, scan, molar, s0, lines[..k]) == Reading(section, p, tmp1, tmp2, pe, qt, e.T, e.P, added)
    requires e.c.Components() == c0 + added && |c0| + |ReadLines(rd, scan, molar, s0, lines).added| <= MaxComp
    modifies e, e.c, e.c.molecule, e.c.coef
    ensures e.Valid() && e.n == old(e.n) && e.nElement == old(e.nElement)
    ensures ReadLines(rd, scan, molar, s0, lines[..k + 1]) == Reading(section', p', tmp1', tmp2', pe', qt', e.T, e.P, added')
    ensures e.c.Components() == c0 + added'
  {
    ghost var r := Reading(section, p, tmp1, tmp2, pe, qt, e.T, e.P, added);
    ReadLinesStep(rd, scan, molar, s0, lines, k);
    assert ReadLines(rd, scan, molar, s0, lines[..k + 1]) == ReadLine(rd, scan, molar, r, lines[k]);
    ghost var extra;
    section', p', tmp1', tmp2', pe', qt', extra := LineStep(e, rd, scan, molar, lines[k], section, p, tmp1, tmp2, pe, qt, added);
    added' := added + extra;
  }

  /** `load_input` over the lines `fgets` returns: the problem and exit pressure chosen, T and P
      set through `set_state`, and the components appended through `add_in_propellant`, all as
      ReadLines gives. The file must not ask for more components than the composition holds. */
  method LoadInput(e: Equilibrium, lines: seq<seq<char>>, rd: Readers, scan: Scanner, molar: int -> real,
                   p0: Problem, pe0: real, tmp10: real, tmp20: real, qt0: seq<char>) returns (p: Problem, pe: real)
    requires e.Valid() && forall i :: 0 <= i < |lines| ==> |lines[i]| < LineSize
    requires e.c.ncomp + |ReadLines(rd, scan, molar, Start(p0, pe0, tmp10, tmp20, qt0, e.T, e.P), lines).added| <= MaxComp
    modifies e, e.c, e.c.molecule, e.c.coef
    ensures e.Valid()
    ensures var r := ReadLines(rd, scan, molar, Start(p0, pe0, tmp10, tmp20, qt0, old(e.T), old(e.P)), lines);
            p == r.p && pe == r.pe && e.T == r.T && e.P == r.P
            && e.c.Components() == old(e.c.Components()) + r.added
    ensures e.n == old(e.n) && e.nElement == old(e.nElement)
  {
    ghost var s0 := Start(p0, pe0, tmp10, tmp20, qt0, e.T, e.P);
    ghost var c0 := e.c.Components();
    ghost var added: seq<(int, real)> := [];
    p, pe := p0, pe0;
    var section, tmp1, tmp2, qt := Options, tmp10, tmp20, qt0;
    for k := 0 to |lines|
      invariant e.Valid() && e.n == old(e.n) && e.nElement == old(e.nElement)
      invariant ReadLines(rd, scan, molar, s0, lines[..k]) == Reading(section, p, tmp1, tmp2, pe, qt, e.T, e.P, added)
      invariant e.c.Components() == c0 + added && |c0| + |ReadLines(rd, scan, molar, s0, lines).added| <= MaxComp
    {
      section, p, tmp1, tmp2, pe, qt, added := LoadStep(e, rd, scan, molar, s0, lines, k, c0, section, p, tmp1, tmp2, pe, qt, added);
    }
    assert lines[..|lines|] == lines;
  }
}
