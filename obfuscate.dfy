/** `obfuscate_code` (confuse.py:91-115): as written, and with its emptiness
    test the right way round.

    The random draws are parameters: `random.choice` receives the index it
    picks, `random.choices` the alphabet index of every letter it draws. */
module Obfuscate {
  import opened Common
  import opened Text
  import opened Patterns

  /** `string.ascii_lowercase`. */
  const Lowercase: string := "abcdefghijklmnopqrstuvwxyz"

  predicate IsLowercaseName(w: string) {
    forall i :: 0 <= i < |w| ==> 'a' <= w[i] <= 'z'
  }

  /** The `d`-th lowercase letter is `d` places after `a`. */
  lemma LowercaseAt(d: nat)
    requires d < 26
    ensures Lowercase[d] == (d + 'a' as int) as char
  {
    assert forall j :: 0 <= j < 26 ==> Lowercase[j] == (j + 'a' as int) as char;
  }

  /** `random.choice(xs)` with the index it draws: IndexError on an empty list. */
  function Choice<T>(xs: seq<T>, pick: nat): (r: Result<T>)
    requires xs != [] ==> pick < |xs|
    ensures r.Err? <==> xs == []
    ensures r.Err? ==> r.error == IndexError
    ensures r.Ok? ==> r.value in xs
  {
    if xs == [] then Err(IndexError) else Ok(xs[pick])
  }

  /** The letters of `string.ascii_lowercase` at the drawn indices. */
  function Letters(draws: seq<nat>): (w: string)
    requires forall i :: 0 <= i < |draws| ==> draws[i] < 26
    ensures |w| == |draws|
    ensures IsLowercaseName(w)
  {
    if draws == [] then []
    else
      LowercaseAt(draws[0]);
      [Lowercase[draws[0]]] + Letters(draws[1..])
  }

  /** The number of letters `random.choices(..., k=variable_length)` draws:
      a negative count draws none. */
  function DrawCount(variableLength: int): nat {
    if variableLength < 0 then 0 else variableLength
  }

  /** `"".join(random.choices(string.ascii_lowercase, k=variable_length))`
      (confuse.py:112). */
  function NewName(variableLength: int, draws: seq<nat>): (name: string)
    requires |draws| == DrawCount(variableLength)
    requires forall i :: 0 <= i < |draws| ==> draws[i] < 26
    ensures |name| == DrawCount(variableLength) && IsLowercaseName(name)
  {
    Letters(draws)
  }

  /** The draws that spell a given lowercase name. */
  function DrawsFor(w: string): (draws: seq<nat>)
    requires IsLowercaseName(w)
    ensures |draws| == |w|
    ensures forall i :: 0 <= i < |draws| ==> draws[i] < 26
  {
    if w == [] then [] else [(w[0] as int - 'a' as int) as nat] + DrawsFor(w[1..])
  }

  /** Every lowercase name of the requested length can be drawn: the draws
      that spell it yield it. */
  lemma {:induction false} EveryNameCanBeDrawn(w: string)
    requires IsLowercaseName(w)
    ensures NewName(|w|, DrawsFor(w)) == w
  {
    if w != [] {
      EveryNameCanBeDrawn(w[1..]);
      LowercaseAt(w[0] as int - 'a' as int);
    }
  }

  /** A lowercase name holds no backslash, so `re.sub` inserts it as it is. */
  lemma LowercaseNoBackslash(w: string)
    requires IsLowercaseName(w)
    ensures '\\' !in w
  {
    forall i | 0 <= i < |w| ensures w[i] != '\\' {
      assert 'a' <= w[i] <= 'z';
    }
  }

  /** `re.sub(regex_fmt.format(variable), new_name, code)` (confuse.py:113).
      At most the span the pattern matches at the start of the buffer is
      replaced, and the rest of the buffer is kept. For Python that span is
      the indentation and the name, and only a declaration of `variable`
      itself is replaced; the Java template has no `{}` field, so `variable`
      plays no part and the span runs through the `;` or `=`. */
  function Rename(code: string, d: Dialect, variable: string, newName: string): (r: string)
    requires IsWord(variable)
    requires IsLowercaseName(newName)
    ensures d == Python ==>
      r == match PythonFind(code)
           case Some(t) => if PyName(code, t) == variable then newName + code[t.indent + t.len..] else code
           case None => code
    ensures d == Java ==>
      r == match JavaFind(code)
           case Some(t) => newName + code[SpanEnd(t)..]
           case None => code
  {
    var p := Format(d, Literal(variable));
    LowercaseNoBackslash(newName);
    SubAtMostOnce(code, p, newName);
    PythonLiteralFindAgrees(code, variable);
    Sub(code, p, newName)
  }

  // ---------------------------------------------------------------------------
  // obfuscate_code as written
  // ---------------------------------------------------------------------------

  /** The state the newline walk ends in: the indices it reports
      ("Newline found at ...") and the index it stops at. */
  datatype Walk = Walk(reported: seq<nat>, stop: nat)

  /** The `whitespace` branch up to its TODO (confuse.py:98-103): start at the
      first newline and step from newline to newline until the last one.
      Without a newline, `code.index` raises ValueError. Otherwise the loop
      stops at the last newline, having reported every newline before it. */
  method WalkNewlines(code: string) returns (r: Result<Walk>)
    ensures r.Err? <==> '\n' !in code
    ensures r.Err? ==> r.error == ValueError
    ensures r.Ok? ==> r.value.stop == RFind(code, '\n')
    ensures r.Ok? ==> r.value.reported + [r.value.stop] == Positions(code, '\n', 0)
  {
    var latest := RFind(code, '\n');
    var first := Index(code, '\n', 0);
    if first.Err? {
      return Err(first.error);
    }
    var current := first.value;
    assert current <= latest;
    var reported: seq<nat> := [];
    PositionsSkip(code, '\n', 0, current);
    while latest != current
      invariant 0 <= current <= latest < |code|
      invariant code[current] == '\n'
      invariant Positions(code, '\n', 0) == reported + Positions(code, '\n', current)
      decreases latest - current
    {
      var next := Index(code, '\n', current + 1);
      assert next.Ok? && next.value <= latest;
      PositionsStep(code, '\n', current, next.value);
      assert reported + Positions(code, '\n', current)
          == (reported + [current]) + Positions(code, '\n', next.value);
      reported := reported + [current];
      current := next.value;
    }
    PositionsStep(code, '\n', latest, |code|);
    return Ok(Walk(reported, current));
  }

  /** `obfuscate_code(code, regex_fmt, variable_length, whitespace)` as
      written (confuse.py:91-115). It never returns a changed buffer: with
      `whitespace` it always raises; otherwise a detected declaration makes it
      return the buffer as it is (the branch meant for "no declaration"), and
      no declaration makes `random.choice` raise on the empty list. */
  method ObfuscateCode(code: string, d: Dialect, variableLength: int, whitespace: bool)
    returns (r: Result<string>)
    ensures r.Ok? ==> r.value == code
    ensures whitespace ==> r == Err(if '\n' in code then IndexError else ValueError)
    ensures !whitespace && d == Python ==> (r.Ok? <==> HasPythonDeclaration(code))
    ensures !whitespace && d == Java ==> (r.Ok? <==> HasJavaDeclaration(code))
    ensures !whitespace && r.Err? ==> r.error == IndexError
  {
    if whitespace {
      var whitespaceIndices: seq<nat> := [];
      var walk := WalkNewlines(code);
      if walk.Err? {
        return Err(walk.error);
      }
      // The TODO at confuse.py:104 leaves whitespace_indices empty.
      var expanding := Choice(whitespaceIndices, 0);
      return if expanding.Err? then Err(expanding.error) else Ok(code);
    }
    var variables := FindAll(code, Format(d, AnyWord));
    PythonDetection(code);
    JavaDetection(code);
    if |variables| > 0 {
      // "No variable declarations found in code" is logged here.
      return Ok(code);
    }
    // list(set(variables)) of the empty list is empty, so random.choice
    // raises and confuse.py:112-115 are never reached.
    var variable := Choice(variables, 0);
    return if variable.Err? then Err(variable.error) else Ok(code);
  }

  /** A buffer holding one plain assignment reaches the "no declarations"
      branch, so `obfuscate_code` returns it unchanged. */
  lemma AssignmentIsDetected()
    ensures HasPythonDeclaration("x = 1")
  {
    PythonAssignmentDetected();
    PythonDetection("x = 1");
  }

  /** `obfuscate_code("x = 1", PYTHON_VARIABLE_REGEX_FMT)` returns the buffer
      unchanged. */
  method AssignmentReturnedUnchanged() returns (r: Result<string>)
    ensures r == Ok("x = 1")
  {
    AssignmentIsDetected();
    r := ObfuscateCode("x = 1", Python, 16, false);
  }

  /** `obfuscate_code("int x = 5;", JAVA_VARIABLE_REGEX_FMT)` returns the
      buffer unchanged, although `x` is found. */
  method JavaDeclarationReturnedUnchanged() returns (r: Result<string>)
    ensures r == Ok("int x = 5;")
  {
    JavaDeclarationDetected();
    JavaDetection("int x = 5;");
    r := ObfuscateCode("int x = 5;", Java, 16, false);
  }

  // ---------------------------------------------------------------------------
  // obfuscate_code with only the test at confuse.py:108 turned round
  // ---------------------------------------------------------------------------

  /** `obfuscate_code` without `whitespace`, with `len(variables) == 0` at
      confuse.py:108 and every other line as written. For the Python template
      `re.findall` yields pairs, so the chosen variable is a pair and
      confuse.py:113 writes its repr into the template. A list of at most one
      element makes `random.choice` take its first. */
  function ObfuscateFlipped(code: string, d: Dialect, variableLength: int, draws: seq<nat>): string
    requires |draws| == DrawCount(variableLength)
    requires forall i :: 0 <= i < |draws| ==> draws[i] < 26
  {
    var newName := NewName(variableLength, draws);
    LowercaseNoBackslash(newName);
    match d
    case Python =>
      var pairs := PythonFindPairs(code);
      if |pairs| == 0 then code
      else Sub(code, Format(Python, Literal(PairPatternText(pairs[0].0, pairs[0].1))), newName)
    case Java =>
      var variables := FindAll(code, Format(Java, AnyWord));
      if |variables| == 0 then code
      else Sub(code, Format(Java, Literal(variables[0])), newName)
  }

  /** With the test turned round, the Python template still never renames:
      the pattern built from the pair's repr matches nothing, so `re.sub`
      gives the buffer back. */
  lemma FlippedKeepsPythonBuffer(code: string, variableLength: int, draws: seq<nat>)
    requires |draws| == DrawCount(variableLength)
    requires forall i :: 0 <= i < |draws| ==> draws[i] < 26
    ensures ObfuscateFlipped(code, Python, variableLength, draws) == code
  {
    var pairs := PythonFindPairs(code);
    if |pairs| > 0 {
      var newName := NewName(variableLength, draws);
      var v := PairPatternText(pairs[0].0, pairs[0].1);
      LowercaseNoBackslash(newName);
      SubAtMostOnce(code, Format(Python, Literal(v)), newName);
      PairLiteralNeverFound(code, pairs[0].0, pairs[0].1);
    }
  }

  /** For the Java template, which has no `{}`, turning the test round is the
      whole correction: the result is that of `ObfuscateFixed`. */
  lemma FlippedJavaIsFixed(code: string, variableLength: int, draws: seq<nat>)
    requires |draws| == DrawCount(variableLength)
    requires forall i :: 0 <= i < |draws| ==> draws[i] < 26
    ensures ObfuscateFlipped(code, Java, variableLength, draws)
         == ObfuscateFixed(code, Java, variableLength, draws)
  {
    var variables := FindAll(code, Format(Java, AnyWord));
    FindAllWords(code, Format(Java, AnyWord), 0);
    if |variables| > 0 {
      var newName := NewName(variableLength, draws);
      assert Rename(code, Java, variables[0], newName)
          == Sub(code, Format(Java, Literal(variables[0])), newName);
    }
  }

  // ---------------------------------------------------------------------------
  // obfuscate_code as evidently intended: `len(variables) == 0` at
  // confuse.py:108, and group 1 of the Python pair renamed at confuse.py:113
  // ---------------------------------------------------------------------------

  /** The evidently intended `obfuscate_code` without `whitespace`: a buffer
      without a declaration is returned unchanged; otherwise the one detected
      name (for the Python template, group 1 of the pair) is renamed to a
      freshly drawn name. */
  function ObfuscateFixed(code: string, d: Dialect, variableLength: int, draws: seq<nat>): string
    requires |draws| == DrawCount(variableLength)
    requires forall i :: 0 <= i < |draws| ==> draws[i] < 26
  {
    var variables := FindAll(code, Format(d, AnyWord));
    FindAllWords(code, Format(d, AnyWord), 0);
    if |variables| == 0 then code
    else Rename(code, d, variables[0], NewName(variableLength, draws))
  }

  /** The corrected `obfuscate_code` leaves a buffer without a declaration
      alone, and otherwise replaces the detected Python declaration's
      indentation and name by the drawn name, keeping the rest. */
  lemma FixedOutcomePython(code: string, variableLength: int, draws: seq<nat>)
    requires |draws| == DrawCount(variableLength)
    requires forall i :: 0 <= i < |draws| ==> draws[i] < 26
    ensures PythonFind(code).None? ==> ObfuscateFixed(code, Python, variableLength, draws) == code
    ensures PythonFind(code).Some? ==>
      ObfuscateFixed(code, Python, variableLength, draws)
        == NewName(variableLength, draws) + code[PythonFind(code).value.indent + PythonFind(code).value.len..]
  {
    PythonFindAll(code);
  }

  /** The same for Java: everything through the `;` or `=` that ends the
      match is replaced by the drawn name. */
  lemma FixedOutcomeJava(code: string, variableLength: int, draws: seq<nat>)
    requires |draws| == DrawCount(variableLength)
    requires forall i :: 0 <= i < |draws| ==> draws[i] < 26
    ensures JavaFind(code).None? ==> ObfuscateFixed(code, Java, variableLength, draws) == code
    ensures JavaFind(code).Some? ==>
      ObfuscateFixed(code, Java, variableLength, draws)
        == NewName(variableLength, draws) + code[SpanEnd(JavaFind(code).value)..]
    ensures JavaFind(code).Some? ==> IsTerminator(code[SpanEnd(JavaFind(code).value) - 1])
  {
    JavaFindAll(code);
    if JavaFind(code).Some? {
      JavaFindEnd(code);
    }
  }

  /** The intended renaming of a Python declaration keeps everything after
      the declared name and puts the drawn name before it. */
  lemma FixedRenamesPython(code: string, variableLength: int, draws: seq<nat>, t: PyParse)
    requires |draws| == DrawCount(variableLength)
    requires forall i :: 0 <= i < |draws| ==> draws[i] < 26
    requires PythonRegexMatches(code, t)
    ensures ObfuscateFixed(code, Python, variableLength, draws)
      == NewName(variableLength, draws) + code[t.indent + t.len..]
  {
    PythonFindComplete(code, t);
    FixedOutcomePython(code, variableLength, draws);
  }

  /** The lookahead ` ?=(?!=)` only looks at what follows, so it still holds
      when what precedes is replaced. */
  lemma {:induction false} AssignAheadShifted(s: string, p: nat, r: string, n: nat, space: nat)
    requires p <= |s| && n <= |r| && r[n..] == s[p..]
    requires AssignAhead(s, p, space)
    ensures AssignAhead(r, n, space)
  {
    assert |r| - n == |s| - p;
    assert r[n + space] == r[n..][space] == s[p..][space] == s[p + space];
    if space == 1 {
      assert r[n] == r[n..][0] == s[p..][0] == s[p];
    }
    if n + space + 1 < |r| {
      assert r[n + space + 1] == r[n..][space + 1] == s[p..][space + 1] == s[p + space + 1];
    }
  }

  /** Putting a lowercase name in place of the indentation and the name of a
      Python declaration gives a declaration of the new name. */
  lemma {:induction false} RenamedPythonMatch(code: string, t: PyParse, name: string)
    requires PythonRegexMatches(code, t)
    requires |name| > 0 && IsLowercaseName(name)
    ensures PythonRegexMatches(name + code[t.indent + t.len..], PyParse(0, |name|, t.space))
  {
    var e := t.indent + t.len;
    var r := name + code[e..];
    var n := |name|;
    forall i | 0 <= i < n ensures IsWordChar(r[i]) {
      assert r[i] == name[i];
      assert 'a' <= name[i] <= 'z';
    }
    assert r[n..] == code[e..];
    assert IsWordChar(code[e - 1]) && !IsWordChar(code[e]);
    assert r[n] == code[e];
    assert Boundary(r, 0) && Boundary(r, n);
    AssignAheadShifted(code, e, r, n, t.space);
  }

  /** After the intended renaming of a Python declaration, the declaration
      detected in the new buffer is the new name. */
  lemma {:induction false} RenamedDeclarationIsDetected(code: string, variableLength: int, draws: seq<nat>, t: PyParse)
    requires |draws| == DrawCount(variableLength) && variableLength > 0
    requires forall i :: 0 <= i < |draws| ==> draws[i] < 26
    requires PythonRegexMatches(code, t)
    ensures FindAll(ObfuscateFixed(code, Python, variableLength, draws), Format(Python, AnyWord))
      == [NewName(variableLength, draws)]
  {
    var name := NewName(variableLength, draws);
    var r := name + code[t.indent + t.len..];
    FixedRenamesPython(code, variableLength, draws, t);
    RenamedPythonMatch(code, t, name);
    PythonDetection(r);
    var u := PyParse(0, |name|, t.space);
    assert PyName(r, u) == name;
  }

  /** The `int x = 5;` scenario: whatever lowercase name is drawn, the match
      `int x =` is replaced by it and ` 5;` is kept. */
  lemma JavaDeclarationRenamed(name: string)
    requires IsLowercaseName(name)
    ensures ObfuscateFixed("int x = 5;", Java, |name|, DrawsFor(name)) == name + " 5;"
  {
    var s := "int x = 5;";
    IntDeclarationPieces();
    IntDeclarationCandidate();
    JavaFindSteps(s, 3, 4, 5, 1);
    FixedOutcomeJava(s, |name|, DrawsFor(name));
    EveryNameCanBeDrawn(name);
    assert SpanEnd(JavaParse(0, 3, 1, 1, 1)) == 7;
    assert s[7..] == " 5;";
  }

  lemma XAssignmentParse()
    ensures PythonRegexMatches("x = 1", PyParse(0, 1, 1))
  {
    var s := "x = 1";
    assert s[0] == 'x' && s[1] == ' ' && s[2] == '=' && s[3] == ' ';
    assert Boundary(s, 0) && Boundary(s, 1) && AssignAhead(s, 1, 1);
  }

  /** The `x = 1` scenario: whatever lowercase name is drawn, `x` is renamed
      to it and ` = 1` is kept. */
  lemma AssignmentRenamed(name: string)
    requires IsLowercaseName(name)
    ensures ObfuscateFixed("x = 1", Python, |name|, DrawsFor(name)) == name + " = 1"
  {
    XAssignmentParse();
    FixedRenamesPython("x = 1", |name|, DrawsFor(name), PyParse(0, 1, 1));
    EveryNameCanBeDrawn(name);
    assert "x = 1"[1..] == " = 1";
  }
}
