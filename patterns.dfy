/** The two declaration patterns of confuse.py:13-14 and the `re.findall` /
    `re.sub` calls that apply them (confuse.py:107, 113).

    Each pattern is given twice: as a relation that reads the regular
    expression piece by piece (one number per quantified piece, so every way
    the backtracking engine could match is a value of the relation), and as a
    hand-written matcher. The lemmas tie the two together: the matcher returns
    a match of the relation, and it is the one a greedy backtracking engine
    reports first. No pattern is compiled with `re.MULTILINE`, so `^` holds
    only at the start of the buffer and each pattern matches at most once. */
module Patterns {
  import opened Common
  import opened Text

  datatype Dialect = Python | Java

  // ---------------------------------------------------------------------------
  // PYTHON_VARIABLE_REGEX_FMT filled with \w+ :  ^\s*\b(\w+)\b(?=( ?=(?!=)))
  // ---------------------------------------------------------------------------

  /** One way the Python pattern can match: `indent` characters for `\s*`,
      `len` for `\w+` and `space` (0 or 1) for the ` ?` inside the lookahead. */
  datatype PyParse = PyParse(indent: nat, len: nat, space: nat)

  /** The lookahead ` ?=(?!=)` at `p`, with `space` characters for ` ?`. */
  predicate AssignAhead(s: string, p: nat, space: nat)
    requires p <= |s|
  {
    && space <= 1
    && p + space < |s|
    && (space == 1 ==> s[p] == ' ')
    && s[p + space] == '='
    && (p + space + 1 == |s| || s[p + space + 1] != '=')
  }

  /** `t` is a match of the Python pattern against `s`, piece by piece. */
  predicate PythonRegexMatches(s: string, t: PyParse) {
    && t.len >= 1
    && t.indent + t.len <= |s|
    && (forall i :: 0 <= i < t.indent ==> IsSpace(s[i]))
    && Boundary(s, t.indent)
    && (forall i :: t.indent <= i < t.indent + t.len ==> IsWordChar(s[i]))
    && Boundary(s, t.indent + t.len)
    && AssignAhead(s, t.indent + t.len, t.space)
  }

  /** The text captured by group 1 of the Python pattern. */
  function PyName(s: string, t: PyParse): string
    requires t.indent + t.len <= |s|
  {
    s[t.indent..t.indent + t.len]
  }

  /** The hand-written matcher for the Python pattern. */
  function PythonFind(s: string): Option<PyParse>
  {
    var k := SpaceEnd(s, 0);
    var e := WordEnd(s, k);
    if e == k then None else AssignTail(s, k, e - k)
  }

  /** The tail ` ?=(?!=)` shared by both Python patterns, tried after the
      `n`-character word at `k`: the optional space is taken when it can be. */
  function AssignTail(s: string, k: nat, n: nat): Option<PyParse>
    requires k + n <= |s|
  {
    if AssignAhead(s, k + n, 1) then Some(PyParse(k, n, 1))
    else if AssignAhead(s, k + n, 0) then Some(PyParse(k, n, 0))
    else None
  }

  /** What the Python matcher returns is a match of the pattern. */
  lemma PythonFindSound(s: string)
    ensures PythonFind(s).Some? ==> PythonRegexMatches(s, PythonFind(s).value)
  {
    SpaceRun(s, 0);
    WordRun(s, SpaceEnd(s, 0));
  }

  /** Every match of the Python pattern is the one the matcher returns: the
      pattern can match in one way only. */
  lemma {:induction false} PythonFindComplete(s: string, t: PyParse)
    requires PythonRegexMatches(s, t)
    ensures PythonFind(s) == Some(t)
  {
    // `\s*` cannot stop early: the character after it must be a word character
    SpaceEndAt(s, 0, t.indent);
    // `\w+` followed by `\b` takes the whole word
    WordEndAt(s, t.indent, t.indent + t.len);
  }

  // ---------------------------------------------------------------------------
  // JAVA_VARIABLE_REGEX_FMT :  ^\s*(?:\w+)[^=]*(\b\w+\b) ?(?:;|\=)
  // ---------------------------------------------------------------------------

  /** One way the Java pattern can match: `indent` for `\s*`, `lead` for the
      first `\w+`, `gap` for `[^=]*`, `len` for the captured `\w+` and `space`
      (0 or 1) for ` ?`. */
  datatype JavaParse = JavaParse(indent: nat, lead: nat, gap: nat, len: nat, space: nat)

  function NameStart(t: JavaParse): nat { t.indent + t.lead + t.gap }
  function NameEnd(t: JavaParse): nat { NameStart(t) + t.len }
  /** End of the whole match: one past the `;` or `=`. */
  function SpanEnd(t: JavaParse): nat { NameEnd(t) + t.space + 1 }

  predicate IsTerminator(c: char) { c == ';' || c == '=' }

  /** `t` is a match of the Java pattern against `s`, piece by piece. */
  predicate JavaRegexMatches(s: string, t: JavaParse) {
    var q := NameStart(t);
    var e := NameEnd(t);
    && t.lead >= 1 && t.len >= 1 && t.space <= 1
    && e + t.space < |s|
    && (forall i :: 0 <= i < t.indent ==> IsSpace(s[i]))
    && (forall i :: t.indent <= i < t.indent + t.lead ==> IsWordChar(s[i]))
    && (forall i :: t.indent + t.lead <= i < q ==> s[i] != '=')
    && Boundary(s, q)
    && (forall i :: q <= i < e ==> IsWordChar(s[i]))
    && Boundary(s, e)
    && (t.space == 1 ==> s[e] == ' ')
    && IsTerminator(s[e + t.space])
  }

  /** The order in which a backtracking engine tries the matches of the Java
      pattern: every quantifier is greedy, so for each piece, from left to
      right, longer is tried before shorter. `t` comes no earlier than `u`. */
  predicate TriedNoEarlier(t: JavaParse, u: JavaParse) {
    t.indent < u.indent || (t.indent == u.indent &&
    (t.lead < u.lead || (t.lead == u.lead &&
    (t.gap < u.gap || (t.gap == u.gap &&
    (t.len < u.len || (t.len == u.len && t.space <= u.space)))))))
  }

  /** The text captured by group 1 of the Java pattern. */
  function JavaName(s: string, t: JavaParse): string
    requires NameEnd(t) <= |s|
  {
    s[NameStart(t)..NameEnd(t)]
  }

  /** ` ?(?:;|\=)` at `e`: the number of spaces taken, or None. */
  function TerminatorAt(s: string, e: nat): (r: Option<nat>)
    requires e <= |s|
  {
    if e + 1 < |s| && s[e] == ' ' && IsTerminator(s[e + 1]) then Some(1)
    else if e < |s| && IsTerminator(s[e]) then Some(0)
    else None
  }

  /** A word starts at `q` and is followed by an optional space and a terminator. */
  predicate NameCandidate(s: string, q: nat) {
    q < |s| && IsWordChar(s[q]) && Boundary(s, q) && TerminatorAt(s, WordEnd(s, q)).Some?
  }

  /** The largest candidate position in `[lo, hi)`: what the greedy `[^=]*`
      settles on after backing off from `hi`. */
  function RightmostCandidate(s: string, lo: nat, hi: nat): (r: Option<nat>)
    requires hi <= |s|
    ensures r.Some? ==> lo <= r.value < hi && NameCandidate(s, r.value)
    decreases hi
  {
    if hi <= lo then None
    else if NameCandidate(s, hi - 1) then Some(hi - 1)
    else RightmostCandidate(s, lo, hi - 1)
  }

  /** No candidate in `[lo, hi)` lies beyond the one found. */
  lemma {:induction false} RightmostCandidateIsLast(s: string, lo: nat, hi: nat, q: nat)
    requires hi <= |s| && lo <= q < hi && NameCandidate(s, q)
    ensures RightmostCandidate(s, lo, hi).Some? && q <= RightmostCandidate(s, lo, hi).value
    decreases hi
  {
    if q < hi - 1 && !NameCandidate(s, hi - 1) {
      RightmostCandidateIsLast(s, lo, hi - 1, q);
    }
  }

  /** The hand-written matcher for the Java pattern. */
  function JavaFind(s: string): (r: Option<JavaParse>)
    ensures r.Some? ==> SpanEnd(r.value) <= |s|
  {
    var k := SpaceEnd(s, 0);
    var l := WordEnd(s, k);
    if l == k then None
    else
      var limit := FirstFrom(s, '=', l);
      match RightmostCandidate(s, l + 1, limit)
      case None => None
      case Some(q) =>
        var e := WordEnd(s, q);
        Some(JavaParse(k, l - k, q - l, e - q, TerminatorAt(s, e).value))
  }

  /** The matcher's result ends in an optional space and a terminator. */
  lemma JavaFindEnd(s: string)
    requires JavaFind(s).Some?
    ensures JavaFind(s).value.lead >= 1 && JavaFind(s).value.len >= 1
    ensures JavaFind(s).value.space <= 1 && NameEnd(JavaFind(s).value) + JavaFind(s).value.space < |s|
    ensures JavaFind(s).value.space == 1 ==> s[NameEnd(JavaFind(s).value)] == ' '
    ensures IsTerminator(s[NameEnd(JavaFind(s).value) + JavaFind(s).value.space])
  {
  }

  /** The matcher's result starts with whitespace, a word and text without `=`. */
  lemma JavaFindLead(s: string)
    requires JavaFind(s).Some?
    ensures forall i :: 0 <= i < JavaFind(s).value.indent ==> IsSpace(s[i])
    ensures forall i :: JavaFind(s).value.indent <= i < JavaFind(s).value.indent + JavaFind(s).value.lead ==>
      IsWordChar(s[i])
    ensures forall i :: JavaFind(s).value.indent + JavaFind(s).value.lead <= i < NameStart(JavaFind(s).value) ==>
      s[i] != '='
  {
    var k := SpaceEnd(s, 0);
    var l := WordEnd(s, k);
    SpaceRun(s, 0);
    WordRun(s, k);
    FirstFromSkips(s, '=', l);
  }

  /** The matcher's captured name is a whole word. */
  lemma JavaFindName(s: string)
    requires JavaFind(s).Some?
    ensures Boundary(s, NameStart(JavaFind(s).value))
    ensures forall i :: NameStart(JavaFind(s).value) <= i < NameEnd(JavaFind(s).value) ==> IsWordChar(s[i])
    ensures Boundary(s, NameEnd(JavaFind(s).value))
  {
    WordRun(s, NameStart(JavaFind(s).value));
  }

  /** What the Java matcher returns is a match of the pattern. */
  lemma JavaFindSound(s: string)
    ensures JavaFind(s).Some? ==> JavaRegexMatches(s, JavaFind(s).value)
  {
    if JavaFind(s).Some? {
      JavaFindEnd(s);
      JavaFindLead(s);
      JavaFindName(s);
    }
  }

  /** The captured word of any Java match starts after the leading word and
      before the first `=` that follows it, and is a candidate there. */
  lemma {:induction false} JavaNameIsCandidate(s: string, t: JavaParse)
    requires JavaRegexMatches(s, t)
    ensures t.indent == SpaceEnd(s, 0)
    ensures t.indent + t.lead <= WordEnd(s, SpaceEnd(s, 0))
    ensures WordEnd(s, SpaceEnd(s, 0)) < NameStart(t) < FirstFrom(s, '=', WordEnd(s, SpaceEnd(s, 0)))
    ensures NameCandidate(s, NameStart(t))
    ensures WordEnd(s, NameStart(t)) == NameEnd(t)
  {
    JavaMatchLead(s, t);
    JavaMatchBeforeEquals(s, t);
    JavaMatchName(s, t);
  }

  /** `\s*` stops at the leading word, the leading `\w+` takes at most that
      word, and the captured word starts after it. */
  lemma JavaMatchLead(s: string, t: JavaParse)
    requires JavaRegexMatches(s, t)
    ensures t.indent == SpaceEnd(s, 0)
    ensures t.indent + t.lead <= WordEnd(s, t.indent) < NameStart(t)
  {
    SpaceEndAt(s, 0, t.indent);
    WordEndCovers(s, t.indent, t.indent + t.lead);
    // no word starts strictly inside the leading word, nor at its end
    if NameStart(t) < WordEnd(s, t.indent) {
      WordEndInside(s, t.indent, NameStart(t) - 1);
    }
  }

  /** The captured word starts before the first `=` after the leading word. */
  lemma JavaMatchBeforeEquals(s: string, t: JavaParse)
    requires JavaRegexMatches(s, t)
    requires t.indent + t.lead <= WordEnd(s, t.indent) < NameStart(t)
    ensures NameStart(t) < FirstFrom(s, '=', WordEnd(s, t.indent))
  {
    FirstFromCovers(s, '=', WordEnd(s, t.indent), NameStart(t) + 1);
  }

  /** The captured word is a whole word followed by the terminator. */
  lemma JavaMatchName(s: string, t: JavaParse)
    requires JavaRegexMatches(s, t)
    ensures WordEnd(s, NameStart(t)) == NameEnd(t)
    ensures NameCandidate(s, NameStart(t))
  {
    WordEndAt(s, NameStart(t), NameEnd(t));
  }

  /** When the Java matcher succeeds: a leading word, then a candidate before the first `=`. */
  lemma JavaFindSome(s: string)
    ensures JavaFind(s).Some? <==>
      && SpaceEnd(s, 0) < WordEnd(s, SpaceEnd(s, 0))
      && RightmostCandidate(s, WordEnd(s, SpaceEnd(s, 0)) + 1, FirstFrom(s, '=', WordEnd(s, SpaceEnd(s, 0)))).Some?
  {
  }

  /** The matcher's `\s*` and leading `\w+` take whole runs. */
  lemma JavaFindStart(s: string)
    requires JavaFind(s).Some?
    ensures JavaFind(s).value.indent == SpaceEnd(s, 0)
    ensures JavaFind(s).value.indent + JavaFind(s).value.lead == WordEnd(s, SpaceEnd(s, 0))
  {
  }

  /** The matcher's name starts at the rightmost candidate. */
  lemma JavaFindNameAt(s: string)
    requires JavaFind(s).Some?
    ensures Some(NameStart(JavaFind(s).value))
      == RightmostCandidate(s, WordEnd(s, SpaceEnd(s, 0)) + 1, FirstFrom(s, '=', WordEnd(s, SpaceEnd(s, 0))))
  {
  }

  /** The matcher's name is a whole word, and ` ?` takes the space when it can. */
  lemma JavaFindTail(s: string)
    requires JavaFind(s).Some?
    ensures NameEnd(JavaFind(s).value) == WordEnd(s, NameStart(JavaFind(s).value))
    ensures TerminatorAt(s, NameEnd(JavaFind(s).value)) == Some(JavaFind(s).value.space)
  {
  }

  /** ` ?` is greedy: when a space and a terminator follow, the space is taken. */
  lemma TerminatorPrefersSpace(s: string, e: nat, space: nat)
    requires space <= 1 && e + space < |s|
    requires (space == 1 ==> s[e] == ' ') && IsTerminator(s[e + space])
    ensures TerminatorAt(s, e).Some? && space <= TerminatorAt(s, e).value
  {
  }

  /** Same indentation, a leading word no longer, a name starting no later,
      and at the same start the same name with no more spaces: tried no
      earlier. */
  lemma TriedInOrder(t: JavaParse, u: JavaParse)
    requires t.indent == u.indent && t.lead <= u.lead && NameStart(t) <= NameStart(u)
    requires NameStart(t) == NameStart(u) ==> NameEnd(t) == NameEnd(u) && t.space <= u.space
    ensures TriedNoEarlier(t, u)
  {
  }

  /** A word placed as a Java match would place it is tried no earlier than
      the matcher's result. */
  lemma JavaFindFromCandidate(s: string, t: JavaParse)
    requires t.indent == SpaceEnd(s, 0) && t.lead >= 1
    requires t.indent + t.lead <= WordEnd(s, SpaceEnd(s, 0))
    requires WordEnd(s, SpaceEnd(s, 0)) < NameStart(t) < FirstFrom(s, '=', WordEnd(s, SpaceEnd(s, 0)))
    requires NameCandidate(s, NameStart(t))
    requires WordEnd(s, NameStart(t)) == NameEnd(t)
    requires TerminatorAt(s, NameEnd(t)).Some? && t.space <= TerminatorAt(s, NameEnd(t)).value
    ensures JavaFind(s).Some? && TriedNoEarlier(t, JavaFind(s).value)
  {
    var k := SpaceEnd(s, 0);
    var l := WordEnd(s, k);
    var limit := FirstFrom(s, '=', l);
    RightmostCandidateIsLast(s, l + 1, limit, NameStart(t));
    var found := RightmostCandidate(s, l + 1, limit);
    assert k < l && found.Some?;
    JavaFindSome(s);
    var u := JavaFind(s).value;
    JavaFindStart(s);
    JavaFindNameAt(s);
    JavaFindTail(s);
    assert u.indent == k && u.indent + u.lead == l && NameStart(u) == found.value;
    TriedInOrder(t, u);
  }

  /** Every match of the Java pattern is tried no earlier than the one the
      matcher returns, so the matcher returns the match the engine reports. */
  lemma JavaFindFirst(s: string, t: JavaParse)
    requires JavaRegexMatches(s, t)
    ensures JavaFind(s).Some? && TriedNoEarlier(t, JavaFind(s).value)
  {
    JavaNameIsCandidate(s, t);
    TerminatorPrefersSpace(s, NameEnd(t), t.space);
    JavaFindFromCandidate(s, t);
  }

  // ---------------------------------------------------------------------------
  // str.format on the templates, and the scans of re.findall and re.sub
  // ---------------------------------------------------------------------------

  /** What `{}` in a template is filled with: `\w+`, or the text of a
      variable, read as literal characters. */
  datatype Fill = AnyWord | Literal(name: string)

  /** A compiled pattern. `JAVA_VARIABLE_REGEX_FMT` has no `{}` field, so
      formatting it with anything leaves it unchanged. */
  datatype Pattern = PythonPattern(fill: Fill) | JavaPattern

  /** `regex_fmt.format(fill)`. */
  function Format(d: Dialect, fill: Fill): Pattern {
    match d
    case Python => PythonPattern(fill)
    case Java => JavaPattern
  }

  /** Literal text put into a template is not empty and does not start with
      whitespace, so the `\s*` before it takes all the leading whitespace.
      The literal is the text left to match once the metacharacters of the
      filled template have been read: for a pair's repr, its parentheses are
      a group and only the quoted text inside them remains. */
  predicate ValidPattern(p: Pattern) {
    p.PythonPattern? && p.fill.Literal? ==> |p.fill.name| > 0 && !IsSpace(p.fill.name[0])
  }

  /** Every literal put into the template is a word, so what group 1
      captures is one. */
  predicate WordFill(p: Pattern) {
    p.PythonPattern? && p.fill.Literal? ==> IsWord(p.fill.name)
  }

  /** The Python template filled with literal text `v` that does not start
      with whitespace: the same as the wildcard pattern, except that group 1
      must read `v`. */
  function PythonLiteralFind(s: string, v: string): (r: Option<PyParse>)
  {
    var k := SpaceEnd(s, 0);
    var e := k + |v|;
    if HoldsAt(s, k, v) && Boundary(s, k) && Boundary(s, k + |v|) then AssignTail(s, k, |v|)
    else None
  }

  /** A word `v` written at `k` and followed by a boundary is the whole run of
      word characters from `k`. */
  lemma LiteralIsWholeWord(s: string, k: nat, v: string)
    requires IsWord(v) && HoldsAt(s, k, v) && Boundary(s, k + |v|)
    ensures WordEnd(s, k) == k + |v|
  {
    forall i | k <= i < k + |v| ensures IsWordChar(s[i]) {
      assert s[k + (i - k)] == v[i - k];
    }
    WordEndAt(s, k, k + |v|);
  }

  /** The literal pattern for `v` matches exactly when the wildcard pattern
      matches and captures `v`. */
  lemma PythonLiteralFindAgrees(s: string, v: string)
    requires IsWord(v)
    ensures PythonLiteralFind(s, v) ==
      match PythonFind(s)
      case Some(t) => if PyName(s, t) == v then Some(t) else None
      case None => None
  {
    var k := SpaceEnd(s, 0);
    var e := k + |v|;
    if HoldsAt(s, k, v) && Boundary(s, k) && Boundary(s, e) {
      LiteralIsWholeWord(s, k, v);
      LiteralFoundAgrees(s, v);
      WildcardFindsLiteral(s, v);
    } else {
      if PythonFind(s).Some? && PyName(s, PythonFind(s).value) == v {
        WildcardCaptureText(s, v);
        WildcardCaptureBounds(s, v);
      }
      assert PythonLiteralFind(s, v).None?;
    }
  }

  /** Where the literal word stands as a whole word, both patterns take the
      same optional space before the `=`. */
  lemma LiteralFoundAgrees(s: string, v: string)
    requires |v| > 0
    requires HoldsAt(s, SpaceEnd(s, 0), v)
    requires Boundary(s, SpaceEnd(s, 0)) && Boundary(s, SpaceEnd(s, 0) + |v|)
    requires WordEnd(s, SpaceEnd(s, 0)) == SpaceEnd(s, 0) + |v|
    ensures PythonLiteralFind(s, v) == PythonFind(s)
  {
    assert PythonFind(s) == AssignTail(s, SpaceEnd(s, 0), |v|);
  }

  /** ... and there the wildcard pattern captures that word. */
  lemma WildcardFindsLiteral(s: string, v: string)
    requires |v| > 0
    requires HoldsAt(s, SpaceEnd(s, 0), v)
    requires WordEnd(s, SpaceEnd(s, 0)) == SpaceEnd(s, 0) + |v|
    ensures PythonFind(s).Some? ==> PyName(s, PythonFind(s).value) == v
  {
    HoldsAtSlice(s, SpaceEnd(s, 0), v);
    assert PythonFind(s) == AssignTail(s, SpaceEnd(s, 0), |v|);
  }

  /** A word the wildcard pattern captures is the text the literal pattern
      for it compares with. */
  lemma WildcardCaptureText(s: string, v: string)
    requires PythonFind(s).Some? && PyName(s, PythonFind(s).value) == v
    ensures HoldsAt(s, SpaceEnd(s, 0), v)
  {
    var t := PythonFind(s).value;
    assert t.indent == SpaceEnd(s, 0);
    assert t.len == |v|;
    SliceHoldsAt(s, SpaceEnd(s, 0), v);
  }

  /** ... and it stands between the two word boundaries the literal pattern
      asks for. */
  lemma WildcardCaptureBounds(s: string, v: string)
    requires PythonFind(s).Some? && PyName(s, PythonFind(s).value) == v
    ensures SpaceEnd(s, 0) + |v| <= |s|
    ensures Boundary(s, SpaceEnd(s, 0)) && Boundary(s, SpaceEnd(s, 0) + |v|)
  {
    var t := PythonFind(s).value;
    assert t.indent == SpaceEnd(s, 0);
    assert t.len == |v|;
    PythonFindBoundaries(s);
  }

  /** The Python matcher's capture is a whole word. */
  lemma PythonFindBoundaries(s: string)
    requires PythonFind(s).Some?
    ensures PythonFind(s).value.indent + PythonFind(s).value.len <= |s|
    ensures Boundary(s, PythonFind(s).value.indent)
    ensures Boundary(s, PythonFind(s).value.indent + PythonFind(s).value.len)
  {
    SpaceEndLast(s, 0);
    WordEndLast(s, SpaceEnd(s, 0));
  }

  /** A match: the text of group 1 and the end of the matched span. */
  datatype Found = Found(name: string, end: nat)

  /** The Python matcher captures a word and ends within the buffer. */
  lemma PythonFound(s: string)
    requires PythonFind(s).Some?
    ensures 0 < PythonFind(s).value.indent + PythonFind(s).value.len <= |s|
    ensures IsWord(PyName(s, PythonFind(s).value))
  {
    WordRun(s, SpaceEnd(s, 0));
  }

  /** The literal Python pattern captures the name it was given. */
  lemma LiteralFound(s: string, v: string)
    requires |v| > 0 && PythonLiteralFind(s, v).Some?
    ensures 0 < PythonLiteralFind(s, v).value.indent + PythonLiteralFind(s, v).value.len <= |s|
    ensures PyName(s, PythonLiteralFind(s, v).value) == v
  {
  }

  /** The Java matcher captures a word and ends within the buffer. */
  lemma JavaFound(s: string)
    requires JavaFind(s).Some?
    ensures 0 < SpanEnd(JavaFind(s).value) <= |s|
    ensures IsWord(JavaName(s, JavaFind(s).value))
  {
    JavaFindName(s);
  }

  /** The match of `p` that starts at `pos`, if any. */
  function MatchAt(s: string, p: Pattern, pos: nat): (r: Option<Found>)
    requires ValidPattern(p)
    ensures r.Some? ==> pos < r.value.end <= |s|
  {
    if pos != 0 then None   // `^` without re.MULTILINE: only at the start of the buffer
    else
      match p
      case PythonPattern(AnyWord) =>
        (match PythonFind(s)
         case Some(t) => PythonFound(s); Some(Found(PyName(s, t), t.indent + t.len))
         case None => None)
      case PythonPattern(Literal(v)) =>
        (match PythonLiteralFind(s, v)
         case Some(t) => LiteralFound(s, v); Some(Found(PyName(s, t), t.indent + t.len))
         case None => None)
      case JavaPattern =>
        (match JavaFind(s)
         case Some(t) => JavaFound(s); Some(Found(JavaName(s, t), SpanEnd(t)))
         case None => None)
  }

  /** What a match captures is a word. */
  lemma MatchAtWord(s: string, p: Pattern, pos: nat)
    requires ValidPattern(p) && WordFill(p)
    ensures MatchAt(s, p, pos).Some? ==> IsWord(MatchAt(s, p, pos).value.name)
  {
    if pos == 0 {
      match p
      case PythonPattern(AnyWord) =>
        if PythonFind(s).Some? { PythonFound(s); }
      case PythonPattern(Literal(v)) =>
        if PythonLiteralFind(s, v).Some? { LiteralFound(s, v); assert PyName(s, PythonLiteralFind(s, v).value) == v; }
      case JavaPattern =>
        if JavaFind(s).Some? { JavaFound(s); }
    }
  }

  /** `re.findall` from `pos` on: group 1 of each match, scanning left to
      right and resuming after each (non-empty) match. */
  function FindAllFrom(s: string, p: Pattern, pos: nat): (names: seq<string>)
    requires ValidPattern(p)
    decreases |s| + 1 - pos
  {
    if pos > |s| then []
    else
      match MatchAt(s, p, pos)
      case Some(m) => [m.name] + FindAllFrom(s, p, m.end)
      case None => FindAllFrom(s, p, pos + 1)
  }

  /** Every name `re.findall` reports is a word. */
  lemma {:induction false} FindAllWords(s: string, p: Pattern, pos: nat)
    requires ValidPattern(p) && WordFill(p)
    ensures forall i :: 0 <= i < |FindAllFrom(s, p, pos)| ==> IsWord(FindAllFrom(s, p, pos)[i])
    decreases |s| + 1 - pos
  {
    if pos <= |s| {
      MatchAtWord(s, p, pos);
      match MatchAt(s, p, pos)
      case Some(m) => FindAllWords(s, p, m.end);
      case None => FindAllWords(s, p, pos + 1);
    }
  }

  function FindAll(s: string, p: Pattern): seq<string>
    requires ValidPattern(p)
  {
    FindAllFrom(s, p, 0)
  }

  /** `re.sub(p, repl, s)` from `pos` on: every match replaced by `repl`,
      everything between matches copied. */
  function SubFrom(s: string, p: Pattern, repl: string, pos: nat): string
    requires ValidPattern(p)
    requires pos <= |s|
    decreases |s| - pos
  {
    if pos == |s| then []
    else
      match MatchAt(s, p, pos)
      case Some(m) => repl + SubFrom(s, p, repl, m.end)
      case None => [s[pos]] + SubFrom(s, p, repl, pos + 1)
  }

  /** `re.sub(p, repl, s)` for a replacement without backslashes, which is
      inserted as it is. */
  function Sub(s: string, p: Pattern, repl: string): string
    requires ValidPattern(p)
    requires '\\' !in repl
  {
    SubFrom(s, p, repl, 0)
  }

  /** Past the start of the buffer no pattern matches. */
  lemma {:induction false} FindAllPastStart(s: string, p: Pattern, pos: nat)
    requires ValidPattern(p)
    requires pos > 0
    ensures FindAllFrom(s, p, pos) == []
    decreases |s| + 1 - pos
  {
    if pos <= |s| {
      FindAllPastStart(s, p, pos + 1);
    }
  }

  /** `re.findall` yields at most one name: the one matched at the start. */
  lemma {:induction false} FindAllAtMostOne(s: string, p: Pattern)
    requires ValidPattern(p)
    ensures FindAll(s, p) == match MatchAt(s, p, 0) case Some(m) => [m.name] case None => []
    ensures |FindAll(s, p)| <= 1
  {
    match MatchAt(s, p, 0)
    case Some(m) => FindAllPastStart(s, p, m.end);
    case None => FindAllPastStart(s, p, 1);
  }

  /** Detection with the Python template is the matcher's capture, if any. */
  lemma PythonFindAll(s: string)
    ensures FindAll(s, Format(Python, AnyWord)) ==
      match PythonFind(s) case Some(t) => [PyName(s, t)] case None => []
  {
    FindAllAtMostOne(s, Format(Python, AnyWord));
  }

  /** Detection with the Java template is the matcher's capture, if any. */
  lemma JavaFindAll(s: string)
    ensures FindAll(s, Format(Java, AnyWord)) ==
      match JavaFind(s) case Some(t) => [JavaName(s, t)] case None => []
  {
    FindAllAtMostOne(s, Format(Java, AnyWord));
  }

  /** What `re.findall` really returns for the Python template: the pattern
      has a second group, the lookahead ` ?=`, so each match gives the pair
      of group 1 and that group's text, `" ="` or `"="`. */
  function PythonFindPairs(s: string): seq<(string, string)>
  {
    match PythonFind(s)
    case Some(t) => PythonFound(s); [(PyName(s, t), if t.space == 1 then " =" else "=")]
    case None => []
  }

  /** The pairs carry the names of the one-group reading, one for one, and
      the text of the lookahead group is the `=` with its optional space. */
  lemma PythonPairsNames(s: string)
    ensures |PythonFindPairs(s)| == |FindAll(s, Format(Python, AnyWord))|
    ensures forall i :: 0 <= i < |PythonFindPairs(s)| ==>
      PythonFindPairs(s)[i].0 == FindAll(s, Format(Python, AnyWord))[i]
    ensures forall i :: 0 <= i < |PythonFindPairs(s)| ==>
      PythonFindPairs(s)[i].1 in {" =", "="}
  {
    PythonFindAll(s);
  }

  /** The text the Python template asks for when `{}` is filled with a pair
      `(name, ahead)`: `str.format` writes the pair's repr `('name', 'ahead')`
      into the group `({})`. The repr's own parentheses become a further group,
      so the characters to match are `'name', 'ahead'`, starting with a quote. */
  function PairPatternText(name: string, ahead: string): string
  {
    "'" + name + "', '" + ahead + "'"
  }

  /** `t` is a match of the Python template whose `{}` is filled with the
      literal text `v`. */
  predicate PythonFilledMatches(s: string, v: string, t: PyParse) {
    && t.len == |v|
    && t.indent + t.len <= |s|
    && (forall i :: 0 <= i < t.indent ==> IsSpace(s[i]))
    && Boundary(s, t.indent)
    && HoldsAt(s, t.indent, v)
    && Boundary(s, t.indent + t.len)
    && AssignAhead(s, t.indent + t.len, t.space)
  }

  /** After `^\s*`, `\b` cannot stand before a character that is not a word
      character: the character before it is whitespace, or there is none. */
  lemma NoBoundaryBeforeNonWord(s: string, k: nat)
    requires k < |s| && !IsWordChar(s[k])
    requires forall i :: 0 <= i < k ==> IsSpace(s[i])
    ensures !Boundary(s, k)
  {
    if k > 0 {
      assert IsSpace(s[k - 1]);
    }
  }

  /** The Python template filled with a pair never matches: its text starts
      with a quote, before which `\b` cannot hold. */
  lemma PairPatternNeverMatches(s: string, name: string, ahead: string, t: PyParse)
    ensures !PythonFilledMatches(s, PairPatternText(name, ahead), t)
  {
    var v := PairPatternText(name, ahead);
    if PythonFilledMatches(s, v, t) {
      assert s[t.indent + 0] == v[0] == '\'';
      NoBoundaryBeforeNonWord(s, t.indent);
    }
  }

  /** ... so the literal matcher finds nothing for it either. */
  lemma PairLiteralNeverFound(s: string, name: string, ahead: string)
    ensures PythonLiteralFind(s, PairPatternText(name, ahead)) == None
  {
    var v := PairPatternText(name, ahead);
    var k := SpaceEnd(s, 0);
    if HoldsAt(s, k, v) {
      SpaceRun(s, 0);
      assert s[k + 0] == v[0] == '\'';
      NoBoundaryBeforeNonWord(s, k);
    }
  }

  /** Past the start of the buffer `re.sub` copies the text. */
  lemma {:induction false} SubPastStart(s: string, p: Pattern, repl: string, pos: nat)
    requires ValidPattern(p)
    requires 0 < pos <= |s|
    ensures SubFrom(s, p, repl, pos) == s[pos..]
    decreases |s| - pos
  {
    if pos < |s| {
      SubPastStart(s, p, repl, pos + 1);
      assert s[pos..] == [s[pos]] + s[pos + 1..];
    }
  }

  /** `re.sub` replaces at most once: the span matched at the start, and
      nothing else of the buffer changes. */
  lemma {:induction false} SubAtMostOnce(s: string, p: Pattern, repl: string)
    requires ValidPattern(p)
    requires '\\' !in repl
    ensures Sub(s, p, repl) ==
      match MatchAt(s, p, 0) case Some(m) => repl + s[m.end..] case None => s
  {
    if s != [] {
      match MatchAt(s, p, 0)
      case Some(m) =>
        assert Sub(s, p, repl) == repl + SubFrom(s, p, repl, m.end);
        if m.end < |s| {
          SubPastStart(s, p, repl, m.end);
        }
      case None =>
        SubPastStart(s, p, repl, 1);
        assert s == [s[0]] + s[1..];
    }
  }

  // ---------------------------------------------------------------------------
  // Declaration detection: re.findall(regex_fmt.format(r"\w+"), code)
  // ---------------------------------------------------------------------------

  ghost predicate HasPythonDeclaration(s: string) {
    exists t :: PythonRegexMatches(s, t)
  }

  ghost predicate HasJavaDeclaration(s: string) {
    exists t :: JavaRegexMatches(s, t)
  }

  /** `u` is the match a greedy backtracking engine reports for the Java pattern. */
  ghost predicate FirstJavaMatch(s: string, u: JavaParse) {
    JavaRegexMatches(s, u) && forall t :: JavaRegexMatches(s, t) ==> TriedNoEarlier(t, u)
  }

  /** Python detection yields at most one name: none when the pattern cannot
      match, and otherwise the word that its one possible match captures. */
  lemma {:induction false} PythonDetection(s: string)
    ensures |FindAll(s, Format(Python, AnyWord))| <= 1
    ensures FindAll(s, Format(Python, AnyWord)) != [] <==> HasPythonDeclaration(s)
    ensures forall t :: PythonRegexMatches(s, t) ==>
      FindAll(s, Format(Python, AnyWord)) == [PyName(s, t)]
  {
    var p := Format(Python, AnyWord);
    PythonFindAll(s);
    forall t | PythonRegexMatches(s, t) ensures FindAll(s, p) == [PyName(s, t)] {
      PythonFindComplete(s, t);
    }
    PythonFindSound(s);
  }

  /** Java detection yields at most one name: none when the pattern cannot
      match, and otherwise the word captured by the first match in
      backtracking order. */
  lemma {:induction false} JavaDetection(s: string)
    ensures |FindAll(s, Format(Java, AnyWord))| <= 1
    ensures FindAll(s, Format(Java, AnyWord)) != [] <==> HasJavaDeclaration(s)
    ensures FindAll(s, Format(Java, AnyWord)) != [] ==>
      exists u :: FirstJavaMatch(s, u) && FindAll(s, Format(Java, AnyWord)) == [JavaName(s, u)]
  {
    var p := Format(Java, AnyWord);
    JavaFindAll(s);
    JavaFindSound(s);
    forall t | JavaRegexMatches(s, t) ensures JavaFind(s).Some? && TriedNoEarlier(t, JavaFind(s).value) {
      JavaFindFirst(s, t);
    }
    if JavaFind(s).Some? {
      var u := JavaFind(s).value;
      assert FirstJavaMatch(s, u);
    }
  }

  /** The Java pattern matches exactly when the buffer, after its leading
      whitespace, starts with a word, and some later position before the
      first `=` that follows that word starts a whole word directly followed
      by ` ?` and `;` or `=`. */
  lemma JavaDeclarationShape(s: string)
    ensures HasJavaDeclaration(s) <==>
      && SpaceEnd(s, 0) < WordEnd(s, SpaceEnd(s, 0))
      && exists q :: WordEnd(s, SpaceEnd(s, 0)) + 1 <= q < FirstFrom(s, '=', WordEnd(s, SpaceEnd(s, 0)))
                     && NameCandidate(s, q)
  {
    var l := WordEnd(s, SpaceEnd(s, 0));
    var hi := FirstFrom(s, '=', l);
    JavaDetection(s);
    JavaFindAll(s);
    JavaFindSome(s);
    if exists q :: l + 1 <= q < hi && NameCandidate(s, q) {
      var q :| l + 1 <= q < hi && NameCandidate(s, q);
      RightmostCandidateIsLast(s, l + 1, hi, q);
    }
  }

  /** A plain assignment is detected, with its one leading space-free word. */
  lemma PythonAssignmentDetected()
    ensures FindAll("x = 1", Format(Python, AnyWord)) == ["x"]
  {
    PythonAssignmentMatched();
    PythonFindAll("x = 1");
    assert PyName("x = 1", PyParse(0, 1, 1)) == "x";
  }

  /** The Python matcher takes no indentation, the word `x` and the space. */
  lemma PythonAssignmentMatched()
    ensures PythonFind("x = 1") == Some(PyParse(0, 1, 1))
  {
    var s := "x = 1";
    assert s[0] == 'x' && s[1] == ' ' && s[2] == '=' && s[3] == ' ';
    SpaceEndAt(s, 0, 0);
    WordEndAt(s, 0, 1);
    assert AssignAhead(s, 1, 1);
  }

  /** The leading word `x` followed by `rest` is not detected when `rest`
      offers neither `=` nor ` =` without a second `=`. */
  lemma {:induction false} PythonRejects(s: string)
    requires |s| >= 4 && s[0] == 'x' && !IsWordChar(s[1])
    requires !AssignAhead(s, 1, 1) && !AssignAhead(s, 1, 0)
    ensures FindAll(s, Format(Python, AnyWord)) == []
  {
    assert SpaceEnd(s, 0) == 0;
    assert WordEnd(s, 1) == 1;
    assert WordEnd(s, 0) == 1;
    assert PythonFind(s) == None;
    PythonFindAll(s);
  }

  /** Comparisons, augmented assignments and two spaces before `=` are not
      detected. */
  lemma PythonNonAssignmentsIgnored()
    ensures FindAll("x == 1", Format(Python, AnyWord)) == []
    ensures FindAll("x += 1", Format(Python, AnyWord)) == []
    ensures FindAll("x  = 1", Format(Python, AnyWord)) == []
  {
    var a, b, c := "x == 1", "x += 1", "x  = 1";
    assert a[0] == 'x' && a[1] == ' ' && a[2] == '=' && a[3] == '=';
    PythonRejects(a);
    assert b[0] == 'x' && b[1] == ' ' && b[2] == '+';
    PythonRejects(b);
    assert c[0] == 'x' && c[1] == ' ' && c[2] == ' ';
    PythonRejects(c);
  }

  /** How the Java matcher reaches its result, given the pieces it computes. */
  lemma {:induction false} JavaFindSteps(s: string, l: nat, q: nat, e: nat, space: nat)
    requires SpaceEnd(s, 0) == 0 && 0 < l <= |s| && WordEnd(s, 0) == l
    requires RightmostCandidate(s, l + 1, FirstFrom(s, '=', l)) == Some(q)
    requires WordEnd(s, q) == e && TerminatorAt(s, e) == Some(space)
    ensures JavaFind(s) == Some(JavaParse(0, l, q - l, e - q, space))
  {
  }

  lemma IntDeclarationPieces()
    ensures var s := "int x = 5;";
      SpaceEnd(s, 0) == 0 && WordEnd(s, 0) == 3 && FirstFrom(s, '=', 3) == 6
  {
    var s := "int x = 5;";
    assert s[0] == 'i' && s[1] == 'n' && s[2] == 't' && s[3] == ' ';
    assert s[4] == 'x' && s[5] == ' ' && s[6] == '=';
    SpaceEndAt(s, 0, 0);
    WordEndAt(s, 0, 3);
    FirstFromAt(s, '=', 3, 6);
  }

  lemma IntDeclarationCandidate()
    ensures var s := "int x = 5;";
      RightmostCandidate(s, 4, 6) == Some(4) && WordEnd(s, 4) == 5 && TerminatorAt(s, 5) == Some(1)
  {
    var s := "int x = 5;";
    assert s[3] == ' ' && s[4] == 'x' && s[5] == ' ' && s[6] == '=';
    assert WordEnd(s, 5) == 5 && WordEnd(s, 4) == 5;
    assert !NameCandidate(s, 5) && NameCandidate(s, 4);
  }

  /** Java detection captures the word right before the `=` of an initialised
      declaration. */
  lemma JavaDeclarationDetected()
    ensures FindAll("int x = 5;", Format(Java, AnyWord)) == ["x"]
  {
    var s := "int x = 5;";
    IntDeclarationPieces();
    IntDeclarationCandidate();
    JavaFindSteps(s, 3, 4, 5, 1);
    JavaFindAll(s);
    assert JavaName(s, JavaParse(0, 3, 1, 1, 1)) == s[4..5] == "x";
  }

  /** Java detection accepts any leading word, so a `return` whose operand is
      compared with `==` yields that operand as a declaration. */
  lemma JavaComparisonDetected()
    ensures FindAll("return a == b;", Format(Java, AnyWord)) == ["a"]
  {
    var s := "return a == b;";
    ReturnComparisonPieces();
    ReturnComparisonCandidate();
    JavaFindSteps(s, 6, 7, 8, 1);
    JavaFindAll(s);
    assert JavaName(s, JavaParse(0, 6, 1, 1, 1)) == s[7..8] == "a";
  }

  /** `[^=]*` crosses line feeds, so Java detection skips a declaration at
      the start of the buffer in favour of the last one before the first `=`,
      here on the second line. */
  lemma JavaLaterLineDetected()
    ensures FindAll("int a;\nint b;", Format(Java, AnyWord)) == ["b"]
  {
    var s := "int a;\nint b;";
    TwoLinePieces();
    TwoLineCandidate();
    JavaFindSteps(s, 3, 11, 12, 0);
    JavaFindAll(s);
    assert JavaName(s, JavaParse(0, 3, 8, 1, 0)) == s[11..12] == "b";
  }

  lemma TwoLinePieces()
    ensures var s := "int a;\nint b;";
      SpaceEnd(s, 0) == 0 && WordEnd(s, 0) == 3 && FirstFrom(s, '=', 3) == 13
  {
    var s := "int a;\nint b;";
    assert s[0] == 'i' && s[1] == 'n' && s[2] == 't' && s[3] == ' ';
    assert s[4] == 'a' && s[5] == ';' && s[6] == '\n' && s[7] == 'i' && s[8] == 'n';
    assert s[9] == 't' && s[10] == ' ' && s[11] == 'b' && s[12] == ';';
    SpaceEndAt(s, 0, 0);
    WordEndAt(s, 0, 3);
    FirstFromMissing(s, '=', 3);
  }

  lemma TwoLineCandidate()
    ensures var s := "int a;\nint b;";
      RightmostCandidate(s, 4, 13) == Some(11) && WordEnd(s, 11) == 12 && TerminatorAt(s, 12) == Some(0)
  {
    var s := "int a;\nint b;";
    assert s[10] == ' ' && s[11] == 'b' && s[12] == ';';
    WordEndAt(s, 11, 12);
    assert !NameCandidate(s, 12) && NameCandidate(s, 11);
  }

  lemma ReturnComparisonPieces()
    ensures var s := "return a == b;";
      SpaceEnd(s, 0) == 0 && WordEnd(s, 0) == 6 && FirstFrom(s, '=', 6) == 9
  {
    var s := "return a == b;";
    assert s[0] == 'r' && s[1] == 'e' && s[2] == 't' && s[3] == 'u' && s[4] == 'r' && s[5] == 'n';
    assert s[6] == ' ' && s[7] == 'a' && s[8] == ' ' && s[9] == '=';
    SpaceEndAt(s, 0, 0);
    WordEndAt(s, 0, 6);
    FirstFromAt(s, '=', 6, 9);
  }

  lemma ReturnComparisonCandidate()
    ensures var s := "return a == b;";
      RightmostCandidate(s, 7, 9) == Some(7) && WordEnd(s, 7) == 8 && TerminatorAt(s, 8) == Some(1)
  {
    var s := "return a == b;";
    assert s[6] == ' ' && s[7] == 'a' && s[8] == ' ' && s[9] == '=';
    WordEndAt(s, 8, 8);
    WordEndAt(s, 7, 8);
    assert !NameCandidate(s, 8) && NameCandidate(s, 7);
  }
}
