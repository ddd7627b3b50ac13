/** Character classes and the few `str` operations confuse.py relies on:
    `find`/`index`, `rfind` and `split`. Python strings are modelled as
    `seq<char>`; the regular-expression classes are taken in their ASCII reading. */
module Text {
  import opened Common

  /** `\w`, read as ASCII: letters, digits and the underscore. */
  predicate IsWordChar(c: char) {
    ('a' <= c <= 'z') || ('A' <= c <= 'Z') || ('0' <= c <= '9') || c == '_'
  }

  /** `\s`, read as ASCII: space, tab, line feed, carriage return, vertical tab, form feed. */
  predicate IsSpace(c: char) {
    c == ' ' || c == '\t' || c == '\n' || c == '\r' || c as int == 11 || c as int == 12
  }

  /** A non-empty run of word characters: what `\w+` followed by `\b` can capture. */
  predicate IsWord(w: string) {
    |w| > 0 && forall i :: 0 <= i < |w| ==> IsWordChar(w[i])
  }

  /** `s` holds `v` from position `k` on: what a literal in a pattern matches there. */
  predicate HoldsAt(s: string, k: nat, v: string) {
    k + |v| <= |s| && forall i :: 0 <= i < |v| ==> s[k + i] == v[i]
  }

  /** ... which is the slice `s[k:k+len(v)]` reading `v` ... */
  lemma HoldsAtSlice(s: string, k: nat, v: string)
    requires HoldsAt(s, k, v)
    ensures s[k..k + |v|] == v
  {
    forall i | 0 <= i < |v| ensures s[k..k + |v|][i] == v[i] {
      assert s[k + i] == v[i];
    }
  }

  /** A character followed by what `s` holds right after it. */
  lemma HoldsAtCons(s: string, i: nat, v: string)
    requires i < |s| && HoldsAt(s, i + 1, v)
    ensures HoldsAt(s, i, [s[i]] + v)
  {
    forall k | 0 <= k < |v| + 1 ensures s[i + k] == ([s[i]] + v)[k] {
      if k > 0 {
        assert s[i + 1 + (k - 1)] == v[k - 1];
      }
    }
  }

  /** ... and conversely. */
  lemma SliceHoldsAt(s: string, k: nat, v: string)
    requires k + |v| <= |s| && s[k..k + |v|] == v
    ensures HoldsAt(s, k, v)
  {
    forall i | 0 <= i < |v| ensures s[k + i] == v[i] {
      assert s[k..k + |v|][i] == s[k + i];
    }
  }

  /** `\b` at position `p`: exactly one of the characters around `p` is a word character. */
  predicate Boundary(s: string, p: nat)
    requires p <= |s|
  {
    (0 < p && IsWordChar(s[p - 1])) != (p < |s| && IsWordChar(s[p]))
  }

  /** End of the longest run of whitespace starting at `i`. */
  function SpaceEnd(s: string, i: nat): (e: nat)
    requires i <= |s|
    ensures i <= e <= |s|
    ensures e == |s| || !IsSpace(s[e])
    decreases |s| - i
  {
    if i < |s| && IsSpace(s[i]) then SpaceEnd(s, i + 1) else i
  }

  /** Everything `SpaceEnd` skips is whitespace. */
  lemma {:induction false} SpaceRun(s: string, i: nat)
    requires i <= |s|
    ensures forall k :: i <= k < SpaceEnd(s, i) ==> IsSpace(s[k])
    decreases |s| - i
  {
    if i < |s| && IsSpace(s[i]) { SpaceRun(s, i + 1); }
  }

  /** End of the longest run of word characters starting at `i`. */
  function WordEnd(s: string, i: nat): (e: nat)
    requires i <= |s|
    ensures i <= e <= |s|
    ensures e == |s| || !IsWordChar(s[e])
    decreases |s| - i
  {
    if i < |s| && IsWordChar(s[i]) then WordEnd(s, i + 1) else i
  }

  /** The last character `SpaceEnd` skips, if any, is whitespace. */
  lemma {:induction false} SpaceEndLast(s: string, i: nat)
    requires i <= |s|
    ensures i < SpaceEnd(s, i) ==> IsSpace(s[SpaceEnd(s, i) - 1])
    decreases |s| - i
  {
    if i < |s| && IsSpace(s[i]) { SpaceEndLast(s, i + 1); }
  }

  /** A run of whitespace from `i` to a non-space at `j` is what `SpaceEnd` skips. */
  lemma {:induction false} SpaceEndAt(s: string, i: nat, j: nat)
    requires i <= j <= |s|
    requires forall k :: i <= k < j ==> IsSpace(s[k])
    requires j == |s| || !IsSpace(s[j])
    ensures SpaceEnd(s, i) == j
    decreases j - i
  {
    if i < j { SpaceEndAt(s, i + 1, j); }
  }

  /** Everything `WordEnd` skips is a word character. */
  lemma {:induction false} WordRun(s: string, i: nat)
    requires i <= |s|
    ensures forall k :: i <= k < WordEnd(s, i) ==> IsWordChar(s[k])
    decreases |s| - i
  {
    if i < |s| && IsWordChar(s[i]) { WordRun(s, i + 1); }
  }

  /** The last character `WordEnd` skips, if any, is a word character. */
  lemma {:induction false} WordEndLast(s: string, i: nat)
    requires i <= |s|
    ensures i < WordEnd(s, i) ==> IsWordChar(s[WordEnd(s, i) - 1])
    decreases |s| - i
  {
    if i < |s| && IsWordChar(s[i]) { WordEndLast(s, i + 1); }
  }

  /** Every character `WordEnd` skips is a word character. */
  lemma {:induction false} WordEndInside(s: string, i: nat, p: nat)
    requires i <= |s| && i <= p < WordEnd(s, i)
    ensures IsWordChar(s[p])
    decreases |s| - i
  {
    if i < p { WordEndInside(s, i + 1, p); }
  }

  /** `WordEnd` skips at least every word character of a run from `i` to `j`. */
  lemma {:induction false} WordEndCovers(s: string, i: nat, j: nat)
    requires i <= j <= |s|
    requires forall k :: i <= k < j ==> IsWordChar(s[k])
    ensures j <= WordEnd(s, i)
    decreases j - i
  {
    if i < j { WordEndCovers(s, i + 1, j); }
  }

  /** A run of word characters from `i` to a non-word character at `j` is what `WordEnd` skips. */
  lemma {:induction false} WordEndAt(s: string, i: nat, j: nat)
    requires i <= j <= |s|
    requires forall k :: i <= k < j ==> IsWordChar(s[k])
    requires j == |s| || !IsWordChar(s[j])
    ensures WordEnd(s, i) == j
    decreases j - i
  {
    if i < j { WordEndAt(s, i + 1, j); }
  }

  /** Index of the first `c` at or after `i`, or `|s|` when there is none. */
  function FirstFrom(s: string, c: char, i: nat): (r: nat)
    requires i <= |s|
    ensures i <= r <= |s|
    ensures r < |s| ==> s[r] == c
    decreases |s| - i
  {
    if i == |s| || s[i] == c then i else FirstFrom(s, c, i + 1)
  }

  /** `FirstFrom` skips no `c`. */
  lemma {:induction false} FirstFromSkips(s: string, c: char, i: nat)
    requires i <= |s|
    ensures forall k :: i <= k < FirstFrom(s, c, i) ==> s[k] != c
    decreases |s| - i
  {
    if i < |s| && s[i] != c { FirstFromSkips(s, c, i + 1); }
  }

  /** `FirstFrom` goes past a stretch without `c`. */
  lemma {:induction false} FirstFromCovers(s: string, c: char, i: nat, j: nat)
    requires i <= j <= |s|
    requires forall k :: i <= k < j ==> s[k] != c
    ensures j <= FirstFrom(s, c, i)
    decreases j - i
  {
    if i < j { FirstFromCovers(s, c, i + 1, j); }
  }

  /** The first `c` at or after `i` is at `j` when `[i, j)` holds no `c`. */
  lemma {:induction false} FirstFromAt(s: string, c: char, i: nat, j: nat)
    requires i <= j < |s| && s[j] == c
    requires forall k :: i <= k < j ==> s[k] != c
    ensures FirstFrom(s, c, i) == j
    decreases j - i
  {
    if i < j { FirstFromAt(s, c, i + 1, j); }
  }

  /** Without a `c` at or after `i`, `FirstFrom` runs to the end of the text. */
  lemma {:induction false} FirstFromMissing(s: string, c: char, i: nat)
    requires i <= |s|
    requires forall k :: i <= k < |s| ==> s[k] != c
    ensures FirstFrom(s, c, i) == |s|
    decreases |s| - i
  {
    if i < |s| { FirstFromMissing(s, c, i + 1); }
  }

  /** `s.index(c, start)`: the first `c` at or after `start`, else ValueError
      (also when `start` lies beyond the end of `s`). */
  function Index(s: string, c: char, start: nat): (r: Result<nat>)
    ensures r.Ok? ==> start <= r.value < |s| && s[r.value] == c
    ensures r.Ok? ==> forall k :: start <= k < r.value ==> s[k] != c
    ensures r.Err? ==> r.error == ValueError && forall k :: start <= k < |s| ==> s[k] != c
  {
    if start > |s| then Err(ValueError)
    else
      var i := FirstFrom(s, c, start);
      FirstFromSkips(s, c, start);
      if i < |s| then Ok(i) else Err(ValueError)
  }

  /** `s.rfind(c)`: the index of the last `c`, or -1 when `c` does not occur. */
  function RFind(s: string, c: char): (r: int)
    ensures -1 <= r < |s|
    ensures 0 <= r ==> s[r] == c
    ensures forall k :: r < k < |s| ==> s[k] != c
  {
    if s == [] then -1
    else if s[|s| - 1] == c then |s| - 1
    else RFind(s[..|s| - 1], c)
  }

  /** The increasing list of the indices of `c` at or after `i`. */
  function Positions(s: string, c: char, i: nat): (ps: seq<nat>)
    requires i <= |s|
    decreases |s| - i
  {
    if i == |s| then []
    else if s[i] == c then [i] + Positions(s, c, i + 1)
    else Positions(s, c, i + 1)
  }

  lemma {:induction false} PositionsMembers(s: string, c: char, i: nat)
    requires i <= |s|
    ensures forall p :: p in Positions(s, c, i) <==> i <= p < |s| && s[p] == c
    ensures forall a, b :: 0 <= a < b < |Positions(s, c, i)| ==>
      Positions(s, c, i)[a] < Positions(s, c, i)[b]
    decreases |s| - i
  {
    if i < |s| {
      PositionsMembers(s, c, i + 1);
      var tail := Positions(s, c, i + 1);
      assert forall b :: 0 <= b < |tail| ==> i < tail[b] by {
        forall b | 0 <= b < |tail| ensures i < tail[b] { assert tail[b] in tail; }
      }
    }
  }

  /** Skipping a stretch without `c` does not change the positions that follow. */
  lemma {:induction false} PositionsSkip(s: string, c: char, i: nat, j: nat)
    requires i <= j <= |s|
    requires forall k :: i <= k < j ==> s[k] != c
    ensures Positions(s, c, i) == Positions(s, c, j)
    decreases j - i
  {
    if i < j {
      PositionsSkip(s, c, i + 1, j);
    }
  }

  /** From one `c` to the next: the positions from `i` on are `i` followed
      by the positions from `j` on. */
  lemma {:induction false} PositionsStep(s: string, c: char, i: nat, j: nat)
    requires i < j <= |s| && s[i] == c
    requires forall k :: i < k < j ==> s[k] != c
    ensures Positions(s, c, i) == [i] + Positions(s, c, j)
  {
    PositionsSkip(s, c, i + 1, j);
  }

  /** The piece of `s` from `i` up to the next `sep` (or the end). */
  function PieceFrom(s: string, sep: char, i: nat): string
    requires i <= |s|
    decreases |s| - i
  {
    if i == |s| || s[i] == sep then [] else [s[i]] + PieceFrom(s, sep, i + 1)
  }

  /** The piece from `i` is the text from `i` to the next separator ... */
  lemma {:induction false} PieceHolds(s: string, sep: char, i: nat)
    requires i <= |s|
    ensures |PieceFrom(s, sep, i)| == FirstFrom(s, sep, i) - i
    ensures HoldsAt(s, i, PieceFrom(s, sep, i))
    decreases |s| - i
  {
    if i < |s| && s[i] != sep {
      PieceHolds(s, sep, i + 1);
      HoldsAtCons(s, i, PieceFrom(s, sep, i + 1));
    }
  }

  /** ... and holds no separator. */
  lemma {:induction false} PieceFree(s: string, sep: char, i: nat)
    requires i <= |s|
    ensures sep !in PieceFrom(s, sep, i)
    decreases |s| - i
  {
    if i < |s| && s[i] != sep {
      PieceFree(s, sep, i + 1);
    }
  }

  /** `s[i:].split(sep)`: the piece up to the next separator, then the pieces
      after it, if there is one. */
  function SplitFrom(s: string, sep: char, i: nat): (parts: seq<string>)
    requires i <= |s|
    ensures |parts| >= 1
    decreases |s| - i
  {
    var f := FirstFrom(s, sep, i);
    [PieceFrom(s, sep, i)] + (if f == |s| then [] else SplitFrom(s, sep, f + 1))
  }

  /** `s.split(sep)`. */
  function Split(s: string, sep: char): (parts: seq<string>)
    ensures |parts| >= 1
  {
    SplitFrom(s, sep, 0)
  }

  /** No piece of a split holds the separator. */
  lemma {:induction false} SplitPiecesFree(s: string, sep: char, i: nat)
    requires i <= |s|
    ensures forall k :: 0 <= k < |SplitFrom(s, sep, i)| ==> sep !in SplitFrom(s, sep, i)[k]
    decreases |s| - i
  {
    PieceFree(s, sep, i);
    if FirstFrom(s, sep, i) < |s| {
      SplitPiecesFree(s, sep, FirstFrom(s, sep, i) + 1);
    }
  }

  /** `sep.join(parts)`. */
  function Join(parts: seq<string>, sep: char): string
    requires |parts| >= 1
  {
    if |parts| == 1 then parts[0] else parts[0] + [sep] + Join(parts[1..], sep)
  }

  /** Joining a piece in front of at least one more puts a separator between. */
  lemma JoinCons(x: string, rest: seq<string>, sep: char)
    requires |rest| >= 1
    ensures Join([x] + rest, sep) == x + [sep] + Join(rest, sep)
  {
    assert ([x] + rest)[1..] == rest;
  }

  /** The piece from `i` is the slice up to the next separator. */
  lemma PieceIsSlice(s: string, sep: char, i: nat)
    requires i <= |s|
    ensures PieceFrom(s, sep, i) == s[i..FirstFrom(s, sep, i)]
  {
    PieceHolds(s, sep, i);
    HoldsAtSlice(s, i, PieceFrom(s, sep, i));
  }

  /** Past a separator at `FirstFrom(s, sep, i)`, the split is the first piece
      followed by the split of what comes after the separator. */
  lemma SplitFromStep(s: string, sep: char, i: nat)
    requires i <= |s|
    requires FirstFrom(s, sep, i) < |s|
    ensures SplitFrom(s, sep, i)
         == [PieceFrom(s, sep, i)] + SplitFrom(s, sep, FirstFrom(s, sep, i) + 1)
  {
  }

  /** The split of a text with no separator past `i` is its one piece. */
  lemma SplitFromLast(s: string, sep: char, i: nat)
    requires i <= |s|
    requires FirstFrom(s, sep, i) == |s|
    ensures SplitFrom(s, sep, i) == [PieceFrom(s, sep, i)]
  {
  }

  /** What `s` holds at `k` followed by what it holds right after. */
  lemma HoldsAtAppend(s: string, k: nat, a: string, b: string)
    requires HoldsAt(s, k, a) && HoldsAt(s, k + |a|, b)
    ensures HoldsAt(s, k, a + b)
  {
    forall i | 0 <= i < |a + b| ensures s[k + i] == (a + b)[i] {
      if i >= |a| {
        assert s[k + |a| + (i - |a|)] == b[i - |a|];
      }
    }
  }

  /** Held from the start and as long as the text, it is the text. */
  lemma HoldsAtWhole(s: string, v: string)
    requires HoldsAt(s, 0, v) && |v| == |s|
    ensures v == s
  {
    forall i | 0 <= i < |s| ensures v[i] == s[i] {
      assert s[0 + i] == v[i];
    }
  }

  /** Joining the pieces of `s[i:].split(sep)` again rebuilds `s` from `i` to its end. */
  lemma {:induction false} JoinSplitFrom(s: string, sep: char, i: nat)
    requires i <= |s|
    ensures i + |Join(SplitFrom(s, sep, i), sep)| == |s|
    ensures HoldsAt(s, i, Join(SplitFrom(s, sep, i), sep))
    decreases |s| - i
  {
    var f := FirstFrom(s, sep, i);
    var piece := PieceFrom(s, sep, i);
    PieceHolds(s, sep, i);
    if f == |s| {
      SplitFromLast(s, sep, i);
    } else {
      var rest := SplitFrom(s, sep, f + 1);
      SplitFromStep(s, sep, i);
      JoinSplitFrom(s, sep, f + 1);
      JoinCons(piece, rest, sep);
      assert HoldsAt(s, f, [sep]);
      HoldsAtAppend(s, i, piece, [sep]);
      HoldsAtAppend(s, i, piece + [sep], Join(rest, sep));
    }
  }

  /** `sep.join(s.split(sep)) == s`. */
  lemma JoinSplit(s: string, sep: char)
    ensures Join(Split(s, sep), sep) == s
  {
    JoinSplitFrom(s, sep, 0);
    HoldsAtWhole(s, Join(Split(s, sep), sep));
  }

  /** Putting one more element in front keeps the last element. */
  lemma LastOfCons<T>(x: T, rest: seq<T>)
    requires |rest| >= 1
    ensures ([x] + rest)[|[x] + rest| - 1] == rest[|rest| - 1]
  {
  }

  /** The last piece of `s[i:].split(sep)`. */
  function LastPiece(s: string, sep: char, i: nat): string
    requires i <= |s|
  {
    SplitFrom(s, sep, i)[|SplitFrom(s, sep, i)| - 1]
  }

  /** Where the last piece of `s[i:].split(sep)` starts: after the last
      separator at or after `i`, or at `i`. */
  function LastStart(s: string, sep: char, i: nat): (j: nat)
    requires i <= |s|
    ensures i <= j <= |s|
    decreases |s| - i
  {
    if FirstFrom(s, sep, i) == |s| then i else LastStart(s, sep, FirstFrom(s, sep, i) + 1)
  }

  /** The last piece is the piece at `LastStart`. */
  lemma {:induction false} LastPieceAtStart(s: string, sep: char, i: nat)
    requires i <= |s|
    ensures LastPiece(s, sep, i) == PieceFrom(s, sep, LastStart(s, sep, i))
    decreases |s| - i
  {
    var f := FirstFrom(s, sep, i);
    if f < |s| {
      assert LastStart(s, sep, i) == LastStart(s, sep, f + 1);
      LastPieceAtStart(s, sep, f + 1);
      SplitFromStep(s, sep, i);
      LastOfCons(PieceFrom(s, sep, i), SplitFrom(s, sep, f + 1));
      assert LastPiece(s, sep, i) == LastPiece(s, sep, f + 1);
    } else {
      SplitFromLast(s, sep, i);
    }
  }

  /** No separator follows `LastStart`, and unless it is `i`, one stands
      right before it. */
  lemma {:induction false} LastStartFacts(s: string, sep: char, i: nat)
    requires i <= |s|
    ensures FirstFrom(s, sep, LastStart(s, sep, i)) == |s|
    ensures LastStart(s, sep, i) > i ==> s[LastStart(s, sep, i) - 1] == sep
    decreases |s| - i
  {
    var f := FirstFrom(s, sep, i);
    if f < |s| {
      LastStartFacts(s, sep, f + 1);
    }
  }

  /** `rfind` finds the separator that stands right before a separator-free tail. */
  lemma {:induction false} RFindBeforeTail(s: string, sep: char, n: nat)
    requires n <= |s|
    requires forall k :: n <= k < |s| ==> s[k] != sep
    requires n > 0 ==> s[n - 1] == sep
    ensures RFind(s, sep) == n - 1
  {
    var r := RFind(s, sep);
    if n > 0 {
      assert n - 1 <= r;
    }
  }

  /** The last piece of `s.split(sep)` is the text after the last separator,
      or all of `s` when it has none. */
  lemma LastPieceAfterLastSep(s: string, sep: char)
    ensures Split(s, sep)[|Split(s, sep)| - 1] == s[RFind(s, sep) + 1..]
  {
    LastPieceAtStart(s, sep, 0);
    LastStartFacts(s, sep, 0);
    PieceIsSlice(s, sep, LastStart(s, sep, 0));
    RFindIsLastStart(s, sep);
  }

  /** `rfind` lands right before where the last piece starts. */
  lemma RFindIsLastStart(s: string, sep: char)
    ensures RFind(s, sep) + 1 == LastStart(s, sep, 0)
  {
    var n := LastStart(s, sep, 0);
    LastStartFacts(s, sep, 0);
    FirstFromSkips(s, sep, n);
    RFindBeforeTail(s, sep, n);
  }
}
