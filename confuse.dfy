/** `main` (confuse.py:118-153): choosing the pattern from the flags or the
    first file's extension, and walking the files, dropping those that do not
    exist. Which paths exist is a parameter. */
module Confuse {
  import opened Common
  import opened Text
  import opened Patterns

  /** The parsed command line (confuse.py:17-85). `main` only ever changes
      its list of files. */
  class Cli {
    const java: bool
    const python: bool
    const pre: int
    const breaks: int
    const post: int
    const variableLength: int
    const dry: bool
    var files: seq<string>

    /** argparse accepts one FILE or more (`nargs="+"`). */
    constructor(java: bool, python: bool, pre: int, breaks: int, post: int,
                variableLength: int, dry: bool, files: seq<string>)
      requires |files| >= 1
      ensures this.java == java && this.python == python && this.dry == dry
      ensures this.pre == pre && this.breaks == breaks && this.post == post
      ensures this.variableLength == variableLength && this.files == files
    {
      this.java := java;
      this.python := python;
      this.pre := pre;
      this.breaks := breaks;
      this.post := post;
      this.variableLength := variableLength;
      this.dry := dry;
      this.files := files;
    }

    /** The body of `main`. It returns the pattern chosen and either the
        closing report or the exception that ends the run. */
    method Run(present: set<string>) returns (dialect: Dialect, r: Result<Report>)
      requires |files| >= 1
      modifies this
      ensures dialect == SelectDialect(java, python, old(files))
      ensures r.Err? <==> pre > 0 && Existing(old(files), present) != []
      ensures r.Err? ==> r.error == TypeError && files == old(files)[FirstExisting(old(files), present)..]
      ensures r.Ok? ==> files == Existing(old(files), present)
      ensures r.Ok? ==> r.value == (if dry then WouldHaveChanged(files) else Changed(files))
    {
      var fileType := FileType(java, python, files);
      // `str.split` never returns an empty list, so the exit at
      // confuse.py:128-130 is never taken and `fileType` is a value.
      dialect := DialectOf(fileType.value);
      var failed := ProcessFiles(present);
      if failed {
        return dialect, Err(TypeError);
      }
      r := Ok(if dry then WouldHaveChanged(files) else Changed(files));
    }

    /** The loop over a copy of `files` (confuse.py:134-148). A path that does
        not exist is removed from `files`. For a path that exists, the first
        round of the `pre` loop hands the open file object to
        `obfuscate_code`, on which `re.findall` raises TypeError; with no
        `pre` round the `breaks` and `post` loops only log. */
    method ProcessFiles(present: set<string>) returns (failed: bool)
      modifies this
      ensures failed <==> pre > 0 && Existing(old(files), present) != []
      ensures failed ==> files == old(files)[FirstExisting(old(files), present)..]
      ensures !failed ==> files == Existing(old(files), present)
    {
      var copy := files;
      var i := 0;
      while i < |copy|
        invariant 0 <= i <= |copy|
        invariant files == Existing(copy[..i], present) + copy[i..]
        invariant pre > 0 ==> Existing(copy[..i], present) == []
      {
        var path := copy[i];
        if path !in present {
          // "File '...' not found, skipping"; `remove` finds the path, since
          // every path kept before it exists.
          DropStep(copy, i, present);
          files := RemoveFirst(files, path).value;
          i := i + 1;
        } else if pre > 0 {
          FirstExistingAt(copy, present, i);
          return true;
        } else {
          KeepStep(copy, i, present);
          i := i + 1;
        }
      }
      AllVisited(copy, present);
      return false;
    }
  }

  /** The closing log line: "Would have changed files ..." or "Changed files ...". */
  datatype Report = WouldHaveChanged(files: seq<string>) | Changed(files: seq<string>)

  /** The file type (confuse.py:121-131): `java` or `py` when forced, and
      otherwise the last piece of the first file's name split at `.`. The
      exit for an empty split is never taken. */
  function FileType(java: bool, python: bool, files: seq<string>): (r: Result<string>)
    requires |files| >= 1
    ensures r.Ok?
  {
    if java then Ok("java")
    else if python then Ok("py")
    else
      var parts := Split(files[0], '.');
      if |parts| < 1 then Err(SystemExit(1))
      else Ok(parts[|parts| - 1])
  }

  /** The file type is the forced one, or else the text after the last `.`
      of the first file's name (the whole name when it has none). */
  lemma FileTypeIsExtension(java: bool, python: bool, files: seq<string>)
    requires |files| >= 1
    ensures java ==> FileType(java, python, files).value == "java"
    ensures !java && python ==> FileType(java, python, files).value == "py"
    ensures !java && !python ==>
      FileType(java, python, files).value == files[0][RFind(files[0], '.') + 1..]
  {
    LastPieceAfterLastSep(files[0], '.');
  }

  /** confuse.py:133: the Python pattern for the file type `py`, the Java
      pattern for any other. */
  function DialectOf(fileType: string): Dialect {
    if fileType == "py" then Python else Java
  }

  /** The pattern `main` applies. */
  function SelectDialect(java: bool, python: bool, files: seq<string>): Dialect
    requires |files| >= 1
  {
    DialectOf(FileType(java, python, files).value)
  }

  /** `main` applies the Python pattern exactly when Java is not forced and
      either Python is forced or the first file's extension is `py`. */
  lemma PythonSelected(java: bool, python: bool, files: seq<string>)
    requires |files| >= 1
    ensures SelectDialect(java, python, files) == Python <==>
      !java && (python || files[0][RFind(files[0], '.') + 1..] == "py")
  {
    FileTypeIsExtension(java, python, files);
  }

  /** A file name without a dot is its own extension, so it selects Java,
      unless the whole name is `py`. */
  lemma NoExtensionIsJava(path: string)
    requires '.' !in path && path != "py"
    ensures SelectDialect(false, false, [path]) == Java
  {
    assert RFind(path, '.') == -1;
    assert path[RFind(path, '.') + 1..] == path;
    PythonSelected(false, false, [path]);
  }

  /** A first file named exactly `py` selects the Python pattern. */
  lemma BarePyIsPython()
    ensures SelectDialect(false, false, ["py"]) == Python
  {
    var path := "py";
    assert RFind(path, '.') == -1 by {
      assert path[0] != '.' && path[1] != '.';
    }
    assert path[RFind(path, '.') + 1..] == path;
    PythonSelected(false, false, [path]);
  }

  // ---------------------------------------------------------------------------
  // Dropping missing files (confuse.py:134-138)
  // ---------------------------------------------------------------------------

  /** The paths of `xs` that exist, in their order. */
  function Existing<T(==,!new)>(xs: seq<T>, present: set<T>): (ys: seq<T>)
    ensures |ys| <= |xs|
  {
    if xs == [] then []
    else
      var init := xs[..|xs| - 1];
      var last := xs[|xs| - 1];
      Existing(init, present) + (if last in present then [last] else [])
  }

  /** A path is kept exactly when it is listed and exists. */
  lemma {:induction false} ExistingMembers<T(!new)>(xs: seq<T>, present: set<T>)
    ensures forall p :: p in Existing(xs, present) <==> p in xs && p in present
  {
    if xs != [] {
      var init := xs[..|xs| - 1];
      var last := xs[|xs| - 1];
      assert xs == init + [last];
      ExistingMembers(init, present);
    }
  }

  /** One more path at the end is kept exactly when it exists. */
  lemma ExistingSnoc<T(!new)>(xs: seq<T>, x: T, present: set<T>)
    ensures Existing(xs + [x], present) == Existing(xs, present) + (if x in present then [x] else [])
  {
    assert (xs + [x])[..|xs|] == xs;
  }

  /** `xs.index(x)` for an `x` that occurs: the position of its first occurrence. */
  function FirstIndex<T(==)>(xs: seq<T>, x: T): (k: nat)
    requires x in xs
    ensures k < |xs| && xs[k] == x
    ensures forall j :: 0 <= j < k ==> xs[j] != x
  {
    if xs[0] == x then 0 else 1 + FirstIndex(xs[1..], x)
  }

  /** `xs.remove(x)`: the first occurrence of `x` taken out, or ValueError. */
  function RemoveFirst<T(==)>(xs: seq<T>, x: T): (r: Result<seq<T>>)
    ensures r.Err? <==> x !in xs
    ensures r.Err? ==> r.error == ValueError
    ensures r.Ok? ==> |r.value| == |xs| - 1 && multiset(r.value) + multiset{x} == multiset(xs)
  {
    if x !in xs then Err(ValueError)
    else
      var k := FirstIndex(xs, x);
      assert xs == xs[..k] + [x] + xs[k + 1..];
      Ok(xs[..k] + xs[k + 1..])
  }

  /** When `x` does not occur before a given position, `remove` takes out the
      occurrence at that position. */
  lemma RemoveAfterPrefix<T>(prefix: seq<T>, x: T, rest: seq<T>)
    requires x !in prefix
    ensures RemoveFirst(prefix + [x] + rest, x) == Ok(prefix + rest)
  {
    var xs := prefix + [x] + rest;
    assert xs[|prefix|] == x;
    var k := FirstIndex(xs, x);
    assert k == |prefix| by {
      assert forall j :: 0 <= j < |prefix| ==> xs[j] == prefix[j];
    }
    assert xs[..k] == prefix && xs[k + 1..] == rest;
  }

  /** A missing path is the first occurrence of itself in what is left of
      the list, so `remove` drops exactly that one. */
  lemma DropStep<T(!new)>(xs: seq<T>, i: nat, present: set<T>)
    requires i < |xs| && xs[i] !in present
    ensures RemoveFirst(Existing(xs[..i], present) + xs[i..], xs[i])
      == Ok(Existing(xs[..i + 1], present) + xs[i + 1..])
  {
    assert xs[..i + 1] == xs[..i] + [xs[i]];
    assert xs[i..] == [xs[i]] + xs[i + 1..];
    ExistingSnoc(xs[..i], xs[i], present);
    var kept := Existing(xs[..i], present);
    assert Existing(xs[..i + 1], present) == kept;
    ExistingMembers(xs[..i], present);
    RemoveAfterPrefix(kept, xs[i], xs[i + 1..]);
    assert kept + xs[i..] == kept + [xs[i]] + xs[i + 1..];
  }

  /** A path that exists stays where it is. */
  lemma KeepStep<T(!new)>(xs: seq<T>, i: nat, present: set<T>)
    requires i < |xs| && xs[i] in present
    ensures Existing(xs[..i], present) + xs[i..] == Existing(xs[..i + 1], present) + xs[i + 1..]
  {
    assert xs[..i + 1] == xs[..i] + [xs[i]];
    assert xs[i..] == [xs[i]] + xs[i + 1..];
    ExistingSnoc(xs[..i], xs[i], present);
  }

  /** The index of the first path of `xs` that exists, or `|xs|`. */
  function FirstExisting<T(==)>(xs: seq<T>, present: set<T>): (k: nat)
    ensures k <= |xs|
    ensures forall j :: 0 <= j < k ==> xs[j] !in present
    ensures k < |xs| ==> xs[k] in present
  {
    if xs == [] || xs[0] in present then 0
    else 1 + FirstExisting(xs[1..], present)
  }

  /** A path that exists after a stretch of missing ones is the first that
      exists: what is left of the list starts with it. */
  lemma FirstExistingAt<T(!new)>(xs: seq<T>, present: set<T>, i: nat)
    requires i < |xs| && xs[i] in present
    requires Existing(xs[..i], present) == []
    ensures Existing(xs, present) != []
    ensures Existing(xs[..i], present) + xs[i..] == xs[FirstExisting(xs, present)..]
  {
    ExistingMembers(xs[..i], present);
    ExistingMembers(xs, present);
    assert xs[i] in Existing(xs, present);
    assert forall k :: 0 <= k < i ==> xs[k] !in present by {
      forall k | 0 <= k < i ensures xs[k] !in present {
        assert xs[k] == xs[..i][k];
      }
    }
    assert FirstExisting(xs, present) == i;
  }

  /** Once every path is visited, the list left is the existing paths. */
  lemma AllVisited<T(!new)>(xs: seq<T>, present: set<T>)
    ensures Existing(xs[..|xs|], present) + xs[|xs|..] == Existing(xs, present)
  {
    assert xs[..|xs|] == xs;
  }
}
