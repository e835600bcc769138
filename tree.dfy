/**
 * `TxtFileStorage` (utils/tree.py), the text-file backend of
 * `DirectoryTree`: one path per line, set difference against another tree,
 * 1-based line numbers, and the count of non-blank lines. The file is the
 * storage's text, or None while it does not exist.
 */
module Tree {
  import opened Wrappers
  import opened Strings

  const FileNotFound: string := "FileNotFoundError"

  /** The length of the first line: the characters before the first "\n". */
  function LineLength(text: string): (n: nat)
    ensures n <= |text|
    ensures forall i | 0 <= i < n :: text[i] != '\n'
    ensures n < |text| ==> text[n] == '\n'
    decreases |text|
  {
    if text == "" || text[0] == '\n' then 0 else 1 + LineLength(text[1..])
  }

  /** The lines Python's line iteration yields, each without its "\n". */
  function Lines(text: string): seq<string>
    decreases |text|
  {
    if text == "" then []
    else
      var n := LineLength(text);
      [text[..n]] + (if n == |text| then [] else Lines(text[n + 1..]))
  }

  /** What `writelines(f"{path}\n" for path in paths)` writes. */
  function Written(paths: seq<string>): string
    decreases |paths|
  {
    if paths == [] then "" else paths[0] + "\n" + Written(paths[1..])
  }

  /** A text the writer could have left: empty, or ending with a line break. */
  predicate Terminated(text: string) {
    text == "" || text[|text| - 1] == '\n'
  }

  predicate NoLineBreaks(paths: seq<string>) {
    forall i | 0 <= i < |paths| :: '\n' !in paths[i]
  }

  /** The stripped lines of a file, as the set `compare_trees` builds of the other tree. */
  function StrippedSet(lines: seq<string>): set<string> {
    set i | 0 <= i < |lines| :: Strip(lines[i])
  }

  /** The other tree's set: empty when its file does not exist. */
  function OtherSet(other: Option<string>): set<string> {
    if other.None? then {} else StrippedSet(Lines(other.value))
  }

  /** The stripped lines of `lines` that are not in `other`, in order. */
  function Diff(lines: seq<string>, other: set<string>): seq<string>
    decreases |lines|
  {
    if lines == [] then []
    else if Strip(lines[0]) !in other then [Strip(lines[0])] + Diff(lines[1..], other)
    else Diff(lines[1..], other)
  }

  /** The line numbers of those lines, counting the first of `lines` as `n`. */
  function DiffLines(lines: seq<string>, other: set<string>, n: int): seq<int>
    decreases |lines|
  {
    if lines == [] then []
    else if Strip(lines[0]) !in other then [n] + DiffLines(lines[1..], other, n + 1)
    else DiffLines(lines[1..], other, n + 1)
  }

  /** The stripped line numbered `k`, counting the first of `lines` as 1. */
  function LineAt(lines: seq<string>, k: int): Option<string>
    decreases |lines|
  {
    if lines == [] || k <= 0 then None
    else if k == 1 then Some(Strip(lines[0]))
    else LineAt(lines[1..], k - 1)
  }

  /** The number of lines that are not blank once stripped. */
  function CountNonBlank(lines: seq<string>): nat
    decreases |lines|
  {
    if lines == [] then 0
    else if Strip(lines[0]) != "" then 1 + CountNonBlank(lines[1..])
    else CountNonBlank(lines[1..])
  }

  /** `compare_trees`: a missing file of this tree raises; a missing other file counts as empty. */
  function CompareTreesSpec(text: Option<string>, other: Option<string>): Result<seq<string>, string> {
    if text.None? then Err(FileNotFound) else Ok(Diff(Lines(text.value), OtherSet(other)))
  }

  /** `compare_trees_lines`, with the same errors. */
  function CompareTreesLinesSpec(text: Option<string>, other: Option<string>): Result<seq<int>, string> {
    if text.None? then Err(FileNotFound) else Ok(DiffLines(Lines(text.value), OtherSet(other), 1))
  }

  /** `get_path_by_line_number` */
  function PathByLineSpec(text: Option<string>, n: int): Option<string> {
    if n <= 0 || text.None? then None else LineAt(Lines(text.value), n)
  }

  /** `count`: 0 for a missing file. */
  function CountSpec(text: Option<string>): nat {
    if text.None? then 0 else CountNonBlank(Lines(text.value))
  }

  class TxtFileStorage {
    /** The file's text; None while the file does not exist. */
    var text: Option<string>

    constructor(existing: Option<string>)
      ensures text == existing
    {
      text := existing;
    }

    /** `add_paths`: mode "w" replaces the file, mode "a" appends (creating it if missing). */
    method AddPaths(paths: seq<string>, append: bool)
      modifies this
      ensures text == Some((if append && old(text).Some? then old(text).value else "") + Written(paths))
    {
      var written := if append && text.Some? then text.value else "";
      ghost var start := written;
      var rest := paths;
      while rest != []
        invariant start + Written(paths) == written + Written(rest)
        decreases |rest|
      {
        written := written + (rest[0] + "\n");
        rest := rest[1..];
      }
      assert Written(rest) == "" && written + "" == written;
      assert written == start + Written(paths);
      text := Some(written);
    }

    method CompareTrees(other: TxtFileStorage) returns (r: Result<seq<string>, string>)
      ensures r == CompareTreesSpec(text, other.text)
    {
      var otherSet := OtherSet(other.text);
      if text.None? {
        return Err(FileNotFound);
      }
      var lines := Lines(text.value);
      var out: seq<string> := [];
      var rest := lines;
      while rest != []
        invariant Diff(lines, otherSet) == out + Diff(rest, otherSet)
        decreases |rest|
      {
        var filePath := Strip(rest[0]);
        DiffStep(out, rest, otherSet);
        if filePath !in otherSet {
          out := out + [filePath];
        }
        rest := rest[1..];
      }
      assert out + Diff(rest, otherSet) == out;
      r := Ok(out);
    }

    method CompareTreesLines(other: TxtFileStorage) returns (r: Result<seq<int>, string>)
      ensures r == CompareTreesLinesSpec(text, other.text)
    {
      var otherSet := OtherSet(other.text);
      if text.None? {
        return Err(FileNotFound);
      }
      var lines := Lines(text.value);
      var out: seq<int> := [];
      var rest := lines;
      var lineNum := 1;
      while rest != []
        invariant DiffLines(lines, otherSet, 1) == out + DiffLines(rest, otherSet, lineNum)
        decreases |rest|
      {
        DiffLinesStep(out, rest, otherSet, lineNum);
        if Strip(rest[0]) !in otherSet {
          out := out + [lineNum];
        }
        rest := rest[1..];
        lineNum := lineNum + 1;
      }
      assert out + DiffLines(rest, otherSet, lineNum) == out;
      r := Ok(out);
    }

    method GetPathByLineNumber(lineNumber: int) returns (r: Option<string>)
      ensures r == PathByLineSpec(text, lineNumber)
    {
      if lineNumber <= 0 || text.None? {
        return None;
      }
      var lines := Lines(text.value);
      var rest := lines;
      var i := 1;
      while rest != []
        invariant 1 <= i <= lineNumber
        invariant LineAt(lines, lineNumber) == LineAt(rest, lineNumber - i + 1)
        decreases |rest|
      {
        if i == lineNumber {
          return Some(Strip(rest[0]));
        }
        rest := rest[1..];
        i := i + 1;
      }
      assert LineAt(rest, lineNumber - i + 1) == None;
      r := None;
    }

    method Count() returns (c: nat)
      ensures c == CountSpec(text)
    {
      if text.None? {
        return 0;
      }
      var lines := Lines(text.value);
      c := 0;
      var rest := lines;
      while rest != []
        invariant CountNonBlank(lines) == c + CountNonBlank(rest)
        decreases |rest|
      {
        if Strip(rest[0]) != "" {
          c := c + 1;
        }
        rest := rest[1..];
      }
      assert CountNonBlank(rest) == 0;
    }

    /** `clear`: the file is removed if it exists. */
    method Clear()
      modifies this
      ensures text == None
    {
      text := None;
    }
  }

  /** `compare_entry_counts`: the distance between the two counts. */
  method CompareEntryCounts(tree: TxtFileStorage, other: TxtFileStorage) returns (d: nat)
    ensures d as int == if CountSpec(tree.text) >= CountSpec(other.text)
      then CountSpec(tree.text) - CountSpec(other.text)
      else CountSpec(other.text) - CountSpec(tree.text)
  {
    var a := tree.Count();
    var b := other.Count();
    d := if a >= b then a - b else b - a;
  }

  /** `".{ext.lower().lstrip('.')}"`: the extension filter of a directory scan. */
  function NormalizeExtension(ext: string): (r: string) {
    "." + TrimLeftChar(Lower(ext), '.')
  }

  /** `path.suffix.lower() in extensions` */
  predicate ScanKeeps(suffix: string, extensions: seq<string>) {
    exists i | 0 <= i < |extensions| :: Lower(suffix) == NormalizeExtension(extensions[i])
  }

  // ---------------------------------------------------------------- lemmas

  /** The written text ends every path with a line break. */
  lemma {:induction false} WrittenTerminated(paths: seq<string>)
    ensures Terminated(Written(paths))
    decreases |paths|
  {
    if paths != [] {
      WrittenTerminated(paths[1..]);
      var w := Written(paths);
      assert w == (paths[0] + "\n") + Written(paths[1..]);
      if Written(paths[1..]) == "" {
        assert w == paths[0] + "\n";
      }
    }
  }

  /** Reading back what was written gives the paths, when none holds a line break. */
  lemma {:induction false} LinesOfWritten(paths: seq<string>)
    requires NoLineBreaks(paths)
    ensures Lines(Written(paths)) == paths
    decreases |paths|
  {
    if paths != [] {
      LinesAfterBreak(paths[0], Written(paths[1..]));
      LinesOfWritten(paths[1..]);
      assert paths == [paths[0]] + paths[1..];
    }
  }

  /** The first line of a text that starts with a line free of breaks. */
  lemma {:induction false} LineLengthOf(x: string, rest: string)
    requires '\n' !in x
    ensures LineLength(x + "\n" + rest) == |x|
    decreases |x|
  {
    if x != "" {
      assert x[0] != '\n';
      LineLengthOf(x[1..], rest);
      assert (x + "\n" + rest)[1..] == x[1..] + "\n" + rest;
    }
  }

  /** A line with no break in it, its "\n", then the rest of the text. */
  lemma {:induction false} LinesAfterBreak(x: string, rest: string)
    requires '\n' !in x
    ensures Lines(x + "\n" + rest) == [x] + Lines(rest)
  {
    var t := x + "\n" + rest;
    LineLengthOf(x, rest);
    assert t[..|x|] == x;
    assert t[|x| + 1..] == rest;
  }

  /** The text after the first line break of a terminated text is terminated. */
  lemma {:induction false} TailTerminated(a: string, k: nat)
    requires Terminated(a) && k < |a|
    ensures Terminated(a[k + 1..])
  {
    var tail := a[k + 1..];
    if tail != "" {
      assert tail[|tail| - 1] == a[|a| - 1];
    }
  }

  /** A terminated text splits at its first line break into a break-free line and a terminated rest. */
  lemma {:induction false} FirstLine(a: string) returns (x: string, tail: string)
    requires Terminated(a) && a != ""
    ensures a == x + "\n" + tail && '\n' !in x && Terminated(tail) && |tail| < |a|
  {
    var k := LineLength(a);
    assert k < |a| by {
      assert a[|a| - 1] == '\n';
    }
    x := a[..k];
    tail := a[k + 1..];
    assert a == x + "\n" + tail;
    assert forall i | 0 <= i < |x| :: x[i] == a[i];
    TailTerminated(a, k);
  }

  /** No line holds a line break. */
  lemma {:induction false} LinesHaveNoBreaks(text: string)
    ensures NoLineBreaks(Lines(text))
    decreases |text|
  {
    if text != "" {
      var n := LineLength(text);
      var first := text[..n];
      assert '\n' !in first by {
        assert forall i | 0 <= i < |first| :: first[i] == text[i];
      }
      var rest := if n == |text| then [] else Lines(text[n + 1..]);
      if n < |text| {
        LinesHaveNoBreaks(text[n + 1..]);
      }
      NoLineBreaksCons(first, rest);
    }
  }

  lemma NoLineBreaksCons(first: string, rest: seq<string>)
    requires '\n' !in first && NoLineBreaks(rest)
    ensures NoLineBreaks([first] + rest)
  {
    var all := [first] + rest;
    forall i | 0 <= i < |all|
      ensures '\n' !in all[i]
    {
      if i > 0 {
        assert all[i] == rest[i - 1];
      }
    }
  }

  /** Writing back the lines of a terminated text gives the text. */
  lemma {:induction false} WrittenOfLines(text: string)
    requires Terminated(text)
    ensures Written(Lines(text)) == text
    decreases |text|
  {
    if text != "" {
      var x, tail := FirstLine(text);
      LinesAfterBreak(x, tail);
      WrittenOfLines(tail);
      var lines := Lines(text);
      assert lines[1..] == Lines(tail);
    }
  }

  /** Writing two lists of paths one after the other. */
  lemma {:induction false} WrittenAppend(p: seq<string>, q: seq<string>)
    ensures Written(p + q) == Written(p) + Written(q)
    decreases |p|
  {
    if p != [] {
      WrittenAppend(p[1..], q);
      assert (p + q)[1..] == p[1..] + q;
    } else {
      assert p + q == q;
    }
  }

  /** Overwriting makes the tree exactly the paths, in order. */
  lemma {:induction false} OverwriteGivesPaths(paths: seq<string>)
    requires NoLineBreaks(paths)
    ensures Lines("" + Written(paths)) == paths
  {
    assert "" + Written(paths) == Written(paths);
    LinesOfWritten(paths);
  }

  /** Appending to a file the writer left adds the paths after its lines. */
  lemma {:induction false} AppendAddsPaths(existing: string, paths: seq<string>)
    requires Terminated(existing) && NoLineBreaks(paths)
    ensures Lines(existing + Written(paths)) == Lines(existing) + paths
  {
    var before := Lines(existing);
    WrittenOfLines(existing);
    WrittenAppend(before, paths);
    LinesHaveNoBreaks(existing);
    LinesOfWritten(before + paths);
  }

  /** Some line strips to `x`. */
  predicate HasLine(lines: seq<string>, x: string) {
    exists i | 0 <= i < |lines| :: Strip(lines[i]) == x
  }

  lemma HasLineStep(lines: seq<string>, x: string)
    requires lines != []
    ensures HasLine(lines, x) <==> Strip(lines[0]) == x || HasLine(lines[1..], x)
  {
    if HasLine(lines, x) {
      var i :| 0 <= i < |lines| && Strip(lines[i]) == x;
      if i > 0 {
        assert Strip(lines[1..][i - 1]) == x;
      }
    }
    if HasLine(lines[1..], x) {
      var i :| 0 <= i < |lines[1..]| && Strip(lines[1..][i]) == x;
      assert Strip(lines[i + 1]) == x;
    }
  }

  /** A path is in the difference exactly when some line strips to it and the other tree lacks it. */
  lemma {:induction false} DiffMembers(lines: seq<string>, other: set<string>, x: string)
    ensures x in Diff(lines, other) <==> x !in other && HasLine(lines, x)
    decreases |lines|
  {
    if lines != [] {
      DiffMembers(lines[1..], other, x);
      HasLineStep(lines, x);
    }
  }

  /** One line of `compare_trees`: its path is kept when the other tree lacks it. */
  lemma DiffStep(out: seq<string>, rest: seq<string>, other: set<string>)
    requires rest != []
    ensures Strip(rest[0]) !in other ==>
      out + Diff(rest, other) == (out + [Strip(rest[0])]) + Diff(rest[1..], other)
    ensures Strip(rest[0]) in other ==>
      out + Diff(rest, other) == out + Diff(rest[1..], other)
  {
    if Strip(rest[0]) !in other {
      assert out + ([Strip(rest[0])] + Diff(rest[1..], other)) == (out + [Strip(rest[0])]) + Diff(rest[1..], other);
    }
  }

  /** One line of `compare_trees_lines`: its number is kept when the other tree lacks its path. */
  lemma DiffLinesStep(out: seq<int>, rest: seq<string>, other: set<string>, n: int)
    requires rest != []
    ensures Strip(rest[0]) !in other ==>
      out + DiffLines(rest, other, n) == (out + [n]) + DiffLines(rest[1..], other, n + 1)
    ensures Strip(rest[0]) in other ==>
      out + DiffLines(rest, other, n) == out + DiffLines(rest[1..], other, n + 1)
  {
    if Strip(rest[0]) !in other {
      assert out + ([n] + DiffLines(rest[1..], other, n + 1)) == (out + [n]) + DiffLines(rest[1..], other, n + 1);
    }
  }

  /** Against a missing other tree every line is different. */
  lemma {:induction false} DiffAgainstNothing(lines: seq<string>)
    ensures |Diff(lines, {})| == |lines|
    ensures forall i | 0 <= i < |lines| :: Diff(lines, {})[i] == Strip(lines[i])
    decreases |lines|
  {
    if lines != [] {
      DiffAgainstNothing(lines[1..]);
    }
  }

  /**
   * The line numbers of `compare_trees_lines` match the paths of
   * `compare_trees` one for one: the line numbered `DiffLines[k]` is the
   * k-th different path.
   */
  lemma {:induction false} DiffLinesMatch(lines: seq<string>, other: set<string>, n: int)
    requires n >= 1
    ensures var d := Diff(lines, other);
      var ns := DiffLines(lines, other, n);
      |ns| == |d|
      && forall k | 0 <= k < |ns| :: n <= ns[k] < n + |lines| && LineAt(lines, ns[k] - n + 1) == Some(d[k])
    decreases |lines|
  {
    if lines != [] {
      var tail := lines[1..];
      DiffLinesMatch(tail, other, n + 1);
      var d := Diff(lines, other);
      var ns := DiffLines(lines, other, n);
      var dt := Diff(tail, other);
      var nt := DiffLines(tail, other, n + 1);
      if Strip(lines[0]) !in other {
        assert d == [Strip(lines[0])] + dt;
        assert ns == [n] + nt;
        forall k | 0 <= k < |ns|
          ensures n <= ns[k] < n + |lines| && LineAt(lines, ns[k] - n + 1) == Some(d[k])
        {
          if k > 0 {
            assert ns[k] == nt[k - 1] && d[k] == dt[k - 1];
            LineAtTail(lines, ns[k] - n + 1);
          }
        }
      } else {
        assert d == dt && ns == nt;
        forall k | 0 <= k < |ns|
          ensures LineAt(lines, ns[k] - n + 1) == Some(d[k])
        {
          LineAtTail(lines, ns[k] - n + 1);
        }
      }
    }
  }

  /** Past the first line, the line numbered `j` is line `j - 1` of the rest. */
  lemma LineAtTail(lines: seq<string>, j: int)
    requires lines != [] && j >= 2
    ensures LineAt(lines, j) == LineAt(lines[1..], j - 1)
  {
  }

  /** The line numbers `compare_trees_lines` yields are strictly increasing. */
  lemma {:induction false} DiffLinesIncreasing(lines: seq<string>, other: set<string>, n: int)
    ensures forall k | 0 <= k < |DiffLines(lines, other, n)| :: DiffLines(lines, other, n)[k] >= n
    ensures forall k | 0 <= k < |DiffLines(lines, other, n)| - 1 ::
      DiffLines(lines, other, n)[k] < DiffLines(lines, other, n)[k + 1]
    decreases |lines|
  {
    if lines != [] {
      var tail := lines[1..];
      DiffLinesIncreasing(tail, other, n + 1);
      var ns := DiffLines(lines, other, n);
      var nt := DiffLines(tail, other, n + 1);
      if Strip(lines[0]) !in other {
        assert ns == [n] + nt;
        forall k | 0 <= k < |ns|
          ensures ns[k] >= n
        {
          if k > 0 {
            assert ns[k] == nt[k - 1];
          }
        }
        forall k | 0 <= k < |ns| - 1
          ensures ns[k] < ns[k + 1]
        {
          assert ns[k + 1] == nt[k];
          if k > 0 {
            assert ns[k] == nt[k - 1];
          }
        }
      } else {
        assert ns == nt;
      }
    }
  }

  /** `LineAt` is indexing with 1-based line numbers. */
  lemma {:induction false} LineAtIndex(lines: seq<string>, k: int)
    ensures LineAt(lines, k) == if 1 <= k <= |lines| then Some(Strip(lines[k - 1])) else None
    decreases |lines|
  {
    if lines != [] && k > 1 {
      LineAtIndex(lines[1..], k - 1);
    }
  }

  /** `get_path_by_line_number(k)` returns the k-th line of a written tree, stripped. */
  lemma {:induction false} PathByLineOfWritten(paths: seq<string>, k: int)
    requires NoLineBreaks(paths)
    ensures PathByLineSpec(Some(Written(paths)), k) == if 1 <= k <= |paths| then Some(Strip(paths[k - 1])) else None
  {
    LinesOfWritten(paths);
    LineAtIndex(paths, k);
  }

  /** Every number `compare_trees_lines` yields names, through `get_path_by_line_number`, the path `compare_trees` yields at the same position. */
  lemma {:induction false} LineNumbersNamePaths(text: string, other: Option<string>)
    ensures var d := CompareTreesSpec(Some(text), other).value;
      var ns := CompareTreesLinesSpec(Some(text), other).value;
      |ns| == |d| && forall k | 0 <= k < |ns| :: PathByLineSpec(Some(text), ns[k]) == Some(d[k])
  {
    DiffLinesMatch(Lines(text), OtherSet(other), 1);
  }

  /** The count never exceeds the number of lines. */
  lemma {:induction false} CountBounded(lines: seq<string>)
    ensures CountNonBlank(lines) <= |lines|
    decreases |lines|
  {
    if lines != [] {
      CountBounded(lines[1..]);
    }
  }

  /** The count of a written tree is the number of paths that are not blank. */
  lemma {:induction false} CountOfWritten(paths: seq<string>)
    requires NoLineBreaks(paths)
    ensures CountSpec(Some(Written(paths))) == CountNonBlank(paths)
  {
    LinesOfWritten(paths);
  }

  /** No character of `s` is an upper-case ASCII letter. */
  predicate NoUpper(s: string) {
    forall i | 0 <= i < |s| :: !('A' <= s[i] <= 'Z')
  }

  lemma LowerNoUpper(s: string)
    ensures NoUpper(Lower(s))
  {
    var l := Lower(s);
    forall i | 0 <= i < |l|
      ensures !('A' <= l[i] <= 'Z')
    {
      assert l[i] == LowerChar(s[i]);
    }
  }

  /** The normalised extension has exactly one leading ".", and the rest is lower case. */
  lemma {:induction false} NormalizeExtensionShape(ext: string)
    ensures var r := NormalizeExtension(ext);
      |r| >= 1 && r[0] == '.' && (|r| == 1 || r[1] != '.')
      && forall i | 1 <= i < |r| :: !('A' <= r[i] <= 'Z')
  {
    var l := Lower(ext);
    LowerNoUpper(ext);
    var t := TrimLeftChar(l, '.');
    SuffixNoUpper(l, t);
    var r := "." + t;
    assert r == NormalizeExtension(ext);
    assert |r| == 1 || r[1] != '.' by {
      if |r| > 1 {
        assert r[1] == t[0];
      }
    }
    DotNoUpper(t);
  }

  /** Putting "." in front keeps a string free of upper-case letters. */
  lemma DotNoUpper(t: string)
    requires NoUpper(t)
    ensures NoUpper("." + t)
  {
    var r := "." + t;
    forall i | 0 <= i < |r|
      ensures !('A' <= r[i] <= 'Z')
    {
      if i > 0 {
        assert r[i] == t[i - 1];
      }
    }
  }

  /** A tail of a string with no upper-case letter has none either. */
  lemma SuffixNoUpper(l: string, t: string)
    requires NoUpper(l)
    requires |t| <= |l| && t == l[|l| - |t|..]
    ensures NoUpper(t)
  {
    forall i | 0 <= i < |t|
      ensures !('A' <= t[i] <= 'Z')
    {
      assert t[i] == l[|l| - |t| + i];
    }
  }

  /** Normalising twice changes nothing. */
  lemma {:induction false} NormalizeExtensionIdempotent(ext: string)
    ensures NormalizeExtension(NormalizeExtension(ext)) == NormalizeExtension(ext)
  {
    var r := NormalizeExtension(ext);
    NormalizeExtensionShape(ext);
    var l := Lower(r);
    forall i | 0 <= i < |r|
      ensures l[i] == r[i]
    {
      if i > 0 {
        assert !('A' <= r[i] <= 'Z');
      }
    }
    assert l == r;
    var t := TrimLeftChar(r[1..], '.');
    assert TrimLeftChar(r, '.') == TrimLeftChar(r[1..], '.');
    if |r| > 1 {
      assert r[1..][0] == r[1];
    }
    assert t == r[1..];
    assert "." + r[1..] == r;
  }
}
