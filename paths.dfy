/**
 * `pathlib.PurePosixPath` as the plugin uses it (parsing, `parts`, `str`,
 * `relative_to`, `/`), the `PathUtils` matchers over newline-separated path
 * lists, and `PathRemoveUtils.remove_parent_dir` over a small model of the
 * local file system.
 */
module Paths {
  import opened Wrappers
  import opened Strings

  // ------------------------------------------------------------ pure paths

  /** A parsed POSIX path: anchored at "/" or not, and its components. */
  datatype Path = Path(absolute: bool, comps: seq<string>)

  predicate IsComponent(c: string) {
    c != "" && c != "." && '/' !in c
  }

  /** What parsing produces: no empty, "." or slash-holding component. */
  predicate Normal(p: Path) {
    forall i | 0 <= i < |p.comps| :: IsComponent(p.comps[i])
  }

  /** Drops the empty and "." pieces between slashes. */
  function KeepComponents(xs: seq<string>): (r: seq<string>)
    ensures forall i | 0 <= i < |r| :: r[i] in xs && r[i] != "" && r[i] != "."
    decreases |xs|
  {
    if xs == [] then []
    else if xs[0] == "" || xs[0] == "." then KeepComponents(xs[1..])
    else [xs[0]] + KeepComponents(xs[1..])
  }

  /** `PurePosixPath(s)`; a leading "//" is read as "/". */
  function Parse(s: string): (p: Path)
    ensures Normal(p)
  {
    var pieces := Split(s, '/');
    var comps := KeepComponents(pieces);
    assert forall i | 0 <= i < |comps| :: '/' !in comps[i] by {
      forall i | 0 <= i < |comps|
        ensures '/' !in comps[i]
      {
        var j :| 0 <= j < |pieces| && pieces[j] == comps[i];
      }
    }
    Path(|s| > 0 && s[0] == '/', comps)
  }

  /** `str(path)` */
  function ToString(p: Path): string {
    if p.absolute then "/" + Join(p.comps, "/")
    else if p.comps == [] then "."
    else Join(p.comps, "/")
  }

  /** `path.parts` */
  function Parts(p: Path): seq<string> {
    (if p.absolute then ["/"] else []) + p.comps
  }

  lemma {:induction false} KeepAll(xs: seq<string>)
    requires forall i | 0 <= i < |xs| :: IsComponent(xs[i])
    ensures KeepComponents(xs) == xs
    decreases |xs|
  {
    if xs != [] {
      KeepAll(xs[1..]);
      assert xs == [xs[0]] + xs[1..];
    }
  }

  /** `PurePosixPath(str(p)) == p`: the string form of a parsed path parses back to it. */
  lemma {:induction false} ParseToString(p: Path)
    requires Normal(p)
    ensures Parse(ToString(p)) == p
  {
    var s := ToString(p);
    if p.absolute {
      var pieces := [""] + p.comps;
      if p.comps == [] {
        pieces := ["", ""];
        assert Join(pieces, "/") == s;
      } else {
        assert Join(pieces, "/") == s;
      }
      SplitJoin(pieces, '/');
      KeepAll(p.comps);
      if p.comps == [] {
        assert KeepComponents(["", ""]) == KeepComponents([""][1..]);
      } else {
        assert KeepComponents(pieces) == KeepComponents(pieces[1..]);
        assert pieces[1..] == p.comps;
      }
    } else if p.comps == [] {
      assert Split(s, '/') == ["."];
    } else {
      SplitJoin(p.comps, '/');
      KeepAll(p.comps);
      JoinHead(p.comps, "/");
      assert s[0] == p.comps[0][0];
      assert p.comps[0][0] in p.comps[0];
    }
  }

  /** A join starts with its first part. */
  lemma {:induction false} JoinHead(parts: seq<string>, sep: string)
    requires |parts| >= 1
    ensures |Join(parts, sep)| >= |parts[0]| && Join(parts, sep)[..|parts[0]|] == parts[0]
  {
  }

  predicate IsPrefix(a: seq<string>, b: seq<string>) {
    |a| <= |b| && b[..|a|] == a
  }

  /** `PathUtils.has_prefix`: the prefix's parts are an initial segment of the full path's parts. */
  function HasPrefix(full: string, prefix: string): bool {
    IsPrefix(Parts(Parse(prefix)), Parts(Parse(full)))
  }

  /** `has_prefix` is reflexive, transitive, and false when the prefix has more parts. */
  lemma {:induction false} HasPrefixOrder(a: string, b: string, c: string)
    ensures HasPrefix(a, a)
    ensures HasPrefix(a, b) && HasPrefix(b, c) ==> HasPrefix(a, c)
    ensures |Parts(Parse(b))| > |Parts(Parse(a))| ==> !HasPrefix(a, b)
  {
    if HasPrefix(a, b) && HasPrefix(b, c) {
      var pa, pb, pc := Parts(Parse(a)), Parts(Parse(b)), Parts(Parse(c));
      assert pa[..|pb|] == pb;
      assert pb[..|pc|] == pc;
      assert pa[..|pc|] == pa[..|pb|][..|pc|];
    }
  }

  /** Matching is by whole components: "/ab" does not lie under "/a". */
  lemma {:induction false} ComponentsNotCharacters(x: string, y: string)
    requires IsComponent(x) && IsComponent(y) && x != y
    ensures !HasPrefix("/" + y, "/" + x)
  {
    ParseToString(Path(true, [x]));
    ParseToString(Path(true, [y]));
    assert ToString(Path(true, [x])) == "/" + x;
    assert ToString(Path(true, [y])) == "/" + y;
    assert Parts(Parse("/" + x)) == ["/", x];
    assert Parts(Parse("/" + y)) == ["/", y];
    assert ["/", y][..2][1] != ["/", x][1];
  }

  /**
   * `path.relative_to(base)`: the rest of the parts when `base` is a leading
   * part of `path`; `None` stands for the ValueError. A relative path is only
   * relative to "." when it is itself relative.
   */
  function RelativeTo(p: Path, base: Path): Option<Path> {
    if !base.absolute && base.comps == [] then
      if p.absolute then None else Some(p)
    else if base.absolute == p.absolute && IsPrefix(base.comps, p.comps) then
      Some(Path(false, p.comps[|base.comps|..]))
    else
      None
  }

  /** `a / b` */
  function JoinPath(a: Path, b: Path): Path {
    if b.absolute then b else Path(a.absolute, a.comps + b.comps)
  }

  /** `base / path.relative_to(base) == path` whenever `relative_to` succeeds. */
  lemma {:induction false} RelativeToJoin(p: Path, base: Path)
    requires RelativeTo(p, base).Some?
    ensures JoinPath(base, RelativeTo(p, base).value) == p
  {
    if base.absolute || base.comps != [] {
      assert base.comps + p.comps[|base.comps|..] == p.comps;
    }
  }

  /** On normal paths, the parts of `b` lead those of `p` exactly when both are anchored alike and the components lead. */
  lemma {:induction false} PartsPrefix(p: Path, b: Path)
    requires Normal(p) && Normal(b)
    requires b.absolute || b.comps != []
    ensures IsPrefix(Parts(b), Parts(p)) <==> b.absolute == p.absolute && IsPrefix(b.comps, p.comps)
  {
    var pp, bp := Parts(p), Parts(b);
    if b.absolute && p.absolute {
      ConsPrefix("/", b.comps, p.comps);
    } else if !b.absolute && !p.absolute {
      assert bp == b.comps && pp == p.comps;
    } else if b.absolute {
      NoSlashComponent(p);
      assert bp[0] == "/";
    } else {
      NoSlashComponent(b);
      assert pp[0] == "/";
    }
  }

  /** No component of a normal path is the root part "/". */
  lemma {:induction false} NoSlashComponent(p: Path)
    requires Normal(p)
    ensures forall i | 0 <= i < |p.comps| :: p.comps[i] != "/"
  {
    forall i | 0 <= i < |p.comps|
      ensures p.comps[i] != "/"
    {
      assert "/"[0] == '/';
      assert IsComponent(p.comps[i]);
    }
  }

  lemma {:induction false} ConsPrefix(x: string, a: seq<string>, b: seq<string>)
    ensures IsPrefix([x] + a, [x] + b) <==> IsPrefix(a, b)
  {
    if IsPrefix([x] + a, [x] + b) {
      assert b[..|a|] == ([x] + b)[..|a| + 1][1..];
    }
    if IsPrefix(a, b) {
      assert ([x] + b)[..|a| + 1] == [x] + b[..|a|];
    }
  }

  /**
   * On parsed paths, `relative_to` succeeds exactly when `has_prefix` holds,
   * except for the base "." under an absolute path.
   */
  lemma {:induction false} RelativeToIffPrefix(full: string, prefix: string)
    ensures var p, b := Parse(full), Parse(prefix);
      RelativeTo(p, b).Some? <==> HasPrefix(full, prefix) && !(!b.absolute && b.comps == [] && p.absolute)
  {
    var b := Parse(prefix);
    if b.absolute || b.comps != [] {
      PartsPrefix(Parse(full), b);
    }
  }

  // ------------------------------------------------------- path-list lookups

  /** Some non-empty line of `lines` is a component prefix of `target`. */
  function AnyPrefixLine(lines: seq<string>, target: string): (r: bool)
    ensures r <==> exists i | 0 <= i < |lines| :: lines[i] != "" && HasPrefix(target, lines[i])
    decreases |lines|
  {
    if lines == [] then false
    else if lines[0] != "" && HasPrefix(target, lines[0]) then true
    else
      var r := AnyPrefixLine(lines[1..], target);
      assert r <==> exists i | 1 <= i < |lines| :: lines[i] != "" && HasPrefix(target, lines[i]) by {
        if r {
          var i :| 0 <= i < |lines[1..]| && lines[1..][i] != "" && HasPrefix(target, lines[1..][i]);
          assert lines[i + 1] == lines[1..][i];
        }
        if exists i | 1 <= i < |lines| :: lines[i] != "" && HasPrefix(target, lines[i]) {
          var i :| 1 <= i < |lines| && lines[i] != "" && HasPrefix(target, lines[i]);
          assert lines[1..][i - 1] == lines[i];
        }
      }
      r
  }

  /** `PathUtils.get_run_transfer_path`: is `transferPath` under one of the configured lines? */
  function GetRunTransferPath(paths: string, transferPath: string): bool {
    AnyPrefixLine(Split(paths, '\n'), transferPath)
  }

  /** `PathUtils.get_scrape_metadata_exclude_path`: is `scrapePath` under one of the excluded lines? */
  function GetScrapeMetadataExcludePath(paths: string, scrapePath: string): bool {
    AnyPrefixLine(Split(paths, '\n'), scrapePath)
  }

  /**
   * The first non-empty "local#pan" line whose pan part is a prefix of
   * `media`. A non-empty line without "#" reached before a match raises
   * IndexError, rendered as `Err`.
   */
  function FindMediaLine(lines: seq<string>, media: string): (r: Result<Option<(string, string)>, string>)
    ensures r.Ok? && r.value.Some? ==>
      var (local, pan) := r.value.value;
      (local + "#" + pan) in lines && '#' !in local && HasPrefix(media, pan)
    ensures r == Ok(None) ==>
      forall line | line in lines && line != "" ::
        SplitFirst(line, '#').Some? && !HasPrefix(media, SplitFirst(line, '#').value.1)
    ensures r.Err? ==> exists line | line in lines :: line != "" && '#' !in line
    decreases |lines|
  {
    if lines == [] then Ok(None)
    else if lines[0] == "" then
      var r := FindMediaLine(lines[1..], media);
      assert forall x | x in lines[1..] :: x in lines;
      assert forall x | x in lines :: x == "" || x in lines[1..];
      r
    else
      match SplitFirst(lines[0], '#')
      case None => Err("IndexError: list index out of range")
      case Some((local, pan)) =>
        if HasPrefix(media, pan) then
          Ok(Some((local, pan)))
        else
          var r := FindMediaLine(lines[1..], media);
          assert forall x | x in lines[1..] :: x in lines;
          assert forall x | x in lines :: x == lines[0] || x in lines[1..];
          r
  }

  /** `PathUtils.get_media_path`: `Some((local, pan))` stands for `(True, local, pan)`, `None` for `(False, None, None)`. */
  function GetMediaPath(paths: string, mediaPath: string): Result<Option<(string, string)>, string> {
    FindMediaLine(Split(paths, '\n'), mediaPath)
  }

  /**
   * `PathUtils.get_p115_strm_path`: on a match, `f"{local / media.relative_to(pan)}#{media}"`.
   * `relative_to` can still raise when the pan part is empty and the media path absolute.
   */
  function GetP115StrmPath(paths: string, mediaPath: string): Result<Option<string>, string> {
    match GetMediaPath(paths, mediaPath)
    case Err(e) => Err(e)
    case Ok(None) => Ok(None)
    case Ok(Some((local, pan))) =>
      match RelativeTo(Parse(mediaPath), Parse(pan))
      case None => Err("ValueError: not a subpath")
      case Some(rel) => Ok(Some(ToString(JoinPath(Parse(local), rel)) + "#" + mediaPath))
  }

  /**
   * The generated line ends with "#" and the media path, and its local part is
   * the local directory followed by the media path's components below the pan directory.
   */
  lemma {:induction false} StrmPathShape(paths: string, mediaPath: string)
    requires GetP115StrmPath(paths, mediaPath).Ok? && GetP115StrmPath(paths, mediaPath).value.Some?
    ensures var line := GetP115StrmPath(paths, mediaPath).value.value;
      var (local, pan) := GetMediaPath(paths, mediaPath).value.value;
      var rel := RelativeTo(Parse(mediaPath), Parse(pan)).value;
      && HasPrefix(mediaPath, pan)
      && JoinPath(Parse(pan), rel) == Parse(mediaPath)
      && line == ToString(JoinPath(Parse(local), rel)) + "#" + mediaPath
  {
    var (local, pan) := GetMediaPath(paths, mediaPath).value.value;
    RelativeToJoin(Parse(mediaPath), Parse(pan));
  }

  // --------------------------------------------------------- local file system

  /**
   * The local file system: the absolute paths (as component lists) of the
   * regular files and of the directories. The root `[]` always exists.
   */
  datatype Fs = Fs(files: set<seq<string>>, dirs: set<seq<string>>)

  predicate StrictlyBelow(d: seq<string>, e: seq<string>) {
    |d| < |e| && e[..|d|] == d
  }

  predicate IsDir(fs: Fs, d: seq<string>) {
    d == [] || d in fs.dirs
  }

  /** `any(d.iterdir())` */
  predicate HasEntries(fs: Fs, d: seq<string>) {
    (exists f | f in fs.files :: StrictlyBelow(d, f)) || (exists e | e in fs.dirs :: StrictlyBelow(d, e))
  }

  /** `shutil.rmtree(d)`: `d` and everything below it disappear. */
  function RmTree(fs: Fs, d: seq<string>): (r: Fs)
    ensures r.files <= fs.files && r.dirs <= fs.dirs
    ensures d !in r.dirs
  {
    Fs(set f | f in fs.files && !StrictlyBelow(d, f),
       set e | e in fs.dirs && e != d && !StrictlyBelow(d, e))
  }

  /** Removing a directory without entries removes that directory only. */
  lemma {:induction false} RmTreeEmpty(fs: Fs, d: seq<string>)
    requires !HasEntries(fs, d)
    ensures RmTree(fs, d) == Fs(fs.files, fs.dirs - {d})
  {
  }

  /** The `k`-th entry of `file.parents`, nearest first, for `1 <= k <= |file|`. */
  function Ancestor(file: seq<string>, k: nat): seq<string>
    requires k <= |file|
  {
    file[..|file| - k]
  }

  /**
   * The `mode` of `remove_parent_dir`: "all" keeps a directory that has any
   * entry; an extension list keeps one for which `SystemUtils.exits_files`
   * holds. That helper is given by the set of file paths whose names the
   * list's pattern matches.
   */
  datatype Mode = All | Extensions(matching: set<seq<string>>)

  /** `SystemUtils.exits_files(d, extensions)`: `d` exists and a matching file lies below it, at any depth. */
  predicate ExitsFiles(fs: Fs, d: seq<string>, matching: set<seq<string>>) {
    IsDir(fs, d) && exists f | f in fs.files && f in matching :: StrictlyBelow(d, f)
  }

  /** The test that spares a directory in the given mode. */
  predicate Occupied(fs: Fs, d: seq<string>, mode: Mode) {
    match mode
    case All => HasEntries(fs, d)
    case Extensions(matching) => ExitsFiles(fs, d, matching)
  }

  /**
   * The loop of `remove_parent_dir` from the `k`-th parent on: counting
   * stops after the third parent; a parent whose own parent is the root is
   * never removed; a missing parent raises FileNotFoundError (from
   * `iterdir` in mode "all", from `rmtree` in extension mode, where
   * `exits_files` answers False for it); a parent the mode does not spare
   * is removed with everything below it.
   */
  function RemoveWalk(fs: Fs, file: seq<string>, mode: Mode, k: nat): Result<Fs, string>
    requires 1 <= k
    decreases |file| + 1 - k
  {
    if k > |file| || k > 3 then Ok(fs)
    else
      var d := Ancestor(file, k);
      if |d| < 2 then RemoveWalk(fs, file, mode, k + 1)
      else if !IsDir(fs, d) then Err("FileNotFoundError")
      else if Occupied(fs, d, mode) then RemoveWalk(fs, file, mode, k + 1)
      else RemoveWalk(RmTree(fs, d), file, mode, k + 1)
  }

  /**
   * `remove_parent_dir(file, mode)`: nothing happens while the file's own
   * directory is spared; in mode "all" a missing one raises.
   */
  function RemoveParentDirSpec(fs: Fs, file: seq<string>, mode: Mode): Result<Fs, string> {
    var parent := if file == [] then [] else Ancestor(file, 1);
    if mode.All? && !IsDir(fs, parent) then Err("FileNotFoundError")
    else if Occupied(fs, parent, mode) then Ok(fs)
    else RemoveWalk(fs, file, mode, 1)
  }

  /** `PathRemoveUtils.remove_parent_dir`, as the loop over `file.parents` with counter `i`. */
  method RemoveParentDir(fs: Fs, file: seq<string>, mode: Mode) returns (r: Result<Fs, string>)
    ensures r == RemoveParentDirSpec(fs, file, mode)
  {
    var parent := if file == [] then [] else Ancestor(file, 1);
    if mode.All? && !IsDir(fs, parent) {
      return Err("FileNotFoundError");
    }
    if Occupied(fs, parent, mode) {
      return Ok(fs);
    }
    var cur := fs;
    var i := 0;
    while i < |file|
      invariant 0 <= i <= |file|
      invariant RemoveWalk(fs, file, mode, 1) == (if i <= 3 then RemoveWalk(cur, file, mode, i + 1) else Ok(cur))
      decreases |file| - i
    {
      var parentPath := Ancestor(file, i + 1);
      i := i + 1;
      if i > 3 {
        break;
      }
      if |parentPath| >= 2 {
        if !IsDir(cur, parentPath) {
          return Err("FileNotFoundError");
        }
        if !Occupied(cur, parentPath, mode) {
          cur := RmTree(cur, parentPath);
        }
      }
    }
    return Ok(cur);
  }

  /**
   * `p` is, or lies below, one of the parents `k` to 3 of `file` whose own
   * parent is not the root.
   */
  predicate UnderParent(file: seq<string>, p: seq<string>, k: nat) {
    exists j | k <= j <= 3 && j <= |file| :: |Ancestor(file, j)| >= 2 && (p == Ancestor(file, j) || StrictlyBelow(Ancestor(file, j), p))
  }

  /**
   * `remove_parent_dir` creates nothing and removes only what is, or lies
   * below, one of the file's three nearest parents whose own parent is not
   * the root. In mode "all" it removes exactly such parents and never a
   * file; with an extension list it never deletes a file the list matches,
   * while the files it does not match go with their directory.
   */
  lemma {:induction false} RemoveParentDirBounds(fs: Fs, file: seq<string>, mode: Mode)
    requires RemoveParentDirSpec(fs, file, mode).Ok?
    ensures var r := RemoveParentDirSpec(fs, file, mode).value;
      && r.files <= fs.files
      && r.dirs <= fs.dirs
      && (forall e | e in fs.dirs - r.dirs :: UnderParent(file, e, 1))
      && (forall f | f in fs.files - r.files :: UnderParent(file, f, 1))
      && (mode.All? ==> r.files == fs.files)
      && (mode.All? ==> forall e | e in fs.dirs - r.dirs :: exists k | 1 <= k <= 3 && k <= |file| :: e == Ancestor(file, k) && |e| >= 2)
      && (mode.Extensions? ==> forall f | f in fs.files && f in mode.matching :: f in r.files)
  {
    var parent := if file == [] then [] else Ancestor(file, 1);
    if !Occupied(fs, parent, mode) {
      RemoveWalkBounds(fs, file, mode, 1);
      if mode.All? {
        RemoveWalkAll(fs, file, 1);
      } else {
        RemoveWalkKeepsMatching(fs, file, mode.matching, 1);
      }
    }
  }

  /** Every walk removes only what lies under the parents it visits, and adds nothing. */
  lemma {:induction false} RemoveWalkBounds(fs: Fs, file: seq<string>, mode: Mode, k: nat)
    requires 1 <= k
    requires RemoveWalk(fs, file, mode, k).Ok?
    ensures var r := RemoveWalk(fs, file, mode, k).value;
      && r.files <= fs.files
      && r.dirs <= fs.dirs
      && (forall e | e in fs.dirs - r.dirs :: UnderParent(file, e, k))
      && (forall f | f in fs.files - r.files :: UnderParent(file, f, k))
    decreases |file| + 1 - k
  {
    if k > |file| || k > 3 {
    } else {
      var d := Ancestor(file, k);
      if |d| < 2 || Occupied(fs, d, mode) {
        RemoveWalkBounds(fs, file, mode, k + 1);
        UnderParentLater(file, k);
      } else {
        var next := RmTree(fs, d);
        RemoveWalkBounds(next, file, mode, k + 1);
        UnderParentLater(file, k);
        var r := RemoveWalk(fs, file, mode, k).value;
        forall p | (p in fs.dirs - r.dirs) || (p in fs.files - r.files)
          ensures UnderParent(file, p, k)
        {
          if p == d || StrictlyBelow(d, p) {
            assert |Ancestor(file, k)| >= 2;
          } else {
            assert (p in next.dirs - r.dirs) || (p in next.files - r.files);
          }
        }
      }
    }
  }

  lemma UnderParentLater(file: seq<string>, k: nat)
    ensures forall p | UnderParent(file, p, k + 1) :: UnderParent(file, p, k)
  {
  }

  /** In mode "all" the walk removes only empty parents: exactly such parents go, and no file. */
  lemma {:induction false} RemoveWalkAll(fs: Fs, file: seq<string>, k: nat)
    requires 1 <= k
    requires RemoveWalk(fs, file, All, k).Ok?
    ensures var r := RemoveWalk(fs, file, All, k).value;
      && r.files == fs.files
      && forall e | e in fs.dirs - r.dirs :: exists j | k <= j <= 3 && j <= |file| :: e == Ancestor(file, j) && |e| >= 2
    decreases |file| + 1 - k
  {
    if k > |file| || k > 3 {
    } else {
      var d := Ancestor(file, k);
      if |d| < 2 || HasEntries(fs, d) {
        RemoveWalkAll(fs, file, k + 1);
      } else {
        var next := RmTree(fs, d);
        RmTreeEmpty(fs, d);
        RemoveWalkAll(next, file, k + 1);
        var r := RemoveWalk(fs, file, All, k).value;
        forall e | e in fs.dirs - r.dirs
          ensures exists j | k <= j <= 3 && j <= |file| :: e == Ancestor(file, j) && |e| >= 2
        {
          if e == d {
            assert e == Ancestor(file, k);
          } else {
            assert e in next.dirs - r.dirs;
          }
        }
      }
    }
  }

  /** With an extension list the walk keeps every file the list matches. */
  lemma {:induction false} RemoveWalkKeepsMatching(fs: Fs, file: seq<string>, matching: set<seq<string>>, k: nat)
    requires 1 <= k
    requires RemoveWalk(fs, file, Extensions(matching), k).Ok?
    ensures forall f | f in fs.files && f in matching :: f in RemoveWalk(fs, file, Extensions(matching), k).value.files
    decreases |file| + 1 - k
  {
    if k > |file| || k > 3 {
    } else {
      var d := Ancestor(file, k);
      if |d| < 2 || ExitsFiles(fs, d, matching) {
        RemoveWalkKeepsMatching(fs, file, matching, k + 1);
      } else {
        var next := RmTree(fs, d);
        forall f | f in fs.files && f in matching
          ensures f in next.files
        {
          assert !StrictlyBelow(d, f);
        }
        RemoveWalkKeepsMatching(next, file, matching, k + 1);
      }
    }
  }

  /**
   * With an extension list, a parent that holds only files the list does
   * not match is removed together with those files.
   */
  lemma {:induction false} ExtensionModeDropsOtherFiles()
    ensures var fs := Fs({["m", "s", "a.nfo"]}, {["m"], ["m", "s"]});
      RemoveParentDirSpec(fs, ["m", "s", "a.strm"], Extensions({})) == Ok(Fs({}, {["m"]}))
  {
    var fs := Fs({["m", "s", "a.nfo"]}, {["m"], ["m", "s"]});
    var file: seq<string> := ["m", "s", "a.strm"];
    assert Ancestor(file, 1) == ["m", "s"];
    assert Ancestor(file, 2) == ["m"];
    assert StrictlyBelow(["m", "s"], ["m", "s", "a.nfo"]);
    var next := RmTree(fs, ["m", "s"]);
    assert next.files == {} by {
      assert forall f | f in fs.files :: StrictlyBelow(["m", "s"], f);
    }
    assert next.dirs == {["m"]} by {
      assert !StrictlyBelow(["m", "s"], ["m"]) && ["m"] != ["m", "s"];
    }
    assert RemoveWalk(fs, file, Extensions({}), 1) == RemoveWalk(next, file, Extensions({}), 2);
  }
}
