/**
 * `UploadQueueProcessor`: the single-flight worker that takes the oldest
 * pending task, checks the source file and the upload history, runs the
 * transfer, and then completes the task (recording it in the history and
 * optionally deleting the source) or schedules a retry, failing the task on
 * the third failed attempt.
 *
 * The file system is `Paths.Fs`; the remote storage and the copy helper are
 * the `Backend` oracle; the clock is the `now` of an `Env`; and `fault` names
 * the store call that raises, if any (calls are numbered in the order a run
 * makes them: 0 dequeue, 1 mark processing, 2 mark failed or history lookup,
 * 3 mark completed / retry / failed, 4 history insert).
 */
module Processor {
  import opened Wrappers
  import opened Strings
  import opened Paths
  import opened UploadQueueTable
  import opened UploadHistoryTable

  /** At most this many attempts: the third failure fails the task. */
  const MaxAttempts: int := 3

  const MissingFileMessage: string := "文件不存在"
  const UploadFalseMessage: string := "上传失败（storagechain.upload_file 返回 False）"
  const NoLocalDestMessage: string := "未配置本地目标路径"

  /** An exception the transfer catches: `type(e).__name__` and `str(e)`. */
  datatype Raised = Raised(name: string, text: string)

  /** `f"{prefix}{type(e).__name__}: {str(e)}"`, the message an `except Exception` handler stores. */
  function ExceptionMessage(prefix: string, e: Raised): string {
    prefix + e.name + ": " + e.text
  }

  /**
   * What the outside world answers during one transfer:
   * - the texts of the TypeError `Path(None)` raises and of the ValueError
   *   `relative_to` raises for this task;
   * - whether a remote call (`get_file_item`, `list_files`, `create_folder`,
   *   `upload_file`) raises, and with what; otherwise the error text when
   *   creating a remote directory fails, and whether `upload_file` succeeds;
   * - whether the parent `mkdir` raises, whether `SystemUtils.copy` raises,
   *   and otherwise the status and message it returns.
   */
  datatype Backend = Backend(
    typeErrorText: string, valueErrorText: string,
    remoteRaises: Option<Raised>, remoteDirError: Option<string>, uploadOk: bool,
    mkdirRaises: Option<Raised>, copyRaises: Option<Raised>, copyStatus: int, copyMessage: string)

  /** One scheduler tick's inputs: the clock, the backend, and the store call that raises. */
  datatype Env = Env(now: int, backend: Backend, fault: Option<nat>)

  /** The state one run reads and writes: both tables and the local file system. */
  datatype World = World(rows: seq<Task>, nextId: nat, records: seq<Record>, historyNextId: nat, fs: Fs)

  /** The result of `_execute_task`: success, the error message, and the file system afterwards. */
  datatype Outcome = Outcome(ok: bool, message: string, fs: Fs)

  // --------------------------------------------------------------- transfer

  /** `Path(dest) / Path(file).relative_to(monitor)`; `None` stands for the ValueError. */
  function TargetPath(dest: string, filePath: string, monitorPath: string): Option<Path> {
    match RelativeTo(Parse(filePath), Parse(monitorPath))
    case None => None
    case Some(rel) => Some(JoinPath(Parse(dest), rel))
  }

  /**
   * The target keeps the file's place below the monitored directory: it lies
   * below the destination exactly as the file lies below the monitored directory.
   */
  lemma {:induction false} TargetKeepsStructure(dest: string, filePath: string, monitorPath: string)
    requires TargetPath(dest, filePath, monitorPath).Some?
    ensures var rel := RelativeTo(Parse(filePath), Parse(monitorPath)).value;
      && RelativeTo(TargetPath(dest, filePath, monitorPath).value, Parse(dest)) == Some(rel)
      && JoinPath(Parse(monitorPath), rel) == Parse(filePath)
  {
    var rel := RelativeTo(Parse(filePath), Parse(monitorPath)).value;
    RelativeToJoin(Parse(filePath), Parse(monitorPath));
    var d := Parse(dest);
    var t := JoinPath(d, rel);
    assert !rel.absolute;
    if d.absolute || d.comps != [] {
      assert t.comps[..|d.comps|] == d.comps;
      assert t.comps[|d.comps|..] == rel.comps;
    } else {
      assert t == rel;
    }
  }

  /** `mkdir(parents=True, exist_ok=True)` of the target's parent: every proper ancestor becomes a directory. */
  function MakeParents(fs: Fs, target: seq<string>): Fs {
    Fs(fs.files, fs.dirs + set i | 1 <= i < |target| :: target[..i])
  }

  /**
   * `_do_upload`: `Path(None)` raises TypeError before `relative_to` can
   * raise ValueError; a raising remote call ends the same way. Each is
   * caught and stored as a "上传异常" message with the exception's type and
   * text. The remote directory walk and `upload_file` are answered by the
   * backend. Nothing local changes.
   */
  function DoUpload(t: Task, fs: Fs, b: Backend): (r: Outcome)
    ensures r.fs == fs
    ensures r.ok <==> t.destRemote.Some? && TargetPath(t.destRemote.value, t.filePath, t.monitorPath).Some?
                      && b.remoteRaises.None? && b.remoteDirError.None? && b.uploadOk
  {
    if t.destRemote.None? then Outcome(false, ExceptionMessage("上传异常: ", Raised("TypeError", b.typeErrorText)), fs)
    else match TargetPath(t.destRemote.value, t.filePath, t.monitorPath)
      case None => Outcome(false, ExceptionMessage("上传异常: ", Raised("ValueError", b.valueErrorText)), fs)
      case Some(_) =>
        if b.remoteRaises.Some? then Outcome(false, ExceptionMessage("上传异常: ", b.remoteRaises.value), fs)
        else if b.remoteDirError.Some? then Outcome(false, "创建目录失败: " + b.remoteDirError.value, fs)
        else if b.uploadOk then Outcome(true, "", fs)
        else Outcome(false, UploadFalseMessage, fs)
  }

  /**
   * `_do_copy`: an empty or missing local destination fails first; otherwise
   * the target's parent directories are created before the copy, and a zero
   * copy status leaves the file at the target. A ValueError from
   * `relative_to`, or a raising `mkdir` or copy, is caught and stored as a
   * "复制异常" message with the exception's type and text.
   */
  function DoCopy(t: Task, fs: Fs, b: Backend): (r: Outcome)
    ensures r.ok <==> t.destLocal.Some? && t.destLocal.value != ""
                      && TargetPath(t.destLocal.value, t.filePath, t.monitorPath).Some?
                      && b.mkdirRaises.None? && b.copyRaises.None? && b.copyStatus == 0
    ensures r.ok ==> TargetPath(t.destLocal.value, t.filePath, t.monitorPath).value.comps in r.fs.files
    ensures r.fs.files >= fs.files && r.fs.dirs >= fs.dirs
  {
    if t.destLocal.None? || t.destLocal.value == "" then Outcome(false, NoLocalDestMessage, fs)
    else match TargetPath(t.destLocal.value, t.filePath, t.monitorPath)
      case None => Outcome(false, ExceptionMessage("复制异常: ", Raised("ValueError", b.valueErrorText)), fs)
      case Some(target) =>
        if b.mkdirRaises.Some? then Outcome(false, ExceptionMessage("复制异常: ", b.mkdirRaises.value), fs)
        else
          var fs1 := MakeParents(fs, target.comps);
          if b.copyRaises.Some? then Outcome(false, ExceptionMessage("复制异常: ", b.copyRaises.value), fs1)
          else if b.copyStatus == 0 then Outcome(true, "", Fs(fs1.files + {target.comps}, fs1.dirs))
          else Outcome(false, "复制失败: " + b.copyMessage, fs1)
  }

  /**
   * A caught exception is stored with its type name and its text, after the
   * operation's prefix: the TypeError of a missing remote destination, and
   * whatever a remote call, `mkdir` or the copy raised.
   */
  lemma {:induction false} ExceptionMessagesKeepText(t: Task, fs: Fs, b: Backend)
    ensures t.destRemote.None? ==>
      DoUpload(t, fs, b).message == "上传异常: TypeError: " + b.typeErrorText
    ensures t.destRemote.Some? && TargetPath(t.destRemote.value, t.filePath, t.monitorPath).Some? && b.remoteRaises.Some? ==>
      DoUpload(t, fs, b).message == "上传异常: " + b.remoteRaises.value.name + ": " + b.remoteRaises.value.text
    ensures t.destLocal.Some? && t.destLocal.value != "" && TargetPath(t.destLocal.value, t.filePath, t.monitorPath).Some? ==>
      (b.mkdirRaises.Some? ==> DoCopy(t, fs, b) == Outcome(false, "复制异常: " + b.mkdirRaises.value.name + ": " + b.mkdirRaises.value.text, fs)) &&
      (b.mkdirRaises.None? && b.copyRaises.Some? ==>
        DoCopy(t, fs, b).message == "复制异常: " + b.copyRaises.value.name + ": " + b.copyRaises.value.text)
  {
    assert "上传异常: " + "TypeError" + ": " + b.typeErrorText == "上传异常: TypeError: " + b.typeErrorText;
  }

  /** `_execute_task`: dispatch on the operation type. */
  function ExecuteTask(t: Task, fs: Fs, b: Backend): (r: Outcome)
    ensures t.operationType == "upload" ==> r == DoUpload(t, fs, b)
    ensures t.operationType == "copy" ==> r == DoCopy(t, fs, b)
    ensures t.operationType != "upload" && t.operationType != "copy" ==>
      r == Outcome(false, "未知的操作类型: " + t.operationType, fs)
  {
    if t.operationType == "upload" then DoUpload(t, fs, b)
    else if t.operationType == "copy" then DoCopy(t, fs, b)
    else Outcome(false, "未知的操作类型: " + t.operationType, fs)
  }

  /** A transfer never deletes anything. */
  lemma {:induction false} ExecuteTaskOnlyAdds(t: Task, fs: Fs, b: Backend)
    ensures ExecuteTask(t, fs, b).fs.files >= fs.files && ExecuteTask(t, fs, b).fs.dirs >= fs.dirs
    ensures !ExecuteTask(t, fs, b).ok ==> ExecuteTask(t, fs, b).message != ""
  {
  }

  // ------------------------------------------------------- source deletion

  /** `Path(p).exists()`: a file or a directory is there. */
  predicate PathExists(fs: Fs, filePath: string) {
    var c := Parse(filePath).comps;
    c == [] || c in fs.files || c in fs.dirs
  }

  /** `SystemUtils.list_files(d)` finds something: some file lies below `d`. */
  predicate FilesBelow(fs: Fs, d: seq<string>) {
    exists f | f in fs.files :: StrictlyBelow(d, f)
  }

  /** `unlink(missing_ok=True)`; unlinking a directory raises, which ends the deletion with nothing changed. */
  function Unlink(fs: Fs, c: seq<string>): Option<Fs> {
    if c == [] || (c in fs.dirs && c !in fs.files) then None else Some(Fs(fs.files - {c}, fs.dirs))
  }

  /** The `k`-th entry of `file.parents`, nearest first. */
  function Parent(p: Path, k: nat): Path
    requires 1 <= k <= |p.comps|
  {
    Path(p.absolute, p.comps[..|p.comps| - k])
  }

  /**
   * The loop of `_delete_source_file` from the `k`-th parent on: stop at a
   * parent whose string is no longer than the monitored directory's, stop at
   * a parent with files below it, remove the others.
   */
  function DeleteWalk(fs: Fs, p: Path, monitorLength: nat, k: nat): Fs
    requires 1 <= k
    decreases |p.comps| + 1 - k
  {
    if k > |p.comps| then fs
    else
      var d := Parent(p, k);
      if |ToString(d)| <= monitorLength then fs
      else if FilesBelow(fs, d.comps) then fs
      else DeleteWalk(RmTree(fs, d.comps), p, monitorLength, k + 1)
  }

  /** `_delete_source_file(file, monitor)`, every exception caught. */
  function DeleteSource(fs: Fs, filePath: string, monitorPath: string): Fs {
    var p := Parse(filePath);
    match Unlink(fs, p.comps)
    case None => fs
    case Some(fs1) => DeleteWalk(fs1, p, |ToString(Parse(monitorPath))|, 1)
  }

  /** `_delete_source_file` as the loop over `file.parents` with its two `break`s. */
  method DeleteSourceFile(fs: Fs, filePath: string, monitorPath: string) returns (r: Fs)
    ensures r == DeleteSource(fs, filePath, monitorPath)
  {
    var p := Parse(filePath);
    var u := Unlink(fs, p.comps);
    if u.None? {
      return fs;
    }
    var monitorLength := |ToString(Parse(monitorPath))|;
    r := u.value;
    var k := 1;
    while k <= |p.comps|
      invariant 1 <= k <= |p.comps| + 1
      invariant DeleteWalk(u.value, p, monitorLength, 1) == DeleteWalk(r, p, monitorLength, k)
      decreases |p.comps| + 1 - k
    {
      var fileDir := Parent(p, k);
      if |ToString(fileDir)| <= monitorLength {
        break;
      }
      if FilesBelow(r, fileDir.comps) {
        break;
      }
      r := RmTree(r, fileDir.comps);
      k := k + 1;
    }
  }

  /**
   * Deleting the source removes that one file and no other: directories go
   * only when no file lies below them, and no directory appears.
   */
  lemma {:induction false} DeleteSourceKeepsOtherFiles(fs: Fs, filePath: string, monitorPath: string)
    ensures var r := DeleteSource(fs, filePath, monitorPath);
      && (r.files == fs.files - {Parse(filePath).comps} || r == fs)
      && r.dirs <= fs.dirs
  {
    var p := Parse(filePath);
    if Unlink(fs, p.comps).Some? {
      DeleteWalkKeepsFiles(Unlink(fs, p.comps).value, p, |ToString(Parse(monitorPath))|, 1);
    }
  }

  lemma {:induction false} DeleteWalkKeepsFiles(fs: Fs, p: Path, monitorLength: nat, k: nat)
    requires 1 <= k
    ensures DeleteWalk(fs, p, monitorLength, k).files == fs.files
    ensures DeleteWalk(fs, p, monitorLength, k).dirs <= fs.dirs
    decreases |p.comps| + 1 - k
  {
    if k <= |p.comps| {
      var d := Parent(p, k);
      if |ToString(d)| > monitorLength && !FilesBelow(fs, d.comps) {
        assert RmTree(fs, d.comps).files == fs.files;
        DeleteWalkKeepsFiles(RmTree(fs, d.comps), p, monitorLength, k + 1);
      }
    }
  }

  /** Appending a non-empty component never shortens the string form. */
  lemma {:induction false} SnocLength(abs: bool, c: seq<string>, x: string)
    requires x != ""
    ensures |ToString(Path(abs, c))| <= |ToString(Path(abs, c + [x]))|
  {
    if c == [] {
      assert c + [x] == [x];
    } else {
      JoinSnoc(c, x, "/");
    }
  }

  /** A path's leading part is never longer, as a string, than the path. */
  lemma {:induction false} PrefixLength(abs: bool, comps: seq<string>, k: nat)
    requires k <= |comps|
    requires forall i | 0 <= i < |comps| :: comps[i] != ""
    ensures |ToString(Path(abs, comps[..k]))| <= |ToString(Path(abs, comps))|
    decreases |comps| - k
  {
    if k < |comps| {
      PrefixLength(abs, comps, k + 1);
      SnocLength(abs, comps[..k], comps[k]);
      assert comps[..k + 1] == comps[..k] + [comps[k]];
    } else {
      assert comps[..k] == comps;
    }
  }

  /**
   * When the file lies below the monitored directory, every directory the
   * deletion removes lies strictly below the monitored directory: the length
   * test then agrees with the prefix test.
   */
  lemma {:induction false} DeleteStaysBelowMonitor(fs: Fs, filePath: string, monitorPath: string)
    requires RelativeTo(Parse(filePath), Parse(monitorPath)).Some?
    ensures forall e | e in fs.dirs - DeleteSource(fs, filePath, monitorPath).dirs ::
      StrictlyBelow(Parse(monitorPath).comps, e)
  {
    var p, m := Parse(filePath), Parse(monitorPath);
    if Unlink(fs, p.comps).Some? {
      DeleteWalkBelow(Unlink(fs, p.comps).value, p, m, 1);
    }
  }

  lemma {:induction false} DeleteWalkBelow(fs: Fs, p: Path, m: Path, k: nat)
    requires 1 <= k
    requires Normal(p) && Normal(m)
    requires RelativeTo(p, m).Some?
    ensures forall e | e in fs.dirs - DeleteWalk(fs, p, |ToString(m)|, k).dirs :: StrictlyBelow(m.comps, e)
    decreases |p.comps| + 1 - k
  {
    var len := |ToString(m)|;
    if k <= |p.comps| {
      var d := Parent(p, k);
      if |ToString(d)| > len && !FilesBelow(fs, d.comps) {
        ParentBelowMonitor(p, m, k);
        var next := RmTree(fs, d.comps);
        DeleteWalkBelow(next, p, m, k + 1);
        DeleteWalkKeepsFiles(next, p, len, k + 1);
        var r := DeleteWalk(fs, p, len, k);
        forall e | e in fs.dirs - r.dirs
          ensures StrictlyBelow(m.comps, e)
        {
          if e !in next.dirs {
            assert e == d.comps || StrictlyBelow(d.comps, e);
            assert e[..|m.comps|] == d.comps[..|m.comps|];
          }
        }
      }
    }
  }

  /** A parent whose string is longer than the monitored directory's lies strictly below it. */
  lemma {:induction false} ParentBelowMonitor(p: Path, m: Path, k: nat)
    requires Normal(p) && Normal(m)
    requires RelativeTo(p, m).Some?
    requires 1 <= k <= |p.comps|
    requires |ToString(Parent(p, k))| > |ToString(m)|
    ensures StrictlyBelow(m.comps, Parent(p, k).comps)
  {
    var d := Parent(p, k).comps;
    var n := |m.comps|;
    assert p.absolute == m.absolute || m == Path(false, []);
    assert n <= |p.comps| && p.comps[..n] == m.comps;
    if |d| <= n {
      assert d == m.comps[..|d|];
      PrefixLength(m.absolute, m.comps, |d|);
      assert false;
    }
  }

  /**
   * The walk compares string lengths, not paths: with the file outside the
   * monitored directory, an empty directory outside it is still removed.
   */
  lemma {:induction false} LengthTestIsNotPrefixTest()
    ensures var fs := Fs({}, {["x"], ["x", "yy"]});
      var p := Path(true, ["x", "yy", "f"]);
      DeleteWalk(fs, p, |ToString(Path(true, ["a", "b"]))|, 1) == Fs({}, {["x"]})
  {
    var fs := Fs({}, {["x"], ["x", "yy"]});
    var p := Path(true, ["x", "yy", "f"]);
    assert ToString(Path(true, ["a", "b"])) == "/a/b";
    assert Parent(p, 1) == Path(true, ["x", "yy"]);
    assert Join(["x", "yy"], "/") == "x" + "/" + Join(["yy"], "/");
    assert ToString(Parent(p, 1)) == "/x/yy";
    assert Parent(p, 2) == Path(true, ["x"]);
    assert ToString(Parent(p, 2)) == "/x";
    var fs2 := RmTree(fs, ["x", "yy"]);
    assert fs2 == Fs({}, {["x"]}) by {
      assert ["x"] in fs2.dirs;
      assert forall e | e in fs2.dirs :: e == ["x"];
    }
  }

  // ------------------------------------------------------------- one run

  predicate Raises(env: Env, call: nat) {
    env.fault == Some(call)
  }

  /** The history row `record_upload` writes for a finished task. */
  function HistoryRow(id: nat, t: Task, now: int): Record {
    Record(id, Fingerprint(t.fileSize, t.fileMtime), t.fileSize, t.filePath, t.fileName,
           t.destRemote, t.destLocal, t.operationType, now)
  }

  /**
   * The body of `process_one_task` inside its `try`: the returned flag and the
   * state afterwards. A store call that raises has no effect of its own (the
   * session is rolled back) and the run returns False, keeping what earlier
   * calls committed.
   */
  function Step(w: World, env: Env): (bool, World) {
    if Raises(env, 0) then (false, w)
    else match NextPending(w.rows)
      case None => (false, w)
      case Some(t) =>
        if Raises(env, 1) then (false, w)
        else Checked(w.(rows := MarkProcessing(w.rows, t.id, env.now)), t, env)
  }

  /** After the task is marked processing: the existence check and the history check. */
  function Checked(w: World, t: Task, env: Env): (bool, World) {
    if !PathExists(w.fs, t.filePath) then
      if Raises(env, 2) then (false, w)
      else (true, w.(rows := MarkFailed(w.rows, t.id, MissingFileMessage, t.retryCount, env.now)))
    else if Raises(env, 2) then (false, w)
    else if IsUploadedIn(w.records, Fingerprint(t.fileSize, t.fileMtime), t.fileSize) then
      if Raises(env, 3) then (false, w)
      else (true, w.(rows := MarkCompleted(w.rows, t.id, env.now)))
    else Transferred(w, t, env)
  }

  /** The transfer, then the bookkeeping for its outcome. */
  function Transferred(w: World, t: Task, env: Env): (bool, World) {
    var out := ExecuteTask(t, w.fs, env.backend);
    if out.ok then AfterSuccess(w.(fs := out.fs), t, env)
    else AfterFailure(w.(fs := out.fs), t, out.message, env)
  }

  /** What the run does after a successful transfer, from the `mark_as_completed` call on. */
  function AfterSuccess(w: World, t: Task, env: Env): (bool, World) {
    if Raises(env, 3) then (false, w)
    else
      var w1 := w.(rows := MarkCompleted(w.rows, t.id, env.now));
      if Raises(env, 4) then (false, w1)
      else
        var w2 := w1.(records := w1.records + [HistoryRow(w1.historyNextId, t, env.now)],
                      historyNextId := w1.historyNextId + 1);
        if t.deleteSource then (true, w2.(fs := DeleteSource(w2.fs, t.filePath, t.monitorPath)))
        else (true, w2)
  }

  /** What the run does after a failed transfer: one more attempt counted, then retry or fail. */
  function AfterFailure(w: World, t: Task, message: string, env: Env): (bool, World) {
    if Raises(env, 3) then (false, w)
    else
      var retry := t.retryCount + 1;
      if retry < MaxAttempts then (true, w.(rows := MarkPendingRetry(w.rows, t.id, retry, env.now)))
      else (true, w.(rows := MarkFailed(w.rows, t.id, message, retry, env.now)))
  }

  /** Both tables keep their integrity across a run, whatever raises. */
  predicate WorldValid(w: World) {
    && WellFormed(w.rows, w.nextId)
    && Query.StrictlyIncreasing(w.records, (r: Record) => r.id as int)
    && (forall i | 0 <= i < |w.records| :: w.records[i].id < w.historyNextId)
  }

  // ------------------------------------------------------ facts about a run

  /** `b` differs from `a` only in rows with id `id`, and only outside their identity columns. */
  predicate OnlyIdChanged(a: seq<Task>, b: seq<Task>, id: nat) {
    && |b| == |a|
    && forall i | 0 <= i < |a| :: SameIdentity(a[i], b[i]) && (a[i].id != id ==> b[i] == a[i])
  }

  lemma {:induction false} UpdateOnlyId(rows: seq<Task>, id: nat, c: Change)
    ensures OnlyIdChanged(rows, UpdateById(rows, id, c), id)
  {
    UpdateByIdFrame(rows, id, c);
  }

  lemma {:induction false} OnlyIdChain(a: seq<Task>, b: seq<Task>, c: seq<Task>, id: nat)
    requires OnlyIdChanged(a, b, id) && OnlyIdChanged(b, c, id)
    ensures OnlyIdChanged(a, c, id)
  {
  }

  /** The history either stays or gains the one row for `t`; the ids stay increasing. */
  predicate HistoryStep(w: World, r: World, t: Task, now: int) {
    || (r.records == w.records && r.historyNextId == w.historyNextId)
    || (r.records == w.records + [HistoryRow(w.historyNextId, t, now)] && r.historyNextId == w.historyNextId + 1)
  }

  /** Shape of every stage's result: one row's status columns, the history, the file system. */
  predicate StageShape(w: World, r: World, t: Task, now: int) {
    OnlyIdChanged(w.rows, r.rows, t.id) && r.nextId == w.nextId && HistoryStep(w, r, t, now)
  }

  lemma {:induction false} AfterSuccessShape(w: World, t: Task, env: Env)
    ensures StageShape(w, AfterSuccess(w, t, env).1, t, env.now)
  {
    UpdateOnlyId(w.rows, t.id, Change(Completed, env.now, None, None));
  }

  lemma {:induction false} AfterFailureShape(w: World, t: Task, message: string, env: Env)
    ensures StageShape(w, AfterFailure(w, t, message, env).1, t, env.now)
  {
    UpdateOnlyId(w.rows, t.id, Change(Pending, env.now, Some(t.retryCount + 1), None));
    UpdateOnlyId(w.rows, t.id, Change(Failed, env.now, Some(t.retryCount + 1), Some(message)));
  }

  lemma {:induction false} CheckedShape(w: World, t: Task, env: Env)
    ensures StageShape(w, Checked(w, t, env).1, t, env.now)
  {
    if !PathExists(w.fs, t.filePath) {
      UpdateOnlyId(w.rows, t.id, Change(Failed, env.now, Some(t.retryCount), Some(MissingFileMessage)));
    } else if Raises(env, 2) {
    } else if IsUploadedIn(w.records, Fingerprint(t.fileSize, t.fileMtime), t.fileSize) {
      UpdateOnlyId(w.rows, t.id, Change(Completed, env.now, None, None));
    } else {
      TransferredShape(w, t, env);
    }
  }

  lemma {:induction false} TransferredShape(w: World, t: Task, env: Env)
    ensures StageShape(w, Transferred(w, t, env).1, t, env.now)
  {
    var out := ExecuteTask(t, w.fs, env.backend);
    if out.ok {
      AfterSuccessShape(w.(fs := out.fs), t, env);
    } else {
      AfterFailureShape(w.(fs := out.fs), t, out.message, env);
    }
  }

  /** Every run has the stage shape for the task it dequeued, whatever raises. */
  lemma {:induction false} StepShape(w: World, env: Env)
    requires NextPending(w.rows).Some?
    ensures StageShape(w, Step(w, env).1, NextPending(w.rows).value, env.now)
  {
    var t := NextPending(w.rows).value;
    if !Raises(env, 0) && !Raises(env, 1) {
      var w1 := w.(rows := MarkProcessing(w.rows, t.id, env.now));
      UpdateOnlyId(w.rows, t.id, Change(Processing, env.now, None, None));
      CheckedShape(w1, t, env);
      OnlyIdChain(w.rows, w1.rows, Step(w, env).1.rows, t.id);
    }
  }

  /** The row a run picks is the one row of the table with that id. */
  lemma {:induction false} ChosenIsUnique(rows: seq<Task>, nextId: nat, t: Task)
    requires WellFormed(rows, nextId) && t in rows
    ensures forall i | 0 <= i < |rows| && rows[i].id == t.id :: rows[i] == t
  {
    var j :| 0 <= j < |rows| && rows[j] == t;
    forall i | 0 <= i < |rows| && rows[i].id == t.id
      ensures rows[i] == t
    {
      UniqueId(rows, nextId, i, j);
    }
  }

  /**
   * A run changes at most one row, the oldest pending one, whatever raises;
   * every row keeps its identity columns.
   */
  lemma {:induction false} StepTouchesOnlyOldestPending(w: World, env: Env)
    requires WellFormed(w.rows, w.nextId)
    ensures var r := Step(w, env).1.rows;
      && |r| == |w.rows|
      && forall i | 0 <= i < |w.rows| ::
        && SameIdentity(w.rows[i], r[i])
        && (r[i] != w.rows[i] ==> NextPending(w.rows) == Some(w.rows[i]))
  {
    if NextPending(w.rows).Some? {
      StepShape(w, env);
      ChosenIsUnique(w.rows, w.nextId, NextPending(w.rows).value);
    }
  }

  /** No run moves a failed (or completed) row anywhere: in particular never failed back to pending. */
  lemma {:induction false} FinishedRowsStay(w: World, env: Env, i: int)
    requires WellFormed(w.rows, w.nextId)
    requires 0 <= i < |w.rows| && (w.rows[i].status == Failed || w.rows[i].status == Completed)
    ensures var rows := Step(w, env).1.rows;
      |rows| == |w.rows| && rows[i] == w.rows[i]
  {
    if NextPending(w.rows).Some? {
      var t := NextPending(w.rows).value;
      StepShape(w, env);
      ChosenIsUnique(w.rows, w.nextId, t);
      assert w.rows[i].id != t.id;
    }
  }

  /** Changing status columns of rows never breaks the queue table's integrity. */
  lemma {:induction false} OnlyIdWellFormed(a: seq<Task>, b: seq<Task>, id: nat, nextId: nat)
    requires WellFormed(a, nextId) && OnlyIdChanged(a, b, id)
    ensures WellFormed(b, nextId)
  {
    assert forall i | 0 <= i < |a| :: b[i].id == a[i].id && b[i].filePath == a[i].filePath;
  }

  /** Appending the next history row keeps the history's ids increasing. */
  lemma {:induction false} HistoryStepValid(w: World, r: World, t: Task, now: int)
    requires WorldValid(w) && HistoryStep(w, r, t, now)
    ensures Query.StrictlyIncreasing(r.records, (x: Record) => x.id as int)
    ensures forall i | 0 <= i < |r.records| :: r.records[i].id < r.historyNextId
  {
  }

  /** Both tables keep their integrity across a run, whatever raises. */
  lemma {:induction false} StepKeepsValid(w: World, env: Env)
    requires WorldValid(w)
    ensures WorldValid(Step(w, env).1)
  {
    var r := Step(w, env).1;
    if NextPending(w.rows).Some? {
      var t := NextPending(w.rows).value;
      StepShape(w, env);
      OnlyIdWellFormed(w.rows, r.rows, t.id, w.nextId);
      HistoryStepValid(w, r, t, env.now);
    } else {
      assert r == w;
    }
  }

  /** With nothing raising, every run that gets past the dequeue reports True. */
  lemma {:induction false} CheckedTrue(w: World, t: Task, env: Env)
    requires env.fault.None?
    ensures Checked(w, t, env).0
  {
    var out := ExecuteTask(t, w.fs, env.backend);
    assert Transferred(w, t, env).0;
  }

  /** With nothing raising, a run reports True exactly when some task was pending. */
  lemma {:induction false} StepReturnsTrueIffPending(w: World, env: Env)
    requires env.fault.None?
    ensures Step(w, env).0 <==> NextPending(w.rows).Some?
    ensures NextPending(w.rows).None? ==> Step(w, env).1 == w
  {
    if NextPending(w.rows).Some? {
      var t := NextPending(w.rows).value;
      CheckedTrue(w.(rows := MarkProcessing(w.rows, t.id, env.now)), t, env);
    }
  }

  /**
   * The source file is gone: the task fails with "文件不存在", its retry
   * count as it was, the history and the file system untouched.
   */
  lemma {:induction false} MissingFileFails(w: World, env: Env)
    requires env.fault.None?
    requires NextPending(w.rows).Some? && !PathExists(w.fs, NextPending(w.rows).value.filePath)
    ensures var t := NextPending(w.rows).value;
      var (b, r) := Step(w, env);
      && b && r.records == w.records && r.fs == w.fs
      && r.rows == UpdateById(w.rows, t.id, Change(Failed, env.now, Some(t.retryCount), Some(MissingFileMessage)))
  {
    var t := NextPending(w.rows).value;
    ProcessingThenUpdate(w.rows, t.id, env.now, Change(Failed, env.now, Some(t.retryCount), Some(MissingFileMessage)));
  }

  /** Marking a row processing first does not show once a later update by the same id lands. */
  lemma {:induction false} ProcessingThenUpdate(rows: seq<Task>, id: nat, now: int, c: Change)
    ensures UpdateById(MarkProcessing(rows, id, now), id, c) == UpdateById(rows, id, c)
  {
  }

  /** The history already holds the pair: the task completes with no transfer and no new record. */
  lemma {:induction false} HistoryHitCompletes(w: World, env: Env)
    requires env.fault.None?
    requires NextPending(w.rows).Some?
    requires var t := NextPending(w.rows).value;
      PathExists(w.fs, t.filePath) && IsUploadedIn(w.records, Fingerprint(t.fileSize, t.fileMtime), t.fileSize)
    ensures var t := NextPending(w.rows).value;
      var (b, r) := Step(w, env);
      && b && r.records == w.records && r.fs == w.fs
      && r.rows == UpdateById(w.rows, t.id, Change(Completed, env.now, None, None))
  {
    var t := NextPending(w.rows).value;
    ProcessingThenUpdate(w.rows, t.id, env.now, Change(Completed, env.now, None, None));
  }

  /**
   * The transfer succeeds: the task completes, exactly one history record
   * with its fingerprint, size and destinations is added (after which the
   * pair counts as uploaded), and the source is deleted only when asked.
   */
  lemma {:induction false} SuccessRecordsHistory(w: World, env: Env)
    requires env.fault.None?
    requires NextPending(w.rows).Some?
    requires var t := NextPending(w.rows).value;
      && PathExists(w.fs, t.filePath) && !IsUploadedIn(w.records, Fingerprint(t.fileSize, t.fileMtime), t.fileSize)
      && ExecuteTask(t, w.fs, env.backend).ok
    ensures var t := NextPending(w.rows).value;
      var out := ExecuteTask(t, w.fs, env.backend);
      var (b, r) := Step(w, env);
      && b
      && r.rows == UpdateById(w.rows, t.id, Change(Completed, env.now, None, None))
      && r.records == w.records + [HistoryRow(w.historyNextId, t, env.now)]
      && IsUploadedIn(r.records, Fingerprint(t.fileSize, t.fileMtime), t.fileSize)
      && r.fs == (if t.deleteSource then DeleteSource(out.fs, t.filePath, t.monitorPath) else out.fs)
  {
    var t := NextPending(w.rows).value;
    StepToTransfer(w, env);
    var out := ExecuteTask(t, w.fs, env.backend);
    var w1 := w.(rows := MarkProcessing(w.rows, t.id, env.now), fs := out.fs);
    assert Step(w, env) == AfterSuccess(w1, t, env);
    ProcessingThenUpdate(w.rows, t.id, env.now, Change(Completed, env.now, None, None));
    var r := Step(w, env).1;
    IsUploadedIff(r.records, Fingerprint(t.fileSize, t.fileMtime), t.fileSize);
    assert r.records[|r.records| - 1] in r.records;
  }

  /** With no store call raising, the file present and the pair not yet uploaded, a run goes on to the transfer. */
  lemma {:induction false} StepToTransfer(w: World, env: Env)
    requires env.fault.None?
    requires NextPending(w.rows).Some?
    requires var t := NextPending(w.rows).value;
      PathExists(w.fs, t.filePath) && !IsUploadedIn(w.records, Fingerprint(t.fileSize, t.fileMtime), t.fileSize)
    ensures var t := NextPending(w.rows).value;
      Step(w, env) == Transferred(w.(rows := MarkProcessing(w.rows, t.id, env.now)), t, env)
  {
  }

  /**
   * The transfer fails: one more attempt is counted; below three the task
   * goes back to pending (its `created_at`, and so its place in line, kept),
   * otherwise it fails with the transfer's message. No history record is added.
   */
  lemma {:induction false} FailureRetriesThenFails(w: World, env: Env)
    requires env.fault.None?
    requires NextPending(w.rows).Some?
    requires var t := NextPending(w.rows).value;
      && PathExists(w.fs, t.filePath) && !IsUploadedIn(w.records, Fingerprint(t.fileSize, t.fileMtime), t.fileSize)
      && !ExecuteTask(t, w.fs, env.backend).ok
    ensures var t := NextPending(w.rows).value;
      var out := ExecuteTask(t, w.fs, env.backend);
      var retry := t.retryCount + 1;
      var (b, r) := Step(w, env);
      && b && r.records == w.records && r.fs == out.fs
      && r.rows == UpdateById(w.rows, t.id,
           if retry < MaxAttempts then Change(Pending, env.now, Some(retry), None)
           else Change(Failed, env.now, Some(retry), Some(out.message)))
  {
    var t := NextPending(w.rows).value;
    var out := ExecuteTask(t, w.fs, env.backend);
    StepToTransfer(w, env);
    var w1 := w.(rows := MarkProcessing(w.rows, t.id, env.now), fs := out.fs);
    assert Step(w, env) == AfterFailure(w1, t, out.message, env);
    ProcessingThenUpdate(w.rows, t.id, env.now, Change(Pending, env.now, Some(t.retryCount + 1), None));
    ProcessingThenUpdate(w.rows, t.id, env.now, Change(Failed, env.now, Some(t.retryCount + 1), Some(out.message)));
  }

  /** Whether the transfer succeeds depends on the task's identity columns and the backend, not on the file system. */
  lemma {:induction false} TransferVerdictIgnoresState(t1: Task, t2: Task, fs1: Fs, fs2: Fs, b: Backend)
    requires SameIdentity(t1, t2)
    ensures ExecuteTask(t1, fs1, b).ok == ExecuteTask(t2, fs2, b).ok
  {
  }

  /** One failed attempt on a queue holding a single pending task. */
  lemma {:induction false} FailOnce(w: World, env: Env, t: Task)
    requires w.rows == [t] && t.status == Pending && env.fault.None?
    requires PathExists(w.fs, t.filePath) && !IsUploadedIn(w.records, Fingerprint(t.fileSize, t.fileMtime), t.fileSize)
    requires !ExecuteTask(t, w.fs, env.backend).ok
    ensures var r := Step(w, env).1;
      var retry := t.retryCount + 1;
      && r.records == w.records
      && PathExists(r.fs, t.filePath)
      && |r.rows| == 1 && SameIdentity(t, r.rows[0]) && r.rows[0].retryCount == retry
      && r.rows[0].status == (if retry < MaxAttempts then Pending else Failed)
  {
    assert NextPending(w.rows) == Some(t);
    FailureRetriesThenFails(w, env);
    ExecuteTaskOnlyAdds(t, w.fs, env.backend);
    UpdateByIdFrame(w.rows, t.id, if t.retryCount + 1 < MaxAttempts then Change(Pending, env.now, Some(t.retryCount + 1), None)
                                  else Change(Failed, env.now, Some(t.retryCount + 1), Some(ExecuteTask(t, w.fs, env.backend).message)));
  }

  /** The situation of a run whose transfer will fail: one pending task, its file present, not yet uploaded. */
  predicate FailingRun(w: World, env: Env, t: Task) {
    && w.rows == [t] && t.status == Pending && env.fault.None?
    && PathExists(w.fs, t.filePath) && !IsUploadedIn(w.records, Fingerprint(t.fileSize, t.fileMtime), t.fileSize)
    && !ExecuteTask(t, w.fs, env.backend).ok
  }

  /** After one failed attempt below the limit, the next run is in the same situation. */
  lemma {:induction false} FailOnceNamed(w: World, env: Env, t: Task) returns (t1: Task)
    requires FailingRun(w, env, t)
    ensures Step(w, env).1.rows == [t1] && Step(w, env).1.records == w.records
    ensures SameIdentity(t, t1) && t1.retryCount == t.retryCount + 1
    ensures t1.status == (if t.retryCount + 1 < MaxAttempts then Pending else Failed)
    ensures t1.status == Pending ==> FailingRun(Step(w, env).1, env, t1)
  {
    FailOnce(w, env, t);
    var w1 := Step(w, env).1;
    t1 := w1.rows[0];
    assert w1.rows == [t1];
    TransferVerdictIgnoresState(t, t1, w.fs, w1.fs, env.backend);
  }

  /** `n` runs one after the other under the same environment. */
  function Runs(w: World, env: Env, n: nat): World
    decreases n
  {
    if n == 0 then w else Runs(Step(w, env).1, env, n - 1)
  }

  /**
   * Runs whose transfers keep failing add one attempt each: after `n` of
   * them the task has `retry_count + n` attempts and is still pending while
   * that is below three, failed once it reaches three; the history stays.
   */
  lemma {:induction false} RetriesAccumulate(w: World, env: Env, t: Task, n: nat)
    requires FailingRun(w, env, t) && 0 < n && t.retryCount + n <= MaxAttempts
    ensures var r := Runs(w, env, n);
      && |r.rows| == 1 && SameIdentity(t, r.rows[0])
      && r.rows[0].retryCount == t.retryCount + n
      && r.rows[0].status == (if t.retryCount + n < MaxAttempts then Pending else Failed)
      && r.records == w.records
    decreases n
  {
    var t1 := FailOnceNamed(w, env, t);
    if n > 1 {
      RetriesAccumulate(Step(w, env).1, env, t1, n - 1);
    }
  }

  // --------------------------------------------------------------- processor

  /** The worker: its busy flag, the two tables it drives, and the local file system. */
  class UploadQueueProcessor {
    var isProcessing: bool
    const queue: UploadQueue
    const history: UploadHistory
    var fs: Fs

    ghost predicate Valid()
      reads this, queue, history
    {
      queue.Valid() && history.Valid()
    }

    /** The state a run reads and writes. */
    function Snapshot(): World
      reads this, queue, history
    {
      World(queue.rows, queue.nextId, history.records, history.nextId, fs)
    }

    constructor(queue: UploadQueue, history: UploadHistory, fs: Fs)
      requires queue.Valid() && history.Valid()
      ensures Valid() && !isProcessing
      ensures this.queue == queue && this.history == history && this.fs == fs
    {
      isProcessing := false;
      this.queue := queue;
      this.history := history;
      this.fs := fs;
    }

    /** `reset_stale_tasks`: every task left processing by a crash goes back to pending. */
    method ResetStaleTasks(now: int) returns (count: nat)
      requires Valid()
      modifies queue
      ensures Valid()
      ensures queue.rows == ResetProcessing(old(queue.rows), now)
      ensures count == CountStatus(old(queue.rows), Processing)
    {
      count := queue.ResetProcessingTasks(now);
    }

    /** `get_queue_stats`: the four per-status counts. */
    method GetQueueStats() returns (stats: map<string, nat>)
      ensures stats.Keys == StatusNameSet
      ensures forall s: Status :: stats[StatusName(s)] == CountStatus(queue.rows, s)
    {
      stats := queue.CountByStatus();
    }

    /**
     * `process_one_task`: a busy worker returns False and changes nothing;
     * otherwise the run goes as `Step` says and the flag is clear again on
     * every way out, including a store call that raises.
     */
    method ProcessOneTask(env: Env) returns (b: bool)
      requires Valid()
      modifies this, queue, history
      ensures Valid()
      ensures old(isProcessing) ==> !b && isProcessing && Snapshot() == old(Snapshot())
      ensures !old(isProcessing) ==> !isProcessing && (b, Snapshot()) == Step(old(Snapshot()), env)
    {
      if isProcessing {
        return false;
      }
      isProcessing := true;
      b := Run(env);
      isProcessing := false;
    }

    /** The `try` body of `process_one_task` up to marking the task processing. */
    method Run(env: Env) returns (b: bool)
      requires Valid()
      modifies this, queue, history
      ensures Valid() && isProcessing == old(isProcessing)
      ensures (b, Snapshot()) == Step(old(Snapshot()), env)
    {
      if env.fault == Some(0) {
        return false;
      }
      var next := queue.GetNextPendingTask();
      if next.None? {
        return false;
      }
      var task := next.value;
      if env.fault == Some(1) {
        return false;
      }
      queue.MarkAsProcessing(task.id, env.now);
      b := RunChecks(task, env);
    }

    /** The existence and history checks. */
    method RunChecks(task: Task, env: Env) returns (b: bool)
      requires Valid()
      modifies this, queue, history
      ensures Valid() && isProcessing == old(isProcessing)
      ensures (b, Snapshot()) == Checked(old(Snapshot()), task, env)
    {
      if !PathExists(fs, task.filePath) {
        if env.fault == Some(2) {
          return false;
        }
        queue.MarkAsFailed(task.id, MissingFileMessage, task.retryCount, env.now);
        return true;
      }
      var fingerprint := Fingerprint(task.fileSize, task.fileMtime);
      if env.fault == Some(2) {
        return false;
      }
      var uploaded := history.IsUploaded(fingerprint, task.fileSize);
      IsUploadedIff(history.records, fingerprint, task.fileSize);
      if uploaded {
        if env.fault == Some(3) {
          return false;
        }
        queue.MarkAsCompleted(task.id, env.now);
        return true;
      }
      b := RunTransfer(task, env);
    }

    /** `_execute_task` and the bookkeeping for its outcome. */
    method RunTransfer(task: Task, env: Env) returns (b: bool)
      requires Valid()
      modifies this, queue, history
      ensures Valid() && isProcessing == old(isProcessing)
      ensures (b, Snapshot()) == Transferred(old(Snapshot()), task, env)
    {
      var out := ExecuteTask(task, fs, env.backend);
      fs := out.fs;
      if out.ok {
        b := FinishSuccess(task, env);
      } else {
        b := FinishFailure(task, out.message, env);
      }
    }

    /** Success: complete, record in the history, and delete the source when configured. */
    method FinishSuccess(task: Task, env: Env) returns (b: bool)
      requires Valid()
      modifies this, queue, history
      ensures Valid() && isProcessing == old(isProcessing)
      ensures (b, Snapshot()) == AfterSuccess(old(Snapshot()), task, env)
    {
      if env.fault == Some(3) {
        return false;
      }
      queue.MarkAsCompleted(task.id, env.now);
      if env.fault == Some(4) {
        return false;
      }
      history.RecordUpload(Fingerprint(task.fileSize, task.fileMtime), task.fileSize, task.filePath, task.fileName,
                           task.operationType, task.destRemote, task.destLocal, env.now);
      if task.deleteSource {
        fs := DeleteSourceFile(fs, task.filePath, task.monitorPath);
      }
      return true;
    }

    /** Failure: count the attempt, then retry below three attempts or fail. */
    method FinishFailure(task: Task, message: string, env: Env) returns (b: bool)
      requires Valid()
      modifies this, queue, history
      ensures Valid() && isProcessing == old(isProcessing)
      ensures (b, Snapshot()) == AfterFailure(old(Snapshot()), task, message, env)
    {
      var retry := task.retryCount + 1;
      if env.fault == Some(3) {
        return false;
      }
      if retry < MaxAttempts {
        queue.MarkAsPendingRetry(task.id, retry, env.now);
      } else {
        queue.MarkAsFailed(task.id, message, retry, env.now);
      }
      return true;
    }
  }
}
