/**
 * The directory monitor's `enqueue_file`: a chain of checks that either
 * drops a newly seen file (recycle bins, hidden files, Blu-ray streams,
 * files still growing, files already transferred or already queued, no
 * matching configuration, an extension nobody asked for) or inserts one
 * pending row into the upload queue. Every way out is named by an `Outcome`.
 */
module Monitor {
  import opened Wrappers
  import opened Strings
  import opened Paths
  import opened UploadQueueTable
  import opened UploadHistoryTable

  // ------------------------------------------------------------ stability

  /** One look at the file: not there, there with this size, or `stat` raising. */
  datatype Sample = Missing | Present(size: int) | StatError

  /**
   * `is_file_stable`: two samples taken `wait_seconds` apart. Stable only
   * when the file is there both times with the same, positive size; a
   * raising `stat` counts as unstable.
   */
  function IsFileStable(first: Sample, second: Sample): (b: bool)
    ensures b <==> first.Present? && second.Present? && first.size == second.size && first.size > 0
  {
    match (first, second)
    case (Present(s1), Present(s2)) => s1 == s2 && s1 > 0
    case _ => false
  }

  /** A file that is empty, or changes size between the samples, is never stable. */
  lemma {:induction false} EmptyOrGrowingIsUnstable(first: Sample, second: Sample)
    requires first.Present? && second.Present?
    requires first.size <= 0 || first.size != second.size
    ensures !IsFileStable(first, second)
  {
  }

  // ---------------------------------------------------------- path screens

  /** The recycle-bin and hidden-file markers the monitor ignores. */
  predicate PathExcluded(p: string) {
    Contains(p, "/@Recycle/") || Contains(p, "/#recycle/") || Contains(p, "/.") || Contains(p, "/@eaDir")
  }

  /** `re.search(r"BDMV[/\\]STREAM", p, re.IGNORECASE)`, folding ASCII letters. */
  predicate BlurayStream(p: string) {
    Contains(Lower(p), "bdmv/stream") || Contains(Lower(p), "bdmv\\stream")
  }

  /** `str(Path(p))`: the normalised path the queue stores and looks up. */
  function PathString(p: string): string {
    ToString(Parse(p))
  }

  /** `Path(p).name`: the last component, or "" for a path with none. */
  function FileName(p: string): string {
    var c := Parse(p).comps;
    if c == [] then "" else c[|c| - 1]
  }

  /** `s.rfind(c)`, as an option. */
  function LastIndexOf(s: string, c: char): (r: Option<nat>)
    ensures r.None? <==> c !in s
    ensures r.Some? ==> r.value < |s| && s[r.value] == c && c !in s[r.value + 1..]
    decreases |s|
  {
    if |s| == 0 then None
    else if s[|s| - 1] == c then Some(|s| - 1)
    else
      var k := LastIndexOf(s[..|s| - 1], c);
      assert s[..|s| - 1] + [s[|s| - 1]] == s;
      if k.None? then None
      else
        assert s[k.value + 1..] == s[..|s| - 1][k.value + 1..] + [s[|s| - 1]];
        Some(k.value)
  }

  /**
   * `PurePath.suffix` of a file name: from the last "." on, when that dot
   * is neither the first nor the last character; "" otherwise.
   */
  function Suffix(name: string): (r: string)
    ensures r == [] || (r[0] == '.' && |r| >= 2 && '.' !in r[1..])
    ensures r != [] ==> |r| < |name| && name[|name| - |r|..] == r
  {
    match LastIndexOf(name, '.')
    case None => ""
    case Some(i) => if 0 < i < |name| - 1 then name[i..] else ""
  }

  /** A dot-file or a name ending in "." has no suffix. */
  lemma {:induction false} SuffixOfDotNames(stem: string)
    ensures Suffix("." + stem) == [] || |stem| >= 1
    ensures Suffix(stem + ".") == []
  {
    var n := stem + ".";
    assert LastIndexOf(n, '.') == Some(|n| - 1);
  }

  // -------------------------------------------------------- configuration

  /** One `directory_upload_path` entry; missing keys are `None`. `Empty` is a falsy entry. */
  datatype ConfigEntry =
    | Empty
    | Entry(src: Option<string>, destRemote: Option<string>, destLocal: Option<string>, delete: Option<bool>)

  /** What a matching entry supplies, defaults filled in. */
  datatype Target = Target(destRemote: string, destLocal: string, delete: bool)

  function Get<T>(o: Option<T>, default: T): T {
    if o.Some? then o.value else default
  }

  predicate Matches(e: ConfigEntry, monPath: string) {
    e.Entry? && Get(e.src, "") == monPath
  }

  function TargetOf(e: ConfigEntry): Target
    requires e.Entry?
  {
    Target(Get(e.destRemote, ""), Get(e.destLocal, ""), Get(e.delete, false))
  }

  /** The first non-empty entry whose `src` equals the monitored directory, if any. */
  function MatchConfig(entries: seq<ConfigEntry>, monPath: string): (r: Option<Target>)
    ensures r.None? <==> forall i | 0 <= i < |entries| :: !Matches(entries[i], monPath)
    ensures r.Some? ==> exists i | 0 <= i < |entries| ::
      && Matches(entries[i], monPath) && r.value == TargetOf(entries[i])
      && forall j | 0 <= j < i :: !Matches(entries[j], monPath)
    decreases |entries|
  {
    if entries == [] then None
    else if Matches(entries[0], monPath) then
      Some(TargetOf(entries[0]))
    else
      var r := MatchConfig(entries[1..], monPath);
      assert forall i | 1 <= i < |entries| :: entries[i] == entries[1..][i - 1];
      if r.Some? then
        var k :| 0 <= k < |entries[1..]| && Matches(entries[1..][k], monPath) && r.value == TargetOf(entries[1..][k])
          && forall j | 0 <= j < k :: !Matches(entries[1..][j], monPath);
        assert Matches(entries[k + 1], monPath) && forall j | 0 <= j < k + 1 :: !Matches(entries[j], monPath);
        r
      else r
  }

  /** When two entries share a `src`, the earlier one wins whatever the later one says. */
  lemma {:induction false} FirstConfigWins(entries: seq<ConfigEntry>, later: seq<ConfigEntry>, monPath: string)
    requires MatchConfig(entries, monPath).Some?
    ensures MatchConfig(entries + later, monPath) == MatchConfig(entries, monPath)
  {
    FirstConfigWinsInduct(entries, later, monPath);
  }

  lemma {:induction false} FirstConfigWinsInduct(entries: seq<ConfigEntry>, later: seq<ConfigEntry>, monPath: string)
    requires MatchConfig(entries, monPath).Some?
    ensures MatchConfig(entries + later, monPath) == MatchConfig(entries, monPath)
    decreases |entries|
  {
    assert entries != [];
    assert (entries + later)[0] == entries[0];
    if !Matches(entries[0], monPath) {
      assert (entries + later)[1..] == entries[1..] + later;
      FirstConfigWinsInduct(entries[1..], later, monPath);
    }
  }

  /**
   * An extension setting: "，" counts as ",", every item is trimmed and
   * gets one "." in front, so "mkv， mp4" and "mkv,mp4" both give [".mkv", ".mp4"].
   */
  function ExtList(setting: string): (r: seq<string>)
    ensures forall i | 0 <= i < |r| :: |r[i]| >= 1 && r[i][0] == '.'
  {
    var items := Split(ReplaceChar(setting, '，', ','), ',');
    seq(|items|, i requires 0 <= i < |items| => "." + Strip(items[i]))
  }

  /** Replacing "，" by "," in a join over either separator gives the join over ",". */
  lemma {:induction false} CommaJoin(items: seq<string>, sep: string)
    requires sep == "，" || sep == ","
    requires forall i | 0 <= i < |items| :: '，' !in items[i]
    ensures ReplaceChar(Join(items, sep), '，', ',') == Join(items, ",")
    decreases |items|
  {
    if |items| > 1 {
      CommaJoin(items[1..], sep);
      ReplaceConcat(items[0] + sep, Join(items[1..], sep));
      ReplaceConcat(items[0], sep);
      NoFullWidthReplace(items[0]);
    } else if |items| == 1 {
      NoFullWidthReplace(items[0]);
    }
  }

  lemma {:induction false} ReplaceConcat(a: string, b: string)
    ensures ReplaceChar(a + b, '，', ',') == ReplaceChar(a, '，', ',') + ReplaceChar(b, '，', ',')
  {
  }

  lemma {:induction false} NoFullWidthReplace(s: string)
    requires '，' !in s
    ensures ReplaceChar(s, '，', ',') == s
  {
  }

  /**
   * A setting written as items separated by "," or by "，" (items holding
   * neither) lists exactly those items, each trimmed and given a leading ".".
   */
  lemma {:induction false} ExtListOfItems(items: seq<string>, sep: string)
    requires sep == "，" || sep == ","
    requires |items| >= 1
    requires forall i | 0 <= i < |items| :: ',' !in items[i] && '，' !in items[i]
    ensures var r := ExtList(Join(items, sep));
      |r| == |items| && forall i | 0 <= i < |items| :: r[i] == "." + Strip(items[i])
  {
    CommaJoin(items, sep);
    SplitJoin(items, ',');
  }

  /** How a file is to be handled, or why it is not. */
  datatype Kind = Upload | Copy | NoRemoteDest | NoLocalDest | Unmatched

  /** Upload extensions are looked at first; a matching kind with no destination configured is dropped. */
  function Classify(suffix: string, uploadExts: seq<string>, copyExts: seq<string>, t: Target): (k: Kind)
    ensures k == Upload ==> t.destRemote != ""
    ensures k == Copy ==> t.destLocal != ""
  {
    if suffix in uploadExts then (if t.destRemote == "" then NoRemoteDest else Upload)
    else if suffix in copyExts then (if t.destLocal == "" then NoLocalDest else Copy)
    else Unmatched
  }

  /**
   * An extension in both lists is uploaded, never copied; a file with no
   * suffix matches neither list, since every listed extension starts with ".".
   */
  lemma {:induction false} UploadBeforeCopy(setting: string, copySetting: string, suffix: string, t: Target)
    ensures suffix in ExtList(setting) && t.destRemote != "" ==> Classify(suffix, ExtList(setting), ExtList(copySetting), t) == Upload
    ensures suffix == "" ==> Classify(suffix, ExtList(setting), ExtList(copySetting), t) == Unmatched
  {
  }

  // -------------------------------------------------------------- pipeline

  /** The file's state at each point `enqueue_file` looks at it. */
  datatype Stat = Stat(size: int, mtime: real)
  datatype Observation = Observation(exists0: bool, first: Sample, second: Sample, last: Option<Stat>)

  /**
   * One call: the event path, the monitored directory, what the file system
   * shows, the configuration, the clock, and which store call (0 history
   * check, 1 queue check, 2 insert) raises, if any.
   */
  datatype Input = Input(
    eventPath: string,
    monPath: string,
    obs: Observation,
    entries: seq<ConfigEntry>,
    uploadExt: string,
    copyExt: string,
    now: int,
    fault: Option<nat>)

  /** Every way `enqueue_file` ends. Everything but `Created` leaves the queue as it was. */
  datatype Outcome =
    | Gone | Excluded | Bluray | Unstable | StatFailed
    | AlreadyUploaded | AlreadyQueued | NoConfig
    | Skipped(kind: Kind)
    | StoreRaised | DuplicatePath
    | Created(task: Task)

  /** `f"{file_size}_{int(file_mtime)}"` */
  function MonitorFingerprint(st: Stat): string {
    IntToString(st.size) + "_" + IntToString(Truncate(st.mtime))
  }

  /** The row values `create_task` receives for a classified file. */
  function NewTaskFor(inp: Input, st: Stat, t: Target, kind: Kind): NewTask
    requires kind == Upload || kind == Copy
  {
    var op := if kind == Upload then "upload" else "copy";
    NewTask(PathString(inp.eventPath), FileName(inp.eventPath), st.size, st.mtime, inp.monPath, op,
            if kind == Upload then Some(t.destRemote) else None,
            if kind == Copy then Some(t.destLocal) else None,
            t.delete)
  }

  /** `enqueue_file` on the tables as they are. */
  function Enqueue(rows: seq<Task>, nextId: nat, records: seq<Record>, inp: Input): Outcome {
    if !inp.obs.exists0 then Gone
    else if PathExcluded(inp.eventPath) then Excluded
    else if BlurayStream(inp.eventPath) then Bluray
    else if !IsFileStable(inp.obs.first, inp.obs.second) then Unstable
    else match inp.obs.last
      case None => StatFailed
      case Some(st) => Dedup(rows, nextId, records, inp, st)
  }

  /** From the fingerprint on: the two duplicate checks, then the configuration. */
  function Dedup(rows: seq<Task>, nextId: nat, records: seq<Record>, inp: Input, st: Stat): Outcome {
    if inp.fault == Some(0) then StoreRaised
    else if IsUploadedIn(records, MonitorFingerprint(st), st.size) then AlreadyUploaded
    else if inp.fault == Some(1) then StoreRaised
    else if ExistsInQueue(rows, PathString(inp.eventPath)) then AlreadyQueued
    else match MatchConfig(inp.entries, inp.monPath)
      case None => NoConfig
      case Some(t) => Insert(rows, nextId, inp, st, t, KindOf(inp, t))
  }

  /** How the file's lower-cased suffix classifies against the two extension settings. */
  function KindOf(inp: Input, t: Target): Kind {
    Classify(Lower(Suffix(FileName(inp.eventPath))), ExtList(inp.uploadExt), ExtList(inp.copyExt), t)
  }

  /** The insert of a classified file. */
  function Insert(rows: seq<Task>, nextId: nat, inp: Input, st: Stat, t: Target, kind: Kind): Outcome {
    if kind != Upload && kind != Copy then Skipped(kind)
    else if inp.fault == Some(2) then StoreRaised
    else
      var n := NewTaskFor(inp, st, t, kind);
      match CreateTask(rows, nextId, n, inp.now)
      case Err(_) => DuplicatePath
      case Ok(_) => Created(NewRow(nextId, n, inp.now))
  }

  /** The queue after the call. */
  function QueueAfter(rows: seq<Task>, o: Outcome): seq<Task> {
    if o.Created? then rows + [o.task] else rows
  }

  // ----------------------------------------------------- facts about enqueue

  /** Recycle bins, hidden files and Blu-ray stream files never become tasks. */
  lemma {:induction false} ExcludedCreatesNothing(rows: seq<Task>, nextId: nat, records: seq<Record>, inp: Input)
    requires PathExcluded(inp.eventPath) || BlurayStream(inp.eventPath)
    ensures !Enqueue(rows, nextId, records, inp).Created?
  {
  }

  /** The classification and the insert: a row is created exactly when the kind has a destination and the path is free. */
  lemma {:induction false} InsertCreatedIff(rows: seq<Task>, nextId: nat, inp: Input, st: Stat, t: Target)
    ensures Insert(rows, nextId, inp, st, t, KindOf(inp, t)).Created? <==>
      && KindOf(inp, t) in {Upload, Copy}
      && inp.fault != Some(2)
      && !PathTaken(rows, PathString(inp.eventPath))
  {
  }

  /** The duplicate checks and the configuration, down to the insert. */
  lemma {:induction false} DedupCreatedIff(rows: seq<Task>, nextId: nat, records: seq<Record>, inp: Input, st: Stat)
    ensures Dedup(rows, nextId, records, inp, st).Created? <==>
      && inp.fault != Some(0) && inp.fault != Some(1)
      && !IsUploadedIn(records, MonitorFingerprint(st), st.size)
      && !ExistsInQueue(rows, PathString(inp.eventPath))
      && MatchConfig(inp.entries, inp.monPath).Some?
      && Insert(rows, nextId, inp, st, MatchConfig(inp.entries, inp.monPath).value,
                KindOf(inp, MatchConfig(inp.entries, inp.monPath).value)).Created?
  {
  }

  /**
   * A file becomes a task exactly when it is there, passes every screen, is
   * stable, is in neither the history nor the queue, has a configuration
   * and a destination for its kind, no store call raises, and its path is
   * not already in the table.
   */
  lemma {:induction false} CreatedIff(rows: seq<Task>, nextId: nat, records: seq<Record>, inp: Input)
    ensures Enqueue(rows, nextId, records, inp).Created? <==>
      && inp.obs.exists0 && !PathExcluded(inp.eventPath) && !BlurayStream(inp.eventPath)
      && IsFileStable(inp.obs.first, inp.obs.second) && inp.obs.last.Some?
      && inp.fault != Some(0) && inp.fault != Some(1) && inp.fault != Some(2)
      && !IsUploadedIn(records, MonitorFingerprint(inp.obs.last.value), inp.obs.last.value.size)
      && !ExistsInQueue(rows, PathString(inp.eventPath))
      && MatchConfig(inp.entries, inp.monPath).Some?
      && KindOf(inp, MatchConfig(inp.entries, inp.monPath).value) in {Upload, Copy}
      && !PathTaken(rows, PathString(inp.eventPath))
  {
    if inp.obs.last.Some? {
      var st := inp.obs.last.value;
      DedupCreatedIff(rows, nextId, records, inp, st);
      if MatchConfig(inp.entries, inp.monPath).Some? {
        InsertCreatedIff(rows, nextId, inp, st, MatchConfig(inp.entries, inp.monPath).value);
      }
    }
  }

  /** A file already transferred (same fingerprint and size) or already pending or processing creates nothing. */
  lemma {:induction false} DuplicatesCreateNothing(rows: seq<Task>, nextId: nat, records: seq<Record>, inp: Input, st: Stat)
    requires inp.obs.last == Some(st)
    requires IsUploadedIn(records, MonitorFingerprint(st), st.size) || ExistsInQueue(rows, PathString(inp.eventPath))
    ensures !Enqueue(rows, nextId, records, inp).Created?
  {
    DedupCreatedIff(rows, nextId, records, inp, st);
  }

  /** The row an insert creates, as `CreatedRowShape` describes it. */
  predicate RowFits(t: Task, nextId: nat, inp: Input, st: Stat, target: Target) {
    && t.id == nextId && t.status == Pending && t.retryCount == 0
    && t.filePath == PathString(inp.eventPath) && t.monitorPath == inp.monPath
    && t.deleteSource == target.delete
    && (t.operationType == "upload" || t.operationType == "copy")
    && (t.operationType == "upload" ==> t.destRemote == Some(target.destRemote) && target.destRemote != "" && t.destLocal.None?)
    && (t.operationType == "copy" ==> t.destLocal == Some(target.destLocal) && target.destLocal != "" && t.destRemote.None?)
    && Fingerprint(t.fileSize, t.fileMtime) == MonitorFingerprint(st) && t.fileSize == st.size
  }

  lemma {:induction false} NewRowFits(nextId: nat, inp: Input, st: Stat, target: Target, kind: Kind)
    requires kind == Upload || kind == Copy
    requires kind == Upload ==> target.destRemote != ""
    requires kind == Copy ==> target.destLocal != ""
    ensures RowFits(NewRow(nextId, NewTaskFor(inp, st, target, kind), inp.now), nextId, inp, st, target)
  {
  }

  /** A created row is the appended `create_task` row. */
  lemma {:induction false} InsertCreates(rows: seq<Task>, nextId: nat, inp: Input, st: Stat, target: Target, kind: Kind)
    requires Insert(rows, nextId, inp, st, target, kind).Created?
    ensures kind == Upload || kind == Copy
    ensures var n := NewTaskFor(inp, st, target, kind);
      && CreateTask(rows, nextId, n, inp.now) == Ok(rows + [NewRow(nextId, n, inp.now)])
      && Insert(rows, nextId, inp, st, target, kind).task == NewRow(nextId, n, inp.now)
  {
  }

  lemma {:induction false} InsertRowFits(rows: seq<Task>, nextId: nat, inp: Input, st: Stat, target: Target, kind: Kind)
    requires kind == Upload ==> target.destRemote != ""
    requires kind == Copy ==> target.destLocal != ""
    requires Insert(rows, nextId, inp, st, target, kind).Created?
    ensures RowFits(Insert(rows, nextId, inp, st, target, kind).task, nextId, inp, st, target)
  {
    NewRowFits(nextId, inp, st, target, kind);
  }

  /**
   * A created row is pending, carries the file's normalised path and the
   * first matching entry's settings, and only the destination of its own
   * kind, never an empty one; its stored fingerprint is the one the monitor
   * computed, so the processor's history check looks for the same pair.
   */
  lemma {:induction false} CreatedRowShape(rows: seq<Task>, nextId: nat, records: seq<Record>, inp: Input)
    requires Enqueue(rows, nextId, records, inp).Created?
    ensures RowFits(Enqueue(rows, nextId, records, inp).task, nextId, inp, inp.obs.last.value,
                    MatchConfig(inp.entries, inp.monPath).value)
  {
    CreatedViaInsert(rows, nextId, records, inp);
    var target := MatchConfig(inp.entries, inp.monPath).value;
    InsertRowFits(rows, nextId, inp, inp.obs.last.value, target, KindOf(inp, target));
  }

  /** A created row comes from the insert of the first matching entry, with a kind that has a destination. */
  lemma {:induction false} CreatedViaInsert(rows: seq<Task>, nextId: nat, records: seq<Record>, inp: Input)
    requires Enqueue(rows, nextId, records, inp).Created?
    ensures inp.obs.last.Some? && MatchConfig(inp.entries, inp.monPath).Some?
    ensures var target := MatchConfig(inp.entries, inp.monPath).value;
      && (KindOf(inp, target) == Upload || KindOf(inp, target) == Copy)
      && Enqueue(rows, nextId, records, inp) == Insert(rows, nextId, inp, inp.obs.last.value, target, KindOf(inp, target))
  {
    CreatedIff(rows, nextId, records, inp);
    PastScreens(rows, nextId, records, inp);
  }

  /** A successful insert keeps the queue table well formed. */
  lemma {:induction false} EnqueueKeepsWellFormed(rows: seq<Task>, nextId: nat, records: seq<Record>, inp: Input)
    requires WellFormed(rows, nextId)
    ensures var o := Enqueue(rows, nextId, records, inp);
      WellFormed(QueueAfter(rows, o), if o.Created? then nextId + 1 else nextId)
  {
    var o := Enqueue(rows, nextId, records, inp);
    if o.Created? {
      CreatedViaInsert(rows, nextId, records, inp);
      var st := inp.obs.last.value;
      var target := MatchConfig(inp.entries, inp.monPath).value;
      var kind := KindOf(inp, target);
      InsertCreates(rows, nextId, inp, st, target, kind);
      CreateTaskWellFormed(rows, nextId, NewTaskFor(inp, st, target, kind), inp.now);
    }
  }

  /**
   * Once the history holds a record with a created task's stored fingerprint
   * and size, which is what recording its transfer writes, the same file
   * with the same size and mtime is never queued again.
   */
  lemma {:induction false} RecordedFileNotRequeued(rows: seq<Task>, nextId: nat, records: seq<Record>, inp: Input,
                                rows2: seq<Task>, nextId2: nat, records2: seq<Record>)
    requires Enqueue(rows, nextId, records, inp).Created?
    requires var t := Enqueue(rows, nextId, records, inp).task;
      exists r | r in records2 :: r.fingerprint == Fingerprint(t.fileSize, t.fileMtime) && r.fileSize == t.fileSize
    ensures Enqueue(rows2, nextId2, records2, inp) == AlreadyUploaded
  {
    var st := inp.obs.last.value;
    CreatedRowShape(rows, nextId, records, inp);
    CreatedIff(rows, nextId, records, inp);
    IsUploadedIff(records2, MonitorFingerprint(st), st.size);
    PastScreens(rows2, nextId2, records2, inp);
  }

  /** A file that passes the screens and the stability check goes on to the duplicate checks. */
  lemma {:induction false} PastScreens(rows: seq<Task>, nextId: nat, records: seq<Record>, inp: Input)
    requires inp.obs.exists0 && !PathExcluded(inp.eventPath) && !BlurayStream(inp.eventPath)
    requires IsFileStable(inp.obs.first, inp.obs.second) && inp.obs.last.Some?
    ensures Enqueue(rows, nextId, records, inp) == Dedup(rows, nextId, records, inp, inp.obs.last.value)
  {
  }

  // ------------------------------------------------------------- the method

  /**
   * `enqueue_file` against the two tables: the history is only read, the
   * queue gains the created row and nothing else.
   */
  method EnqueueFile(queue: UploadQueue, history: UploadHistory, inp: Input) returns (o: Outcome)
    requires queue.Valid()
    modifies queue
    ensures queue.Valid()
    ensures o == Enqueue(old(queue.rows), old(queue.nextId), history.records, inp)
    ensures queue.rows == QueueAfter(old(queue.rows), o)
    ensures queue.nextId == old(queue.nextId) + (if o.Created? then 1 else 0)
  {
    var p := inp.eventPath;
    if !inp.obs.exists0 {
      o := Gone;
    } else if PathExcluded(p) {
      o := Excluded;
    } else if BlurayStream(p) {
      o := Bluray;
    } else if !IsFileStable(inp.obs.first, inp.obs.second) {
      o := Unstable;
    } else if inp.obs.last.None? {
      o := StatFailed;
    } else {
      o := DedupAndInsert(queue, history, inp, inp.obs.last.value);
    }
  }

  /** From the fingerprint on: the history check, the queue check, the configuration, the insert. */
  method DedupAndInsert(queue: UploadQueue, history: UploadHistory, inp: Input, st: Stat) returns (o: Outcome)
    requires queue.Valid()
    modifies queue
    ensures queue.Valid()
    ensures o == Dedup(old(queue.rows), old(queue.nextId), history.records, inp, st)
    ensures queue.rows == QueueAfter(old(queue.rows), o)
    ensures queue.nextId == old(queue.nextId) + (if o.Created? then 1 else 0)
  {
    var p := PathString(inp.eventPath);
    var fingerprint := MonitorFingerprint(st);
    IsUploadedIff(history.records, fingerprint, st.size);
    ExistsInQueueIff(queue.rows, p);
    var uploaded, queued := false, false;
    if inp.fault != Some(0) {
      uploaded := history.IsUploaded(fingerprint, st.size);
    }
    if inp.fault != Some(0) && !uploaded && inp.fault != Some(1) {
      queued := queue.ExistsInQueueMethod(p);
    }
    var target := MatchConfig(inp.entries, inp.monPath);
    if inp.fault == Some(0) {
      o := StoreRaised;
    } else if uploaded {
      o := AlreadyUploaded;
    } else if inp.fault == Some(1) {
      o := StoreRaised;
    } else if queued {
      o := AlreadyQueued;
    } else if target.None? {
      o := NoConfig;
    } else {
      o := InsertClassified(queue, inp, st, target.value);
    }
  }

  /** The extension check and `create_task`. */
  method InsertClassified(queue: UploadQueue, inp: Input, st: Stat, t: Target) returns (o: Outcome)
    requires queue.Valid()
    modifies queue
    ensures queue.Valid()
    ensures o == Insert(old(queue.rows), old(queue.nextId), inp, st, t, KindOf(inp, t))
    ensures queue.rows == QueueAfter(old(queue.rows), o)
    ensures queue.nextId == old(queue.nextId) + (if o.Created? then 1 else 0)
  {
    var kind := KindOf(inp, t);
    if kind != Upload && kind != Copy {
      o := Skipped(kind);
    } else if inp.fault == Some(2) {
      o := StoreRaised;
    } else {
      var created := queue.CreateTaskMethod(NewTaskFor(inp, st, t, kind), inp.now);
      if created.Err? {
        o := DuplicatePath;
      } else {
        o := Created(created.value);
      }
    }
  }
}
