/**
 * The `upload_queue` table: one row per detected file. The single worker
 * drives each row pending -> processing -> completed | failed | pending
 * (retry). No operation moves a failed row back to pending.
 */
module UploadQueueTable {
  import opened Wrappers
  import opened Strings
  import Query

  datatype Status = Pending | Processing | Completed | Failed

  /** The status as stored in the `status` column. */
  function StatusName(s: Status): string {
    match s
    case Pending => "pending"
    case Processing => "processing"
    case Completed => "completed"
    case Failed => "failed"
  }

  /** Distinct statuses are stored under distinct names. */
  lemma {:induction false} StatusNameInjective(a: Status, b: Status)
    requires StatusName(a) == StatusName(b)
    ensures a == b
  {
    assert |StatusName(a)| == |StatusName(b)| && StatusName(a)[0] == StatusName(b)[0];
  }

  /** One row of `upload_queue`. `operationType` is "upload" or "copy" when the monitor writes it. */
  datatype Task = Task(
    id: nat,
    filePath: string,
    fileName: string,
    fileSize: int,
    fileMtime: int,
    monitorPath: string,
    destRemote: Option<string>,
    destLocal: Option<string>,
    operationType: string,
    deleteSource: bool,
    status: Status,
    retryCount: int,
    errorMessage: Option<string>,
    createdAt: int,
    updatedAt: int)

  /**
   * The table's integrity: ids increase along the table (autoincrement) and
   * stay below the next id, and `file_path` is unique across every row,
   * whatever its status.
   */
  predicate WellFormed(rows: seq<Task>, nextId: nat) {
    && Query.StrictlyIncreasing(rows, (t: Task) => t.id as int)
    && (forall i | 0 <= i < |rows| :: rows[i].id < nextId)
    && (forall i, j | 0 <= i < j < |rows| :: rows[i].filePath != rows[j].filePath)
  }

  // ---------------------------------------------------------------- dequeue

  /**
   * `WHERE status = 'pending' ORDER BY created_at ASC LIMIT 1`. Among pending
   * rows with equal `created_at` the earliest in the table is taken.
   */
  function NextPending(rows: seq<Task>): (r: Option<Task>)
    ensures r.None? <==> forall t | t in rows :: t.status != Pending
    ensures r.Some? ==> r.value in rows && r.value.status == Pending
    ensures r.Some? ==> forall t | t in rows && t.status == Pending :: r.value.createdAt <= t.createdAt
    decreases |rows|
  {
    if rows == [] then None
    else
      var rest := NextPending(rows[1..]);
      assert forall t | t in rows :: t == rows[0] || t in rows[1..];
      if rows[0].status == Pending && (rest.None? || rows[0].createdAt <= rest.value.createdAt) then
        Some(rows[0])
      else
        rest
  }

  // ----------------------------------------------------------------- updates

  /** The `SET` part of an `UPDATE upload_queue ... WHERE id = ?`. */
  datatype Change = Change(status: Status, updatedAt: int, retryCount: Option<int>, errorMessage: Option<string>)

  function Apply(t: Task, c: Change): Task {
    t.(status := c.status,
       updatedAt := c.updatedAt,
       retryCount := if c.retryCount.Some? then c.retryCount.value else t.retryCount,
       errorMessage := if c.errorMessage.Some? then c.errorMessage else t.errorMessage)
  }

  /** `UPDATE upload_queue SET ... WHERE id = id`; an unknown id updates nothing. */
  function UpdateById(rows: seq<Task>, id: nat, c: Change): (r: seq<Task>)
    ensures |r| == |rows|
  {
    seq(|rows|, i requires 0 <= i < |rows| => if rows[i].id == id then Apply(rows[i], c) else rows[i])
  }

  function MarkProcessing(rows: seq<Task>, id: nat, now: int): seq<Task> {
    UpdateById(rows, id, Change(Processing, now, None, None))
  }

  function MarkCompleted(rows: seq<Task>, id: nat, now: int): seq<Task> {
    UpdateById(rows, id, Change(Completed, now, None, None))
  }

  function MarkFailed(rows: seq<Task>, id: nat, msg: string, retryCount: int, now: int): seq<Task> {
    UpdateById(rows, id, Change(Failed, now, Some(retryCount), Some(msg)))
  }

  function MarkPendingRetry(rows: seq<Task>, id: nat, retryCount: int, now: int): seq<Task> {
    UpdateById(rows, id, Change(Pending, now, Some(retryCount), None))
  }

  /** The columns no `mark_as_*` writes: everything but status, retry_count, error_message and updated_at. */
  predicate SameIdentity(a: Task, b: Task) {
    && a.id == b.id && a.filePath == b.filePath && a.fileName == b.fileName
    && a.fileSize == b.fileSize && a.fileMtime == b.fileMtime && a.monitorPath == b.monitorPath
    && a.destRemote == b.destRemote && a.destLocal == b.destLocal
    && a.operationType == b.operationType && a.deleteSource == b.deleteSource
    && a.createdAt == b.createdAt
  }

  /**
   * An update by id leaves every other row as it was; the row with that id
   * keeps its identity columns and takes exactly the listed values, keeping
   * retry_count and error_message where the update does not set them.
   */
  lemma {:induction false} UpdateByIdFrame(rows: seq<Task>, id: nat, c: Change)
    ensures var r := UpdateById(rows, id, c);
      forall i | 0 <= i < |rows| ::
        && SameIdentity(rows[i], r[i])
        && (rows[i].id != id ==> r[i] == rows[i])
        && (rows[i].id == id ==>
              && r[i].status == c.status && r[i].updatedAt == c.updatedAt
              && r[i].retryCount == (if c.retryCount.Some? then c.retryCount.value else rows[i].retryCount)
              && r[i].errorMessage == (if c.errorMessage.Some? then c.errorMessage else rows[i].errorMessage))
  {
  }

  /** An update by id keeps the table well formed. */
  lemma {:induction false} UpdateByIdWellFormed(rows: seq<Task>, nextId: nat, id: nat, c: Change)
    requires WellFormed(rows, nextId)
    ensures WellFormed(UpdateById(rows, id, c), nextId)
  {
    var r := UpdateById(rows, id, c);
    assert forall i | 0 <= i < |rows| :: r[i].id == rows[i].id && r[i].filePath == rows[i].filePath;
  }

  /** Ids are unique, so the row with a given id is found by its position. */
  lemma {:induction false} UniqueId(rows: seq<Task>, nextId: nat, i: int, j: int)
    requires WellFormed(rows, nextId)
    requires 0 <= i < |rows| && 0 <= j < |rows| && rows[i].id == rows[j].id
    ensures i == j
  {
  }

  // ----------------------------------------------------------------- queries

  predicate InQueue(t: Task, path: string) {
    t.filePath == path && (t.status == Pending || t.status == Processing)
  }

  /** `exists_in_queue`: `count(*) WHERE file_path = path AND status IN ('pending', 'processing')` is positive. */
  function ExistsInQueue(rows: seq<Task>, path: string): bool {
    Query.Count(rows, (t: Task) => InQueue(t, path)) > 0
  }

  /** A file is in the queue exactly when a pending or processing row carries its path; finished rows do not count. */
  lemma {:induction false} ExistsInQueueIff(rows: seq<Task>, path: string)
    ensures ExistsInQueue(rows, path) <==> exists t | t in rows :: t.filePath == path && (t.status == Pending || t.status == Processing)
  {
    Query.CountZeroIff(rows, (t: Task) => InQueue(t, path));
  }

  function CountStatus(rows: seq<Task>, s: Status): nat {
    Query.Count(rows, (t: Task) => t.status == s)
  }

  /** The statuses `count_by_status` always reports, in the order it fills them in. */
  const AllStatuses: seq<Status> := [Pending, Processing, Completed, Failed]

  const StatusNameSet: set<string> := {"pending", "processing", "completed", "failed"}

  /** `SELECT status, count(*) GROUP BY status`: one entry per status that occurs. */
  function GroupByStatus(rows: seq<Task>): (m: map<string, nat>)
    ensures m.Keys <= StatusNameSet
    ensures forall s: Status | StatusName(s) in m :: m[StatusName(s)] == CountStatus(rows, s)
    ensures forall t | t in rows :: StatusName(t.status) in m
  {
    var names := set t | t in rows :: StatusName(t.status);
    assert forall s: Status :: StatusOf(StatusName(s)) == s;
    map name | name in names :: CountStatus(rows, StatusOf(name))
  }

  /** The status a stored name stands for. */
  function StatusOf(name: string): Status
    requires name in StatusNameSet
  {
    if name == "pending" then Pending
    else if name == "processing" then Processing
    else if name == "completed" then Completed
    else Failed
  }

  // ------------------------------------------------------------------ writes

  /** `reset_processing_tasks`: every processing row goes back to pending. */
  function ResetProcessing(rows: seq<Task>, now: int): (r: seq<Task>)
    ensures |r| == |rows|
  {
    seq(|rows|, i requires 0 <= i < |rows| =>
      if rows[i].status == Processing then rows[i].(status := Pending, updatedAt := now) else rows[i])
  }

  /**
   * After a reset nothing is processing, the former processing rows are
   * pending with their identity kept, and every other row is untouched; the
   * count reported is the number of processing rows before.
   */
  lemma {:induction false} ResetProcessingEffect(rows: seq<Task>, now: int)
    ensures var r := ResetProcessing(rows, now);
      && CountStatus(r, Processing) == 0
      && CountStatus(r, Pending) == CountStatus(rows, Pending) + CountStatus(rows, Processing)
      && CountStatus(r, Completed) == CountStatus(rows, Completed)
      && CountStatus(r, Failed) == CountStatus(rows, Failed)
      && forall i | 0 <= i < |rows| :: SameIdentity(rows[i], r[i]) && (rows[i].status != Processing ==> r[i] == rows[i])
  {
    ResetCounts(rows, now);
    var r := ResetProcessing(rows, now);
    Query.CountZeroIff(r, (t: Task) => t.status == Processing);
  }

  lemma {:induction false} ResetCounts(rows: seq<Task>, now: int)
    ensures var r := ResetProcessing(rows, now);
      && CountStatus(r, Pending) == CountStatus(rows, Pending) + CountStatus(rows, Processing)
      && CountStatus(r, Completed) == CountStatus(rows, Completed)
      && CountStatus(r, Failed) == CountStatus(rows, Failed)
    decreases |rows|
  {
    if rows != [] {
      ResetCounts(rows[1..], now);
      assert ResetProcessing(rows, now)[1..] == ResetProcessing(rows[1..], now);
    }
  }

  lemma {:induction false} ResetProcessingWellFormed(rows: seq<Task>, nextId: nat, now: int)
    requires WellFormed(rows, nextId)
    ensures WellFormed(ResetProcessing(rows, now), nextId)
  {
    var r := ResetProcessing(rows, now);
    assert forall i | 0 <= i < |rows| :: r[i].id == rows[i].id && r[i].filePath == rows[i].filePath;
  }

  /** `get_failed_tasks`: `WHERE status = 'failed' ORDER BY updated_at DESC LIMIT limit`. */
  function FailedTasks(rows: seq<Task>, limit: int): seq<Task> {
    Query.TopDesc(Query.Where(rows, (t: Task) => t.status == Failed), (t: Task) => t.updatedAt, limit)
  }

  /** At most `limit` rows, all failed and from the table, most recently updated first. */
  lemma {:induction false} FailedTasksNewestFirst(rows: seq<Task>, limit: int)
    ensures var r := FailedTasks(rows, limit);
      && (limit >= 0 ==> |r| <= limit)
      && (forall t | t in r :: t in rows && t.status == Failed)
      && Query.SortedDesc(r, (t: Task) => t.updatedAt)
  {
    var failed := Query.Where(rows, (t: Task) => t.status == Failed);
    Query.TopDescBounds(failed, (t: Task) => t.updatedAt, limit);
    var r := FailedTasks(rows, limit);
    forall t | t in r
      ensures t in failed
    {
      assert t in multiset(r);
    }
  }

  /** The values `create_task` receives from the caller. */
  datatype NewTask = NewTask(
    filePath: string,
    fileName: string,
    fileSize: int,
    fileMtime: real,
    monitorPath: string,
    operationType: string,
    destRemote: Option<string>,
    destLocal: Option<string>,
    deleteSource: bool)

  /** The row `create_task` inserts: pending, no retries, both timestamps `now`, mtime truncated. */
  function NewRow(id: nat, n: NewTask, now: int): Task {
    Task(id, n.filePath, n.fileName, n.fileSize, Truncate(n.fileMtime), n.monitorPath,
         n.destRemote, n.destLocal, n.operationType, n.deleteSource,
         Pending, 0, None, now, now)
  }

  predicate PathTaken(rows: seq<Task>, path: string) {
    exists t | t in rows :: t.filePath == path
  }

  /**
   * `create_task`: the insert fails on the unique `file_path` index when any
   * row, finished or not, already holds the path; otherwise one row is appended.
   */
  function CreateTask(rows: seq<Task>, nextId: nat, n: NewTask, now: int): (r: Result<seq<Task>, string>)
    ensures r.Err? <==> PathTaken(rows, n.filePath)
    ensures r.Ok? ==> r.value == rows + [NewRow(nextId, n, now)]
  {
    if PathTaken(rows, n.filePath) then Err("UNIQUE constraint failed: upload_queue.file_path")
    else Ok(rows + [NewRow(nextId, n, now)])
  }

  /** A successful insert keeps the table well formed and the new row is the only change. */
  lemma {:induction false} CreateTaskWellFormed(rows: seq<Task>, nextId: nat, n: NewTask, now: int)
    requires WellFormed(rows, nextId)
    requires CreateTask(rows, nextId, n, now).Ok?
    ensures WellFormed(CreateTask(rows, nextId, n, now).value, nextId + 1)
  {
    var r := CreateTask(rows, nextId, n, now).value;
    forall i, j | 0 <= i < j < |r|
      ensures r[i].filePath != r[j].filePath
    {
      if j == |rows| {
        assert rows[i] in rows;
      }
    }
  }

  /** The inserted row is pending with zero retries, both timestamps `now`, and the truncated mtime. */
  lemma {:induction false} NewRowIsFresh(id: nat, n: NewTask, now: int)
    ensures var t := NewRow(id, n, now);
      && t.status == Pending && t.retryCount == 0 && t.errorMessage.None?
      && t.createdAt == now && t.updatedAt == now
      && (n.fileMtime >= 0.0 ==> t.fileMtime as real <= n.fileMtime < t.fileMtime as real + 1.0)
  {
  }

  /**
   * A path whose row ended failed (or completed) is no longer "in the queue",
   * yet a new row for it can never be inserted: the unique index still holds it.
   */
  lemma {:induction false} FinishedPathBlocksRequeue(rows: seq<Task>, nextId: nat, n: NewTask, now: int, i: int)
    requires WellFormed(rows, nextId)
    requires 0 <= i < |rows| && rows[i].filePath == n.filePath
    requires rows[i].status == Failed || rows[i].status == Completed
    ensures !ExistsInQueue(rows, n.filePath)
    ensures CreateTask(rows, nextId, n, now).Err?
  {
    ExistsInQueueIff(rows, n.filePath);
    forall t | t in rows && t.filePath == n.filePath
      ensures t == rows[i]
    {
      var k :| 0 <= k < |rows| && rows[k] == t;
    }
    assert rows[i] in rows;
  }

  // ------------------------------------------------------------------- table

  /** The table, updated in place by every write. */
  class UploadQueue {
    var rows: seq<Task>
    var nextId: nat

    ghost predicate Valid()
      reads this
    {
      WellFormed(rows, nextId)
    }

    constructor()
      ensures rows == [] && nextId == 1 && Valid()
    {
      rows := [];
      nextId := 1;
    }

    /** `get_next_pending_task`: the oldest pending row, if any. */
    method GetNextPendingTask() returns (t: Option<Task>)
      ensures t.None? <==> forall x | x in rows :: x.status != Pending
      ensures t.Some? ==> t.value in rows && t.value.status == Pending
      ensures t.Some? ==> forall x | x in rows && x.status == Pending :: t.value.createdAt <= x.createdAt
      ensures t == NextPending(rows)
    {
      t := NextPending(rows);
    }

    method MarkAsProcessing(id: nat, now: int)
      requires Valid()
      modifies this
      ensures Valid() && nextId == old(nextId)
      ensures rows == MarkProcessing(old(rows), id, now)
    {
      UpdateByIdWellFormed(rows, nextId, id, Change(Processing, now, None, None));
      rows := MarkProcessing(rows, id, now);
    }

    method MarkAsCompleted(id: nat, now: int)
      requires Valid()
      modifies this
      ensures Valid() && nextId == old(nextId)
      ensures rows == MarkCompleted(old(rows), id, now)
    {
      UpdateByIdWellFormed(rows, nextId, id, Change(Completed, now, None, None));
      rows := MarkCompleted(rows, id, now);
    }

    method MarkAsFailed(id: nat, msg: string, retryCount: int, now: int)
      requires Valid()
      modifies this
      ensures Valid() && nextId == old(nextId)
      ensures rows == MarkFailed(old(rows), id, msg, retryCount, now)
    {
      UpdateByIdWellFormed(rows, nextId, id, Change(Failed, now, Some(retryCount), Some(msg)));
      rows := MarkFailed(rows, id, msg, retryCount, now);
    }

    method MarkAsPendingRetry(id: nat, retryCount: int, now: int)
      requires Valid()
      modifies this
      ensures Valid() && nextId == old(nextId)
      ensures rows == MarkPendingRetry(old(rows), id, retryCount, now)
    {
      UpdateByIdWellFormed(rows, nextId, id, Change(Pending, now, Some(retryCount), None));
      rows := MarkPendingRetry(rows, id, retryCount, now);
    }

    /** `exists_in_queue` */
    method ExistsInQueueMethod(path: string) returns (b: bool)
      ensures b <==> exists t | t in rows :: t.filePath == path && (t.status == Pending || t.status == Processing)
    {
      ExistsInQueueIff(rows, path);
      b := ExistsInQueue(rows, path);
    }

    /**
     * `count_by_status`: the grouped counts, then each of the four names that
     * did not occur filled in with 0.
     */
    method CountByStatus() returns (stats: map<string, nat>)
      ensures stats.Keys == StatusNameSet
      ensures forall s: Status :: stats[StatusName(s)] == CountStatus(rows, s)
    {
      stats := GroupByStatus(rows);
      for k := 0 to |AllStatuses|
        invariant GroupByStatus(rows).Keys <= stats.Keys <= StatusNameSet
        invariant forall i | 0 <= i < k :: StatusName(AllStatuses[i]) in stats
        invariant forall s: Status | StatusName(s) in stats :: stats[StatusName(s)] == CountStatus(rows, s)
      {
        var status := AllStatuses[k];
        var name := StatusName(status);
        if name !in stats {
          ZeroWhenAbsent(rows, status);
          forall s: Status | StatusName(s) == name
            ensures s == status
          {
            StatusNameInjective(s, status);
          }
          stats := stats[name := 0];
        }
      }
      forall s: Status
        ensures StatusName(s) in stats
      {
        assert s == AllStatuses[0] || s == AllStatuses[1] || s == AllStatuses[2] || s == AllStatuses[3];
      }
      assert StatusName(Pending) in stats && StatusName(Processing) in stats;
      assert StatusName(Completed) in stats && StatusName(Failed) in stats;
    }

    /** `reset_processing_tasks`: returns how many rows were processing. */
    method ResetProcessingTasks(now: int) returns (count: nat)
      requires Valid()
      modifies this
      ensures Valid() && nextId == old(nextId)
      ensures rows == ResetProcessing(old(rows), now)
      ensures count == CountStatus(old(rows), Processing)
    {
      count := CountStatus(rows, Processing);
      ResetProcessingWellFormed(rows, nextId, now);
      rows := ResetProcessing(rows, now);
    }

    /** `get_failed_tasks` */
    method GetFailedTasks(limit: int) returns (r: seq<Task>)
      ensures r == FailedTasks(rows, limit)
      ensures limit >= 0 ==> |r| <= limit
      ensures forall t | t in r :: t in rows && t.status == Failed
      ensures Query.SortedDesc(r, (t: Task) => t.updatedAt)
    {
      FailedTasksNewestFirst(rows, limit);
      r := FailedTasks(rows, limit);
    }

    /** `create_task`: inserts the row, or fails on the unique path and changes nothing. */
    method CreateTaskMethod(n: NewTask, now: int) returns (r: Result<Task, string>)
      requires Valid()
      modifies this
      ensures Valid()
      ensures r.Err? <==> PathTaken(old(rows), n.filePath)
      ensures r.Err? ==> rows == old(rows) && nextId == old(nextId)
      ensures r.Ok? ==> r.value == NewRow(old(nextId), n, now)
      ensures r.Ok? ==> rows == old(rows) + [r.value] && nextId == old(nextId) + 1
    {
      var c := CreateTask(rows, nextId, n, now);
      if c.Err? {
        r := Err(c.error);
      } else {
        CreateTaskWellFormed(rows, nextId, n, now);
        r := Ok(NewRow(nextId, n, now));
        rows := c.value;
        nextId := nextId + 1;
      }
    }
  }

  /** A status no row holds is counted 0, which is what zero-filling writes. */
  lemma {:induction false} ZeroWhenAbsent(rows: seq<Task>, s: Status)
    requires StatusName(s) !in GroupByStatus(rows)
    ensures CountStatus(rows, s) == 0
  {
    Query.CountZeroIff(rows, (t: Task) => t.status == s);
  }
}
