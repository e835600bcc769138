/**
 * The `upload_history` table: one record per finished transfer, used to skip
 * files whose (fingerprint, size) pair was already transferred, with a
 * retention cleanup by age.
 */
module UploadHistoryTable {
  import opened Wrappers
  import opened Strings
  import Query

  /** Seconds in a day, the unit of the retention period. */
  const SecondsPerDay: int := 86400

  /** The dedup fingerprint `f"{file_size}_{file_mtime}"` of a size and an integer mtime. */
  function Fingerprint(size: int, mtime: int): string {
    IntToString(size) + "_" + IntToString(mtime)
  }

  /** Different (size, mtime) pairs never share a fingerprint. */
  lemma {:induction false} FingerprintInjective(size1: int, mtime1: int, size2: int, mtime2: int)
    requires Fingerprint(size1, mtime1) == Fingerprint(size2, mtime2)
    ensures size1 == size2 && mtime1 == mtime2
  {
    var a, b := IntToString(size1), IntToString(size2);
    assert '_' !in a && '_' !in b;
    SplitFirstOfJoin(a, IntToString(mtime1), '_');
    SplitFirstOfJoin(b, IntToString(mtime2), '_');
    IntToStringInjective(size1, size2);
    IntToStringInjective(mtime1, mtime2);
  }

  /** One row of `upload_history`. */
  datatype Record = Record(
    id: nat,
    fingerprint: string,
    fileSize: int,
    filePath: string,
    fileName: string,
    destRemote: Option<string>,
    destLocal: Option<string>,
    operationType: string,
    completedAt: int)

  /** `SELECT ... WHERE file_fingerprint = fp AND file_size = size` finds a row. */
  function IsUploadedIn(records: seq<Record>, fp: string, size: int): bool {
    Query.Where(records, (r: Record) => r.fingerprint == fp && r.fileSize == size) != []
  }

  /** A file counts as uploaded exactly when one record matches both its fingerprint and its size. */
  lemma {:induction false} IsUploadedIff(records: seq<Record>, fp: string, size: int)
    ensures IsUploadedIn(records, fp, size) <==> exists r | r in records :: r.fingerprint == fp && r.fileSize == size
  {
    var w := Query.Where(records, (r: Record) => r.fingerprint == fp && r.fileSize == size);
    if w != [] {
      assert w[0] in w;
    }
  }

  /** A matching fingerprint alone is not enough: the sizes must agree too. */
  lemma {:induction false} FingerprintAloneIsNotEnough()
    ensures var rec := Record(1, "10_5", 10, "/a", "a", None, None, "upload", 0);
      !IsUploadedIn([rec], "10_5", 11)
  {
  }

  /** `cutoff_timestamp = int(now - days * 86400)` for a clock reading `now` in seconds. */
  function Cutoff(now: real, days: int): int {
    Truncate(now - (days * SecondsPerDay) as real)
  }

  /** The records `DELETE ... WHERE completed_at < cutoff` keeps. */
  function Retained(records: seq<Record>, cutoff: int): seq<Record> {
    Query.Where(records, (r: Record) => r.completedAt >= cutoff)
  }

  /** The number of records older than the cutoff. */
  function Expired(records: seq<Record>, cutoff: int): nat {
    Query.Count(records, (r: Record) => r.completedAt < cutoff)
  }

  /**
   * Cleanup keeps exactly the records completed at or after the cutoff, and
   * the number it reports is the number of records older than the cutoff.
   */
  lemma {:induction false} CleanupRemovesExactlyExpired(records: seq<Record>, cutoff: int)
    ensures forall r | r in Retained(records, cutoff) :: r in records && r.completedAt >= cutoff
    ensures forall r | r in records && r.completedAt >= cutoff :: r in Retained(records, cutoff)
    ensures |records| - |Retained(records, cutoff)| == Expired(records, cutoff)
  {
    Query.CountComplement(records, (r: Record) => r.completedAt < cutoff, (r: Record) => r.completedAt >= cutoff);
  }

  /** A second cleanup with the same clock reading and period finds nothing left to delete. */
  lemma {:induction false} CleanupIdempotent(records: seq<Record>, cutoff: int)
    ensures Retained(Retained(records, cutoff), cutoff) == Retained(records, cutoff)
    ensures Expired(Retained(records, cutoff), cutoff) == 0
  {
    var kept := Retained(records, cutoff);
    RetainedFixed(kept, cutoff);
    Query.CountZeroIff(kept, (r: Record) => r.completedAt < cutoff);
  }

  /** Filtering rows that all pass the filter leaves them as they are. */
  lemma {:induction false} RetainedFixed(records: seq<Record>, cutoff: int)
    requires forall r | r in records :: r.completedAt >= cutoff
    ensures Retained(records, cutoff) == records
    decreases |records|
  {
    if records != [] {
      RetainedFixed(records[1..], cutoff);
      assert records == [records[0]] + records[1..];
    }
  }

  /** `ORDER BY completed_at DESC LIMIT limit` */
  function RecentUploads(records: seq<Record>, limit: int): seq<Record> {
    Query.TopDesc(records, (r: Record) => r.completedAt, limit)
  }

  /** At most `limit` records, newest first, all taken from the table, none newer left out. */
  lemma {:induction false} RecentUploadsNewestFirst(records: seq<Record>, limit: int)
    ensures var r := RecentUploads(records, limit);
      && Query.SortedDesc(r, (x: Record) => x.completedAt)
      && (limit >= 0 ==> |r| <= limit)
      && multiset(r) <= multiset(records)
      && forall x, y | x in r && y in multiset(records) - multiset(r) :: x.completedAt >= y.completedAt
  {
    var r := RecentUploads(records, limit);
    var key := (x: Record) => x.completedAt;
    Query.TopDescBounds(records, key, limit);
    forall x, y | x in r && y in multiset(records) - multiset(r)
      ensures x.completedAt >= y.completedAt
    {
      Query.TopDescDominates(records, key, limit, x, y);
    }
  }

  /** The table; ids come from SQLite's autoincrement counter. */
  class UploadHistory {
    var records: seq<Record>
    var nextId: nat

    /** Ids increase along the table and stay below the next id to hand out. */
    ghost predicate Valid()
      reads this
    {
      && Query.StrictlyIncreasing(records, (r: Record) => r.id as int)
      && (forall i | 0 <= i < |records| :: records[i].id < nextId)
    }

    constructor()
      ensures records == [] && nextId == 1 && Valid()
    {
      records := [];
      nextId := 1;
    }

    /** `is_uploaded`: does any record carry both this fingerprint and this size? */
    method IsUploaded(fp: string, size: int) returns (b: bool)
      ensures b <==> exists r | r in records :: r.fingerprint == fp && r.fileSize == size
    {
      IsUploadedIff(records, fp, size);
      b := IsUploadedIn(records, fp, size);
    }

    /** `record_upload`: appends one record stamped with `now`, after which the pair counts as uploaded. */
    method RecordUpload(fp: string, size: int, path: string, name: string, op: string,
                        destRemote: Option<string>, destLocal: Option<string>, now: int)
      requires Valid()
      modifies this
      ensures Valid()
      ensures records == old(records) + [Record(old(nextId), fp, size, path, name, destRemote, destLocal, op, now)]
      ensures nextId == old(nextId) + 1
      ensures IsUploadedIn(records, fp, size)
    {
      records := records + [Record(nextId, fp, size, path, name, destRemote, destLocal, op, now)];
      nextId := nextId + 1;
      IsUploadedIff(records, fp, size);
      assert records[|records| - 1] in records;
    }

    /** `cleanup_old_records`: deletes the records older than `days` days before `now` and counts them. */
    method CleanupOldRecords(now: real, days: int) returns (count: nat)
      requires Valid()
      modifies this
      ensures Valid()
      ensures records == Retained(old(records), Cutoff(now, days))
      ensures count == Expired(old(records), Cutoff(now, days))
      ensures nextId == old(nextId)
    {
      var cutoff := Cutoff(now, days);
      var kept := Retained(records, cutoff);
      CleanupRemovesExactlyExpired(records, cutoff);
      Query.WhereKeepsIncreasing(records, (r: Record) => r.completedAt >= cutoff, (r: Record) => r.id as int);
      count := |records| - |kept|;
      records := kept;
    }

    /** `get_recent_uploads` */
    method GetRecentUploads(limit: int) returns (r: seq<Record>)
      ensures r == RecentUploads(records, limit)
    {
      r := RecentUploads(records, limit);
    }
  }
}
