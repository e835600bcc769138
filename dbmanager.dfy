// The database manager: the engine/session life cycle, the checkpoint mode
// check, the session-injecting decorators `db_update` and `db_query`, and
// the payload filter of the ORM base class. Sessions and Python values are
// abstract; a function's own behaviour and the database's answers are
// parameters.

module DbManager {
  import opened Wrappers
  import opened Strings

  // ---------------------------------------------------------------------
  // Arguments and the session in them

  /** A Python argument value: a session (by identity), None, or anything else. */
  datatype Arg = Session(id: nat) | NoneArg | Other(value: int)

  /** Keyword arguments, in insertion order. */
  type Kwargs = seq<(string, Arg)>

  /** The first session among the values, in order. */
  function FirstSession(xs: seq<Arg>): (r: Option<nat>)
    ensures r.None? <==> forall i | 0 <= i < |xs| :: !xs[i].Session?
    ensures r.Some? ==> exists i | 0 <= i < |xs| ::
      xs[i] == Session(r.value) && forall j | 0 <= j < i :: !xs[j].Session?
  {
    if xs == [] then None
    else if xs[0].Session? then Some(xs[0].id)
    else
      var r := FirstSession(xs[1..]);
      assert forall i | 1 <= i < |xs| :: xs[i] == xs[1..][i - 1];
      if r.Some? then
        var i :| 0 <= i < |xs[1..]| && xs[1..][i] == Session(r.value) && forall j | 0 <= j < i :: !xs[1..][j].Session?;
        assert xs[i + 1] == Session(r.value) && forall j | 0 <= j < i + 1 :: !xs[j].Session?;
        r
      else r
  }

  lemma {:induction false} FirstSessionStep(xs: seq<Arg>, i: nat)
    requires i < |xs|
    ensures FirstSession(xs[i..]) == if xs[i].Session? then Some(xs[i].id) else FirstSession(xs[i + 1..])
  {
    assert xs[i..][0] == xs[i];
    assert xs[i..][1..] == xs[i + 1..];
  }

  function Values(kwargs: Kwargs): (vs: seq<Arg>)
    ensures |vs| == |kwargs| && forall i | 0 <= i < |kwargs| :: vs[i] == kwargs[i].1
  {
    seq(|kwargs|, i requires 0 <= i < |kwargs| => kwargs[i].1)
  }

  /** `get_args_db` as specified: a session among the keyword values wins over one among the positionals. */
  function ArgsDb(args: seq<Arg>, kwargs: Kwargs): Option<nat> {
    var k := FirstSession(Values(kwargs));
    if k.Some? then k else FirstSession(args)
  }

  /** `get_args_db`: the scan of the positionals, then of the keyword values. */
  method GetArgsDb(args: seq<Arg>, kwargs: Kwargs) returns (db: Option<nat>)
    ensures db == ArgsDb(args, kwargs)
  {
    db := None;
    var i := 0;
    while i < |args|
      invariant 0 <= i <= |args|
      invariant FirstSession(args) == if db.Some? then db else FirstSession(args[i..])
      invariant db.None? ==> forall j | 0 <= j < i :: !args[j].Session?
    {
      FirstSessionStep(args, i);
      if args[i].Session? {
        db := Some(args[i].id);
        break;
      }
      i := i + 1;
    }
    var k := 0;
    var found := false;
    while k < |kwargs|
      invariant 0 <= k <= |kwargs|
      invariant FirstSession(Values(kwargs)) == if found then db else FirstSession(Values(kwargs)[k..])
      invariant !found ==> db == FirstSession(args)
    {
      FirstSessionStep(Values(kwargs), k);
      if kwargs[k].1.Session? {
        db := Some(kwargs[k].1.id);
        found := true;
        break;
      }
      k := k + 1;
    }
  }

  /** A keyword session is taken even when a positional one is present. */
  lemma {:induction false} KeywordSessionWins(args: seq<Arg>, kwargs: Kwargs, i: nat)
    requires i < |kwargs| && kwargs[i].1.Session?
    requires forall j | 0 <= j < i :: !kwargs[j].1.Session?
    ensures ArgsDb(args, kwargs) == Some(kwargs[i].1.id)
  {
    var vs := Values(kwargs);
    assert vs[i].Session?;
    var m :| 0 <= m < |vs| && vs[m] == Session(FirstSession(vs).value) && forall j | 0 <= j < m :: !vs[j].Session?;
    assert m == i;
  }

  /** No session anywhere: the decorator must create one. */
  lemma {:induction false} NoSessionFound(args: seq<Arg>, kwargs: Kwargs)
    requires forall i | 0 <= i < |args| :: !args[i].Session?
    requires forall i | 0 <= i < |kwargs| :: !kwargs[i].1.Session?
    ensures ArgsDb(args, kwargs) == None
  {
  }

  predicate HasKey(kwargs: Kwargs, key: string) {
    exists i | 0 <= i < |kwargs| :: kwargs[i].0 == key
  }

  /** `kwargs[key]`: the value of the first entry with that key. */
  function KeyValue(kwargs: Kwargs, key: string): (r: Option<Arg>)
    ensures r.None? <==> !HasKey(kwargs, key)
    ensures r.Some? ==> exists i | 0 <= i < |kwargs| :: kwargs[i].0 == key && kwargs[i].1 == r.value
  {
    if kwargs == [] then None
    else if kwargs[0].0 == key then Some(kwargs[0].1)
    else
      var r := KeyValue(kwargs[1..], key);
      assert forall i | 1 <= i < |kwargs| :: kwargs[i] == kwargs[1..][i - 1];
      if r.Some? then
        var i :| 0 <= i < |kwargs[1..]| && kwargs[1..][i].0 == key && kwargs[1..][i].1 == r.value;
        assert kwargs[i + 1].0 == key && kwargs[i + 1].1 == r.value;
        r
      else r
  }

  /** `kwargs[key] = v`: the entry keeps its place, its value is replaced. */
  function SetKey(kwargs: Kwargs, key: string, v: Arg): (r: Kwargs)
    ensures |r| == |kwargs|
    ensures forall i | 0 <= i < |kwargs| :: r[i].0 == kwargs[i].0
    ensures forall i | 0 <= i < |kwargs| :: r[i].1 == if kwargs[i].0 == key then v else kwargs[i].1
  {
    seq(|kwargs|, i requires 0 <= i < |kwargs| => if kwargs[i].0 == key then (key, v) else kwargs[i])
  }

  /** `update_args_db` as written: keyword `db`, else the first positional if None, else the second. */
  function UpdateArgsDb(args: seq<Arg>, kwargs: Kwargs, db: nat): (seq<Arg>, Kwargs) {
    if HasKey(kwargs, "db") then (args, SetKey(kwargs, "db", Session(db)))
    else if args == [] then (args, kwargs)
    else if args[0] == NoneArg then ([Session(db)] + args[1..], kwargs)
    else ([args[0], Session(db)] + (if |args| >= 2 then args[2..] else []), kwargs)
  }

  /**
   * What the `db` parameter of a function whose first parameter is `db`
   * (all the store's static methods) is bound to, or None when it is
   * missing (a `TypeError`).
   */
  function DbParameter(args: seq<Arg>, kwargs: Kwargs): Option<Arg> {
    var k := KeyValue(kwargs, "db");
    if k.Some? then k
    else if args != [] then Some(args[0])
    else None
  }

  /**
   * As written, a store method called with its own arguments only (a task
   * id, or keywords without `db`) does not get the session: the first
   * positional stays where it is, or nothing binds `db` at all.
   */
  lemma {:induction false} UpdateArgsDbMisbindsStaticMethods(args: seq<Arg>, kwargs: Kwargs, db: nat)
    requires !HasKey(kwargs, "db")
    requires args == [] || args[0] != NoneArg
    requires forall i | 0 <= i < |args| :: !args[i].Session?
    ensures var (a, k) := UpdateArgsDb(args, kwargs, db);
      DbParameter(a, k) != Some(Session(db))
  {
  }

  /** `UploadQueue.mark_as_processing(task.id)`: the task id is bound to `db`, the session to `task_id`. */
  lemma {:induction false} MarkAsProcessingMisbound(taskId: int, db: nat)
    ensures UpdateArgsDb([Other(taskId)], [], db) == ([Other(taskId), Session(db)], [])
    ensures DbParameter([Other(taskId), Session(db)], []) == Some(Other(taskId))
  {
    assert [Other(taskId), Session(db)] + [] == [Other(taskId), Session(db)];
  }

  /** `UploadQueue.create_task(file_path=...)`: keywords only, so `db` stays unbound. */
  lemma {:induction false} CreateTaskUnbound(path: int, db: nat)
    ensures UpdateArgsDb([], [("file_path", Other(path))], db) == ([], [("file_path", Other(path))])
    ensures DbParameter([], [("file_path", Other(path))]) == None
  {
    assert !HasKey([("file_path", Other(path))], "db");
  }

  /**
   * The intended binding for a function whose first parameter is `db`: the
   * keyword `db` if given, else the session in the first position, taking
   * the place of a None there.
   */
  function BindLeadingSession(args: seq<Arg>, kwargs: Kwargs, db: nat): (seq<Arg>, Kwargs) {
    if HasKey(kwargs, "db") then (args, SetKey(kwargs, "db", Session(db)))
    else if args != [] && args[0] == NoneArg then ([Session(db)] + args[1..], kwargs)
    else ([Session(db)] + args, kwargs)
  }

  /** The corrected binding always gives `db` the session and keeps the other arguments in order. */
  lemma {:induction false} BindLeadingSessionBinds(args: seq<Arg>, kwargs: Kwargs, db: nat)
    ensures var (a, k) := BindLeadingSession(args, kwargs, db);
      DbParameter(a, k) == Some(Session(db)) &&
      (HasKey(kwargs, "db") ==> a == args) &&
      (!HasKey(kwargs, "db") ==> k == kwargs && a[1..] == if args != [] && args[0] == NoneArg then args[1..] else args)
  {
    var (a, k) := BindLeadingSession(args, kwargs, db);
    if HasKey(kwargs, "db") {
      var i :| 0 <= i < |kwargs| && kwargs[i].0 == "db";
      assert k[i].0 == "db";
    }
  }

  // ---------------------------------------------------------------------
  // db_update and db_query

  /** An error raised inside the decorated function or by the commit. */
  datatype DbError = Busy | OtherOperational | NotOperational

  predicate IsOperational(e: DbError) {
    e != NotOperational
  }

  /** One attempt: the function returns and the commit succeeds, or one of them raises. */
  datatype Attempt = Succeeded(value: int) | CallRaised(error: DbError) | CommitRaised(error: DbError)

  /** What happens to the session, in order. */
  datatype Event = Call | Commit | Rollback | Close

  datatype Outcome = Value(value: int) | Raised(error: DbError)

  const MaxRetries: nat := 3

  /**
   * The session events of one attempt: the commit follows a call that
   * returned, and a raise rolls back once (inside the loop for an
   * operational error, in the outer handler for any other).
   */
  function AttemptEvents(a: Attempt): (evs: seq<Event>)
    ensures |evs| >= 2 && evs[0] == Call && Close !in evs
    ensures Commit in evs <==> !a.CallRaised?
    ensures Rollback in evs <==> !a.Succeeded?
  {
    match a
    case Succeeded(_) => [Call, Commit]
    case CallRaised(_) => [Call, Rollback]
    case CommitRaised(_) => [Call, Commit, Rollback]
  }

  /** Another attempt follows: a busy error before the last attempt. */
  predicate Retries(a: Attempt, k: nat) {
    !a.Succeeded? && a.error == Busy && k < MaxRetries - 1
  }

  /**
   * The attempts of `db_update` from attempt `k` on: the outcome and the
   * session events, before the final close.
   */
  function UpdateFrom(attempts: nat -> Attempt, k: nat): (r: (Outcome, seq<Event>))
    requires k < MaxRetries
    decreases MaxRetries - k
  {
    var a := attempts(k);
    if a.Succeeded? then (Value(a.value), AttemptEvents(a))
    else if Retries(a, k) then
      var rest := UpdateFrom(attempts, k + 1); (rest.0, AttemptEvents(a) + rest.1)
    else (Raised(a.error), AttemptEvents(a))
  }

  /** `db_update` as specified; the session is closed at the end exactly when the wrapper created it. */
  function DbUpdateSpec(created: bool, attempts: nat -> Attempt): (Outcome, seq<Event>) {
    var (o, evs) := UpdateFrom(attempts, 0);
    (o, if created then evs + [Close] else evs)
  }

  lemma {:induction false} RetryUnfolds(attempts: nat -> Attempt, k: nat)
    requires k < MaxRetries && Retries(attempts(k), k)
    ensures UpdateFrom(attempts, k) ==
      (UpdateFrom(attempts, k + 1).0, AttemptEvents(attempts(k)) + UpdateFrom(attempts, k + 1).1)
  {
  }

  /** One pass through the inner `try`: call, commit on return, roll back on a raise. */
  method RunAttempt(a: Attempt) returns (evs: seq<Event>)
    ensures evs == AttemptEvents(a)
  {
    evs := [Call];
    if a.Succeeded? {
      evs := evs + [Commit];
      return;
    }
    if a.CommitRaised? {
      evs := evs + [Commit];
    }
    evs := evs + [Rollback];
  }

  /** The retry loop of `db_update`; `created` says whether the wrapper opened the session. */
  method DbUpdate(created: bool, attempts: nat -> Attempt) returns (outcome: Outcome, events: seq<Event>)
    ensures (outcome, events) == DbUpdateSpec(created, attempts)
  {
    ghost var spec := UpdateFrom(attempts, 0);
    events := [];
    var k := 0;
    outcome := Raised(Busy);
    while k < MaxRetries
      invariant 0 <= k < MaxRetries
      invariant events + UpdateFrom(attempts, k).1 == spec.1
      invariant UpdateFrom(attempts, k).0 == spec.0
      decreases MaxRetries - k
    {
      var a := attempts(k);
      var step := RunAttempt(a);
      if a.Succeeded? || !Retries(a, k) {
        LastAttempt(attempts, k);
        events := events + step;
        outcome := if a.Succeeded? then Value(a.value) else Raised(a.error);
        break;
      }
      RetryStep(attempts, k, events, spec.1);
      events := events + step;
      k := k + 1;
    }
    if created {
      events := events + [Close];
    }
  }

  /** An attempt that succeeds, or fails with no retry after it, decides the outcome. */
  lemma {:induction false} LastAttempt(attempts: nat -> Attempt, k: nat)
    requires k < MaxRetries && (attempts(k).Succeeded? || !Retries(attempts(k), k))
    ensures var a := attempts(k);
      UpdateFrom(attempts, k) ==
        (if a.Succeeded? then Value(a.value) else Raised(a.error), AttemptEvents(a))
  {
  }

  /** The events before a retried attempt, then its own, leave the rest of the run to come. */
  lemma {:induction false} RetryStep(attempts: nat -> Attempt, k: nat, events: seq<Event>, all: seq<Event>)
    requires k < MaxRetries && !attempts(k).Succeeded? && Retries(attempts(k), k)
    requires events + UpdateFrom(attempts, k).1 == all
    ensures k + 1 < MaxRetries
    ensures (events + AttemptEvents(attempts(k))) + UpdateFrom(attempts, k + 1).1 == all
    ensures UpdateFrom(attempts, k + 1).0 == UpdateFrom(attempts, k).0
  {
    var step := AttemptEvents(attempts(k));
    var rest := UpdateFrom(attempts, k + 1).1;
    RetryUnfolds(attempts, k);
    assert events + (step + rest) == (events + step) + rest;
  }

  /** How often an event occurs. */
  function CountOf(evs: seq<Event>, e: Event): nat {
    multiset(evs)[e]
  }

  /** Every attempt from `k` up to `n` raised a busy error. */
  predicate BusyBefore(attempts: nat -> Attempt, k: nat, n: nat) {
    forall j: nat | k <= j < n :: !attempts(j).Succeeded? && attempts(j).error == Busy
  }

  lemma {:induction false} OneCallPerAttempt(a: Attempt)
    ensures CountOf(AttemptEvents(a), Call) == 1
    ensures CountOf(AttemptEvents(a), Close) == 0
  {
  }

  /** The number of attempts `db_update` makes from attempt `k` on. */
  function AttemptsMade(attempts: nat -> Attempt, k: nat): nat
    requires k < MaxRetries
    decreases MaxRetries - k
  {
    if Retries(attempts(k), k) then 1 + AttemptsMade(attempts, k + 1) else 1
  }

  /** Each attempt made calls the function once, and nothing closes the session inside the loop. */
  lemma {:induction false} CallsCounted(attempts: nat -> Attempt, k: nat)
    requires k < MaxRetries
    ensures CountOf(UpdateFrom(attempts, k).1, Call) == AttemptsMade(attempts, k)
    ensures CountOf(UpdateFrom(attempts, k).1, Close) == 0
    decreases MaxRetries - k
  {
    var a := attempts(k);
    var head := AttemptEvents(a);
    OneCallPerAttempt(a);
    if Retries(a, k) {
      CallsCounted(attempts, k + 1);
      RetryUnfolds(attempts, k);
      var rest := UpdateFrom(attempts, k + 1).1;
      assert multiset(head + rest) == multiset(head) + multiset(rest);
    } else {
      assert UpdateFrom(attempts, k).1 == head;
    }
  }

  /**
   * At most three attempts; a further attempt only after a busy error; the
   * function's value is returned exactly when the last attempt made
   * succeeded, and a busy error is raised only after the last attempt.
   */
  lemma {:induction false} UpdateFromAttempts(attempts: nat -> Attempt, k: nat)
    requires k < MaxRetries
    ensures var o := UpdateFrom(attempts, k).0;
      var n := AttemptsMade(attempts, k);
      var last := attempts(k + n - 1);
      1 <= n <= MaxRetries - k &&
      BusyBefore(attempts, k, k + n - 1) &&
      (o.Value? <==> last.Succeeded?) &&
      (o.Value? ==> o.value == last.value) &&
      (o.Raised? ==> o.error == last.error) &&
      (o.Raised? && o.error == Busy ==> k + n == MaxRetries)
    decreases MaxRetries - k
  {
    if Retries(attempts(k), k) {
      UpdateFromAttempts(attempts, k + 1);
    }
  }

  /** Each commit comes right after a call: the session is committed only after the function returned. */
  lemma {:induction false} CommitFollowsCall(attempts: nat -> Attempt, k: nat)
    requires k < MaxRetries
    ensures var evs := UpdateFrom(attempts, k).1;
      evs[0] == Call &&
      forall i | 0 <= i < |evs| && evs[i] == Commit :: i > 0 && evs[i - 1] == Call
    decreases MaxRetries - k
  {
    var a := attempts(k);
    if Retries(a, k) {
      CommitFollowsCall(attempts, k + 1);
      var head := AttemptEvents(a);
      var rest := UpdateFrom(attempts, k + 1).1;
      var evs := head + rest;
      forall i | 0 <= i < |evs| && evs[i] == Commit
        ensures i > 0 && evs[i - 1] == Call
      {
        if i >= |head| {
          assert evs[i] == rest[i - |head|];
          if i > |head| {
            assert evs[i - 1] == rest[i - 1 - |head|];
          }
        }
      }
    }
  }

  /** The decorated call returns a value exactly when some attempt succeeded after busy errors only. */
  lemma {:induction false} DbUpdateSucceeds(created: bool, attempts: nat -> Attempt)
    ensures DbUpdateSpec(created, attempts).0.Value? <==>
      exists j: nat | j < MaxRetries :: attempts(j).Succeeded? && BusyBefore(attempts, 0, j)
  {
    UpdateFromAttempts(attempts, 0);
    var n := AttemptsMade(attempts, 0);
    if exists j: nat | j < MaxRetries :: attempts(j).Succeeded? && BusyBefore(attempts, 0, j) {
      var j: nat :| j < MaxRetries && attempts(j).Succeeded? && BusyBefore(attempts, 0, j);
      assert j == n - 1;
    }
  }

  /** At most three calls, and the session closed once, last, exactly when the decorator made it. */
  lemma {:induction false} DbUpdateCloses(created: bool, attempts: nat -> Attempt)
    ensures CountOf(DbUpdateSpec(created, attempts).1, Call) <= MaxRetries
    ensures CountOf(DbUpdateSpec(created, attempts).1, Close) == if created then 1 else 0
    ensures created ==> DbUpdateSpec(created, attempts).1[|DbUpdateSpec(created, attempts).1| - 1] == Close
  {
    UpdateFromAttempts(attempts, 0);
    CallsCounted(attempts, 0);
    var evs0 := UpdateFrom(attempts, 0).1;
    if created {
      assert multiset(evs0 + [Close]) == multiset(evs0) + multiset{Close};
    }
  }

  /** `db_query`: one call, no retry, no commit; the session closed exactly when the wrapper made it. */
  function DbQuery(created: bool, call: Result<int, DbError>): (r: (Outcome, seq<Event>))
    ensures r.0.Value? <==> call.Ok?
    ensures (Close in r.1) <==> created
  {
    var o := if call.Ok? then Value(call.value) else Raised(call.error);
    (o, if created then [Call, Close] else [Call])
  }

  /**
   * The session a decorated call uses: the caller's, or a newSession one bound
   * into the arguments (with the corrected binding); and whether the
   * wrapper made it.
   */
  function SessionFor(args: seq<Arg>, kwargs: Kwargs, newSession: nat): (r: (nat, bool, seq<Arg>, Kwargs))
    ensures r.1 <==> ArgsDb(args, kwargs).None?
    ensures !r.1 ==> r.0 == ArgsDb(args, kwargs).value && r.2 == args && r.3 == kwargs
    ensures r.1 ==> r.0 == newSession
  {
    var found := ArgsDb(args, kwargs);
    if found.Some? then (found.value, false, args, kwargs)
    else var (a, k) := BindLeadingSession(args, kwargs, newSession); (newSession, true, a, k)
  }

  /** A caller's session is never closed by the decorator; one the decorator made always is. */
  lemma {:induction false} CallerSessionNeverClosed(args: seq<Arg>, kwargs: Kwargs, newSession: nat, attempts: nat -> Attempt)
    ensures var s := SessionFor(args, kwargs, newSession);
      var (o, evs) := DbUpdateSpec(s.1, attempts);
      CountOf(evs, Close) == (if ArgsDb(args, kwargs).Some? then 0 else 1)
  {
    DbUpdateCloses(SessionFor(args, kwargs, newSession).1, attempts);
  }

  // ---------------------------------------------------------------------
  // The ORM base class

  /** `P115StrmHelperBase.update`: None values in the payload are dropped, the rest set as attributes. */
  function UpdateAttributes(attrs: map<string, int>, payload: map<string, Option<int>>): (r: map<string, int>)
    ensures forall k | k in payload && payload[k].Some? :: k in r && r[k] == payload[k].value
    ensures forall k | k in attrs && (k !in payload || payload[k].None?) :: k in r && r[k] == attrs[k]
    ensures forall k | k in r :: k in attrs || (k in payload && payload[k].Some?)
  {
    attrs + map k | k in payload && payload[k].Some? :: payload[k].value
  }

  /** An all-None payload changes nothing, and updating twice with the same payload is the same as once. */
  lemma {:induction false} UpdateAttributesIdempotent(attrs: map<string, int>, payload: map<string, Option<int>>)
    ensures UpdateAttributes(UpdateAttributes(attrs, payload), payload) == UpdateAttributes(attrs, payload)
    ensures (forall k | k in payload :: payload[k].None?) ==> UpdateAttributes(attrs, payload) == attrs
  {
    var once := UpdateAttributes(attrs, payload);
    var twice := UpdateAttributes(once, payload);
    assert forall k | k in twice :: k in once && twice[k] == once[k];
    assert forall k | k in once :: k in twice;
    if forall k | k in payload :: payload[k].None? {
      assert forall k | k in once :: k in attrs && once[k] == attrs[k];
      assert forall k | k in attrs :: k in once;
    }
  }

  // ---------------------------------------------------------------------
  // The manager

  /** The checkpoint modes SQLite accepts. */
  const CheckpointModes: set<string> := {"PASSIVE", "FULL", "RESTART", "TRUNCATE"}

  /** `perform_checkpoint`'s outcome: skipped with a warning, refused, or the statement executed. */
  datatype Checkpoint = Skipped | InvalidMode(mode: string) | Executed(statement: string)

  /** `perform_checkpoint`: only with an engine and WAL enabled; the mode is checked case-insensitively. */
  function CheckpointFor(hasEngine: bool, walEnabled: bool, mode: string): (r: Checkpoint)
    ensures r.Skipped? <==> !hasEngine || !walEnabled
    ensures r.InvalidMode? <==> hasEngine && walEnabled && Upper(mode) !in CheckpointModes
    ensures r.Executed? ==> Upper(mode) in CheckpointModes
  {
    if !hasEngine || !walEnabled then Skipped
    else if Upper(mode) !in CheckpointModes then InvalidMode(mode)
    else Executed("PRAGMA wal_checkpoint(" + Upper(mode) + ");")
  }

  /** The mode is accepted in any case: a lower-case mode gives the same statement as its upper case. */
  lemma {:induction false} CheckpointIgnoresCase(mode: string)
    ensures CheckpointFor(true, true, mode) == Executed("PRAGMA wal_checkpoint(" + Upper(mode) + ");") ||
      CheckpointFor(true, true, mode) == InvalidMode(mode)
    ensures CheckpointFor(true, true, "passive") == Executed("PRAGMA wal_checkpoint(PASSIVE);")
  {
    assert Upper("passive") == "PASSIVE";
  }

  /** `__DBManager`: the engine, the session factory and the scoped session, as handles. */
  class Manager {
    var engine: Option<nat>
    var sessionFactory: Option<nat>
    var scopedSession: Option<nat>

    constructor ()
      ensures engine.None? && sessionFactory.None? && scopedSession.None?
    {
      engine := None;
      sessionFactory := None;
      scopedSession := None;
    }

    /** `is_initialized`: all three are set. */
    predicate IsInitialized()
      reads this
    {
      engine.Some? && sessionFactory.Some? && scopedSession.Some?
    }

    /** `init_database`: a no-op when initialised, otherwise sets all three to the new handles. */
    method InitDatabase(newEngine: nat, newFactory: nat, newScoped: nat)
      modifies this
      ensures IsInitialized()
      ensures old(IsInitialized()) ==>
        engine == old(engine) && sessionFactory == old(sessionFactory) && scopedSession == old(scopedSession)
      ensures !old(IsInitialized()) ==>
        engine == Some(newEngine) && sessionFactory == Some(newFactory) && scopedSession == Some(newScoped)
    {
      if IsInitialized() {
        return;
      }
      engine := Some(newEngine);
      sessionFactory := Some(newFactory);
      scopedSession := Some(newScoped);
    }

    /** `perform_checkpoint`. */
    method PerformCheckpoint(walEnabled: bool, mode: string) returns (r: Checkpoint)
      ensures r == CheckpointFor(engine.Some?, walEnabled, mode)
    {
      if engine.None? || !walEnabled {
        return Skipped;
      }
      var upper := Upper(mode);
      if upper !in CheckpointModes {
        return InvalidMode(mode);
      }
      return Executed("PRAGMA wal_checkpoint(" + upper + ");");
    }

    /** `close_database`: a final TRUNCATE checkpoint under WAL, then everything reset. */
    method CloseDatabase(walEnabled: bool) returns (checkpoint: Checkpoint)
      modifies this
      ensures engine.None? && sessionFactory.None? && scopedSession.None?
      ensures !IsInitialized()
      ensures checkpoint == CheckpointFor(old(engine).Some?, walEnabled, "TRUNCATE")
      ensures old(engine).Some? && walEnabled ==> checkpoint == Executed("PRAGMA wal_checkpoint(TRUNCATE);")
    {
      checkpoint := Skipped;
      if engine.Some? && walEnabled {
        checkpoint := PerformCheckpoint(walEnabled, "TRUNCATE");
        assert Upper("TRUNCATE") == "TRUNCATE";
      }
      engine := None;
      sessionFactory := None;
      scopedSession := None;
    }
  }

  /** The module-level `init_database`: initialise when needed, then insist on a scoped session. */
  method EnsureInitialized(m: Manager, newEngine: nat, newFactory: nat, newScoped: nat) returns (r: Result<nat, string>)
    modifies m
    ensures m.IsInitialized()
    ensures r.Ok? && r.value == m.scopedSession.value
  {
    m.InitDatabase(newEngine, newFactory, newScoped);
    if m.scopedSession.None? {
      return Err("RuntimeError");
    }
    return Ok(m.scopedSession.value);
  }
}
