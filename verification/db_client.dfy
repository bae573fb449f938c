/** `client.ts`: recognising a locked database, the retry policy around a statement, and the
    loop that brings the schema up to date. Statements and migrations are not executed: an attempt
    is an outcome drawn from an oracle, and a migration is the record that it ran. */
module DbClient {
  import opened Wrappers
  import opened Text

  /** A thrown JavaScript value: `null`/`undefined`, or a value with an optional `message`
      property and its `String(...)` form. */
  datatype ErrValue = Nullish | Thrown(message: Option<string>, shown: string)

  /** `String(err?.message ?? err ?? '')`. */
  function MessageOf(e: ErrValue): (msg: string)
    ensures e.Nullish? ==> msg == ""
    ensures e.Thrown? ==> msg == (if e.message.Some? then e.message.value else e.shown)
  {
    match e
    case Nullish => ""
    case Thrown(m, s) => m.GetOr(s)
  }

  const LockedText: string := "database is locked"
  const BusyText: string := "sqlite_busy"

  /** `p` occurs in `msg` at index `i` once `msg` is lower-cased. */
  predicate MentionsAt(msg: string, p: string, i: int) {
    0 <= i && i + |p| <= |msg| && ToLower(msg[i..i + |p|]) == p
  }

  /** Searching the lower-cased message is searching the message ignoring case. */
  lemma LowerContains(msg: string, p: string)
    ensures Contains(ToLower(msg), p) <==> exists i :: MentionsAt(msg, p, i)
  {
    forall i | 0 <= i && i + |p| <= |msg| ensures OccursAt(ToLower(msg), p, i) <==> MentionsAt(msg, p, i) {
      ToLowerSlice(msg, i, i + |p|);
    }
  }

  /** `isDbLockedError`, on the message. */
  predicate IsDbLockedError(msg: string) {
    Contains(ToLower(msg), LockedText) || Contains(ToLower(msg), BusyText)
  }

  /** A message is a lock error exactly when it mentions a locked database or `SQLITE_BUSY`, in
      any letter case. */
  lemma IsDbLockedErrorMeaning(msg: string)
    ensures IsDbLockedError(msg) <==> (exists i :: MentionsAt(msg, LockedText, i)) || (exists i :: MentionsAt(msg, BusyText, i))
  {
    LowerContains(msg, LockedText);
    LowerContains(msg, BusyText);
  }

  /** Lower-casing first does not change where a text is mentioned. */
  lemma MentionsAtLower(msg: string, p: string, i: int)
    ensures MentionsAt(ToLower(msg), p, i) <==> MentionsAt(msg, p, i)
  {
    if 0 <= i && i + |p| <= |msg| {
      ToLowerSlice(msg, i, i + |p|);
      ToLowerIdempotent(msg[i..i + |p|]);
    }
  }

  /** Letter case does not matter. */
  lemma LockedIgnoresCase(msg: string)
    ensures IsDbLockedError(ToLower(msg)) == IsDbLockedError(msg)
  {
    var l := ToLower(msg);
    IsDbLockedErrorMeaning(msg);
    IsDbLockedErrorMeaning(l);
    if IsDbLockedError(l) {
      var p := if exists i :: MentionsAt(l, LockedText, i) then LockedText else BusyText;
      var i :| MentionsAt(l, p, i);
      MentionsAtLower(msg, p, i);
    }
    if IsDbLockedError(msg) {
      var p := if exists i :: MentionsAt(msg, LockedText, i) then LockedText else BusyText;
      var i :| MentionsAt(msg, p, i);
      MentionsAtLower(msg, p, i);
    }
  }

  lemma MentionsInContext(a: string, msg: string, z: string, p: string, i: int)
    requires MentionsAt(msg, p, i)
    ensures MentionsAt(a + msg + z, p, |a| + i)
  {
    var whole := a + msg + z;
    assert whole[|a| + i..|a| + i + |p|] == msg[i..i + |p|];
  }

  /** A message that is a lock error stays one whatever text surrounds it. */
  lemma LockedInContext(a: string, msg: string, z: string)
    requires IsDbLockedError(msg)
    ensures IsDbLockedError(a + msg + z)
  {
    IsDbLockedErrorMeaning(msg);
    IsDbLockedErrorMeaning(a + msg + z);
    if exists i :: MentionsAt(msg, LockedText, i) {
      var i :| MentionsAt(msg, LockedText, i);
      MentionsInContext(a, msg, z, LockedText, i);
    } else {
      var i :| MentionsAt(msg, BusyText, i);
      MentionsInContext(a, msg, z, BusyText, i);
    }
  }

  /** The upper-case spelling SQLite uses is recognised. */
  lemma BusyCodeIsLocked()
    ensures IsDbLockedError("SQLITE_BUSY")
  {
    assert MentionsAt("SQLITE_BUSY", BusyText, 0);
    IsDbLockedErrorMeaning("SQLITE_BUSY");
  }

  /** The outcome of one `database.execute` attempt. */
  datatype Outcome<T> = Ok(value: T) | Threw(err: ErrValue)

  /** What `executeWithRetry` settles to, with the number of attempts made: the first result,
      or the last error caught (`None` when no attempt was made and `lastErr` is `undefined`). */
  datatype RetryResult<T> = Returned(value: T, attempts: nat) | Rethrown(err: Option<ErrValue>, attempts: nat)

  /** The default of `options.retries`. */
  const DefaultRetries: int := 8

  predicate IsLockFailure<T>(o: Outcome<T>) {
    o.Threw? && IsDbLockedError(MessageOf(o.err))
  }

  /** The policy from attempt `i` on, as a recursion: a result is returned at once; an error ends
      the run when it is not a lock error or when `i` is the last attempt, and is retried otherwise. */
  function RetryFrom<T>(attempt: nat -> Outcome<T>, retries: int, i: nat): (r: RetryResult<T>)
    requires i <= retries
    decreases retries - i
    ensures i < r.attempts <= retries + 1
    ensures forall k :: i <= k < r.attempts - 1 ==> IsLockFailure(attempt(k))
    ensures r.Returned? <==> attempt(r.attempts - 1).Ok?
    ensures r.Returned? ==> r.value == attempt(r.attempts - 1).value
    ensures r.Rethrown? ==> (r.err == Some(attempt(r.attempts - 1).err)
      && (!IsLockFailure(attempt(r.attempts - 1)) || r.attempts == retries + 1))
  {
    match attempt(i)
    case Ok(v) => Returned(v, i + 1)
    case Threw(e) =>
      if !IsDbLockedError(MessageOf(e)) || i == retries then Rethrown(Some(e), i + 1)
      else RetryFrom(attempt, retries, i + 1)
  }

  /** The policy over the whole run, with `retries` defaulted when omitted. */
  function Retry<T>(attempt: nat -> Outcome<T>, retries: Option<int>): (r: RetryResult<T>)
    ensures var n := retries.GetOr(DefaultRetries);
      && r.attempts <= (if n < 0 then 0 else n + 1)
      && (r.attempts == 0 <==> n < 0)
      && (r.attempts == 0 ==> r == Rethrown(None, 0))
  {
    var n := retries.GetOr(DefaultRetries);
    if n < 0 then Rethrown(None, 0) else RetryFrom(attempt, n, 0)
  }

  /** `executeWithRetry`: its counted loop of attempts, with the back-off delay left out. */
  method ExecuteWithRetry<T>(attempt: nat -> Outcome<T>, retries: Option<int>) returns (r: RetryResult<T>)
    ensures r == Retry(attempt, retries)
  {
    var n := retries.GetOr(DefaultRetries);
    var lastErr: Option<ErrValue> := None;
    var i := 0;
    while i <= n
      invariant 0 <= i && (n >= 0 ==> i <= n)
      invariant n >= 0 ==> RetryFrom(attempt, n, i) == Retry(attempt, retries)
      invariant n < 0 ==> i == 0 && lastErr == None
      decreases n - i
    {
      var o := attempt(i);
      if o.Ok? {
        return Returned(o.value, i + 1);
      }
      lastErr := Some(o.err);
      if !IsDbLockedError(MessageOf(o.err)) || i == n {
        return Rethrown(lastErr, i + 1);
      }
      i := i + 1;
    }
    r := Rethrown(lastErr, 0);
  }

  /** With the default of 8 retries: a success on some attempt is returned with no further
      attempt; a first error that is not a lock error is rethrown after that one attempt; and when
      every attempt hits a locked database the ninth attempt's error is thrown. */
  lemma DefaultRetryPolicy<T>(attempt: nat -> Outcome<T>)
    ensures attempt(0).Ok? ==> Retry(attempt, None) == Returned(attempt(0).value, 1)
    ensures attempt(0).Threw? && !IsLockFailure(attempt(0)) ==> Retry(attempt, None) == Rethrown(Some(attempt(0).err), 1)
    ensures (forall k: nat :: k < 9 ==> IsLockFailure(attempt(k))) ==>
      Retry(attempt, None) == Rethrown(Some(attempt(8).err), 9)
  {
    var r := Retry(attempt, None);
    if forall k: nat :: k < 9 ==> IsLockFailure(attempt(k)) {
      assert IsLockFailure(attempt(r.attempts - 1));
    }
  }

  /** A run ends in success exactly when some attempt within the budget succeeds and every
      attempt before it hit a lock; it is then that attempt's value. */
  lemma RetrySucceedsExactly<T>(attempt: nat -> Outcome<T>, retries: int, j: nat)
    requires j <= retries
    requires attempt(j).Ok? && forall k :: 0 <= k < j ==> IsLockFailure(attempt(k))
    ensures Retry(attempt, Some(retries)) == Returned(attempt(j).value, j + 1)
  {
  }

  /** The number of migrations `runMigrations` knows. */
  const MigrationCount: nat := 6

  /** The `schema_version` rows, in insertion order, and the indices of the migrations run. */
  datatype MigrationRun = MigrationRun(versions: seq<nat>, applied: seq<nat>)

  /** `SELECT MAX(version) FROM schema_version`, `NULL` on an empty table. */
  function MaxVersion(rows: seq<nat>): (r: Option<nat>)
    ensures r.None? <==> |rows| == 0
    ensures r.Some? ==> r.value in rows && forall v :: v in rows ==> v <= r.value
  {
    if |rows| == 0 then None
    else
      var rest := MaxVersion(rows[1..]);
      assert forall v :: v in rows ==> v == rows[0] || v in rows[1..];
      if rest.None? || rest.value < rows[0] then Some(rows[0]) else rest
  }

  /** `result[0]?.version ?? 0`. */
  function CurrentVersion(rows: seq<nat>): (v: nat)
    ensures forall w :: w in rows ==> w <= v
    ensures |rows| > 0 ==> v in rows
    ensures |rows| == 0 ==> v == 0
  {
    MaxVersion(rows).GetOr(0)
  }

  /** The migrations a run from index `from` has to apply: those whose version is not recorded,
      in index order. */
  function Pending(versions: seq<nat>, from: nat): (r: seq<nat>)
    decreases MigrationCount - from
    ensures forall m :: m in r <==> from <= m < MigrationCount && m + 1 !in versions
    ensures forall k, l :: 0 <= k < l < |r| ==> r[k] < r[l]
  {
    if from >= MigrationCount then []
    else
      var rest := Pending(versions, from + 1);
      assert forall k :: 0 <= k < |rest| ==> rest[k] in rest;
      if from + 1 !in versions then [from] + rest else rest
  }

  /** Recording a version at or below `from` does not change what is pending from there. */
  lemma {:induction false} PendingAfterRecord(versions: seq<nat>, v: nat, from: nat)
    requires v <= from
    decreases MigrationCount - from
    ensures Pending(versions + [v], from) == Pending(versions, from)
  {
    if from < MigrationCount {
      PendingAfterRecord(versions, v, from + 1);
      assert from + 1 in versions + [v] <==> from + 1 in versions;
    }
  }

  /** The loop from index `i`: migration `i` runs, and version `i + 1` is recorded, only when
      that version is not recorded yet (`INSERT OR IGNORE` then always adds it). */
  function MigrateFrom(run: MigrationRun, i: nat): (r: MigrationRun)
    decreases MigrationCount - i
    ensures r.applied == run.applied + Pending(run.versions, i)
    ensures forall v :: v in r.versions <==> v in run.versions || i < v <= MigrationCount
  {
    if i >= MigrationCount then
      assert run.applied + [] == run.applied;
      run
    else if i + 1 !in run.versions then
      var next := MigrationRun(run.versions + [i + 1], run.applied + [i]);
      PendingAfterRecord(run.versions, i + 1, i + 1);
      var r := MigrateFrom(next, i + 1);
      assert run.applied + [i] + Pending(run.versions, i + 1) == run.applied + ([i] + Pending(run.versions, i + 1));
      r
    else MigrateFrom(run, i + 1)
  }

  /** `runMigrations`: from the recorded maximum version onwards. */
  function RunMigrations(versions: seq<nat>): (r: MigrationRun)
    ensures r.applied == Pending(versions, CurrentVersion(versions))
    ensures forall v :: v in r.versions <==> v in versions || CurrentVersion(versions) < v <= MigrationCount
  {
    MigrateFrom(MigrationRun(versions, []), CurrentVersion(versions))
  }

  /** From an empty schema every migration runs once, in order, and versions 1 to 6 are recorded. */
  lemma FreshDatabaseRunsAll()
    ensures RunMigrations([]).applied == [0, 1, 2, 3, 4, 5]
    ensures forall v :: v in RunMigrations([]).versions <==> 1 <= v <= MigrationCount
  {
    assert Pending([], 5) == [5];
    assert Pending([], 4) == [4, 5];
    assert Pending([], 3) == [3, 4, 5];
    assert Pending([], 2) == [2, 3, 4, 5];
    assert Pending([], 1) == [1, 2, 3, 4, 5];
    assert Pending([], 0) == [0, 1, 2, 3, 4, 5];
  }

  /** A second run right after the first runs nothing and records nothing new. */
  lemma RunMigrationsIdempotent(versions: seq<nat>)
    ensures var r := RunMigrations(versions);
      && RunMigrations(r.versions).applied == []
      && (forall v :: v in RunMigrations(r.versions).versions <==> v in r.versions)
  {
    var r := RunMigrations(versions);
    var c := CurrentVersion(versions);
    var c2 := CurrentVersion(r.versions);
    assert c <= c2 by {
      if |versions| > 0 {
        assert c in r.versions;
      }
    }
  }

  /** A missing version below the recorded maximum is never filled in: with only version 2
      recorded, migration 1 (index 0) does not run and version 1 stays unrecorded. */
  lemma GapBelowMaximumStays()
    ensures 0 !in RunMigrations([2]).applied && 1 !in RunMigrations([2]).versions
  {
    assert CurrentVersion([2]) == 2;
  }
}
