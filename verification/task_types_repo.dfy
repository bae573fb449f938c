/** `taskTypes.repo.ts`: the user-editable list of task types. Names are trimmed and unique over
    all rows, deleted ones included (`idx_task_types_name_unique`); a task refers to its type by name. */
module TaskTypesRepo {
  import opened Wrappers
  import opened Calendar
  import opened Text
  import opened Sorting
  import opened Store

  /** The rows with `deleted_at IS NULL`, in table order. */
  function LiveTypes(s: seq<TaskTypeRow>): (r: seq<TaskTypeRow>)
    ensures forall x :: x in r <==> x in s && x.deletedAt.None?
  {
    if |s| == 0 then []
    else
      var rest := LiveTypes(s[1..]);
      assert forall x :: x in s <==> x == s[0] || x in s[1..];
      if s[0].deletedAt.None? then [s[0]] + rest else rest
  }

  predicate NameLe(a: TaskTypeRow, b: TaskTypeRow) {
    LexLe(a.name, b.name)
  }

  lemma NameLeIsTotalPreorder()
    ensures TotalPreorder(NameLe)
  {
    forall a: TaskTypeRow, b: TaskTypeRow ensures NameLe(a, b) || NameLe(b, a) {
      LexLeTotal(a.name, b.name);
    }
    forall a: TaskTypeRow, b: TaskTypeRow, c: TaskTypeRow | NameLe(a, b) && NameLe(b, c) ensures NameLe(a, c) {
      LexLeTransitive(a.name, b.name, c.name);
    }
  }

  /** `getTaskTypes`: the live types, by name ascending. */
  function GetTaskTypes(db: Db): (r: seq<TaskTypeRow>)
    ensures SortedBy(NameLe, r)
    ensures multiset(r) == multiset(LiveTypes(db.taskTypes))
  {
    NameLeIsTotalPreorder();
    SortBy(LiveTypes(db.taskTypes), NameLe)
  }

  /** The listing holds exactly the live rows, and with unique names it is strictly ordered. */
  lemma GetTaskTypesExactly(db: Db)
    requires TaskTypeNamesUnique(db.taskTypes)
    ensures forall x :: x in GetTaskTypes(db) <==> x in db.taskTypes && x.deletedAt.None?
    ensures forall i, j :: 0 <= i < j < |GetTaskTypes(db)| ==>
      LexLe(GetTaskTypes(db)[i].name, GetTaskTypes(db)[j].name) && GetTaskTypes(db)[i].name != GetTaskTypes(db)[j].name
  {
    var r := GetTaskTypes(db);
    assert forall x :: x in r <==> x in LiveTypes(db.taskTypes) by {
      forall x ensures x in r <==> x in LiveTypes(db.taskTypes) {
        assert x in r <==> multiset(r)[x] > 0;
        assert x in LiveTypes(db.taskTypes) <==> multiset(LiveTypes(db.taskTypes))[x] > 0;
      }
    }
    forall i, j | 0 <= i < j < |r| ensures r[i].name != r[j].name {
      if r[i].name == r[j].name {
        assert r[i] in db.taskTypes && r[j] in db.taskTypes;
        var a :| 0 <= a < |db.taskTypes| && db.taskTypes[a] == r[i];
        var b :| 0 <= b < |db.taskTypes| && db.taskTypes[b] == r[j];
        if a == b {
          assert r[i] == r[j];
          TwoCopies(r, i, j);
          assert multiset(LiveTypes(db.taskTypes))[r[i]] >= 2;
          LiveTypesCount(db.taskTypes, r[i]);
          OneCopy(db.taskTypes, a);
        }
      }
    }
  }

  lemma TwoCopies(s: seq<TaskTypeRow>, i: int, j: int)
    requires 0 <= i < j < |s| && s[i] == s[j]
    ensures multiset(s)[s[i]] >= 2
  {
    assert s == s[..i] + [s[i]] + s[i + 1..j] + [s[j]] + s[j + 1..];
  }

  lemma {:induction false} LiveTypesCount(s: seq<TaskTypeRow>, x: TaskTypeRow)
    ensures multiset(LiveTypes(s))[x] <= multiset(s)[x]
  {
    if |s| > 0 {
      LiveTypesCount(s[1..], x);
      assert s == [s[0]] + s[1..];
    }
  }

  /** With unique names a row occurs once. */
  lemma OneCopy(s: seq<TaskTypeRow>, a: int)
    requires TaskTypeNamesUnique(s) && 0 <= a < |s|
    ensures multiset(s)[s[a]] == 1
  {
    assert s == s[..a] + [s[a]] + s[a + 1..];
    assert s[a] !in s[..a] by {
      forall k | 0 <= k < a ensures s[..a][k] != s[a] { assert s[k].name != s[a].name; }
    }
    var after := s[a + 1..];
    assert s[a] !in after by {
      forall k | 0 <= k < |after| ensures after[k] != s[a] {
        assert after[k] == s[a + 1 + k];
        assert s[a + 1 + k].name != s[a].name;
      }
    }
    assert multiset(s[..a])[s[a]] == 0 && multiset(s[a + 1..])[s[a]] == 0;
  }

  /** Some row, deleted or not, carries the name: the unique index rejects another. */
  predicate NameTaken(s: seq<TaskTypeRow>, name: string) {
    exists i :: 0 <= i < |s| && s[i].name == name
  }

  /** `SELECT * FROM task_types WHERE name = ? AND deleted_at IS NULL LIMIT 1`. */
  function FindLiveType(s: seq<TaskTypeRow>, name: string): (r: Option<TaskTypeRow>)
    ensures r.Some? ==> r.value in s && r.value.name == name && r.value.deletedAt.None?
    ensures r.None? <==> forall i :: 0 <= i < |s| ==> s[i].name != name || s[i].deletedAt.Some?
  {
    if |s| == 0 then None
    else if s[0].name == name && s[0].deletedAt.None? then Some(s[0])
    else
      var r := FindLiveType(s[1..], name);
      assert forall i :: 1 <= i < |s| ==> s[i] == s[1..][i - 1];
      r
  }

  /** `createTaskType`: trim the name, default the colour (`??`, so only an omitted colour), insert
      unless the name is taken (`INSERT OR IGNORE`), then return the live row with the name. A name
      held only by a deleted type is neither inserted nor found. */
  function CreateTaskType(db: Db, name: string, color: Option<string>, now: Instant): (r: Result<(Db, TaskTypeRow), string>)
    ensures r.Failure? <==> NameTaken(db.taskTypes, Trim(name)) && FindLiveType(db.taskTypes, Trim(name)).None?
    ensures r.Success? ==> r.value.1.name == Trim(name) && r.value.1.deletedAt.None? && r.value.1 in r.value.0.taskTypes
    ensures r.Success? && NameTaken(db.taskTypes, Trim(name)) ==>
      r.value.0 == db.(nextId := db.nextId + 1) && r.value.1 == FindLiveType(db.taskTypes, Trim(name)).value
    ensures r.Success? && !NameTaken(db.taskTypes, Trim(name)) ==>
      && r.value.0 == db.(taskTypes := db.taskTypes + [r.value.1], nextId := db.nextId + 1)
      && r.value.1 == TaskTypeRow(db.nextId, Trim(name), color.GetOr(DefaultColor), now, now, None)
  {
    var n := Trim(name);
    var row := TaskTypeRow(db.nextId, n, color.GetOr(DefaultColor), now, now, None);
    if NameTaken(db.taskTypes, n) then
      match FindLiveType(db.taskTypes, n)
      case None => Failure("Failed to create task type")
      case Some(t) => Success((db.(nextId := db.nextId + 1), t))
    else
      var types := db.taskTypes + [row];
      FindAfterAppend(db.taskTypes, row);
      match FindLiveType(types, n)
      case None => Failure("Failed to create task type")
      case Some(t) => Success((db.(taskTypes := types, nextId := db.nextId + 1), t))
  }

  lemma FindAfterAppend(s: seq<TaskTypeRow>, row: TaskTypeRow)
    requires !NameTaken(s, row.name) && row.deletedAt.None?
    ensures FindLiveType(s + [row], row.name) == Some(row)
  {
    assert (s + [row])[|s|] == row;
    var r := FindLiveType(s + [row], row.name);
    var k :| 0 <= k < |s + [row]| && (s + [row])[k] == r.value;
    if k < |s| { assert s[k].name == row.name; }
  }

  /** Creating the same type again returns the row the first call returned and adds no row. */
  lemma CreateTaskTypeIdempotent(db: Db, name: string, color: Option<string>, color': Option<string>, now: Instant, now': Instant)
    requires CreateTaskType(db, name, color, now).Success?
    ensures var (db1, t1) := CreateTaskType(db, name, color, now).value;
      var r2 := CreateTaskType(db1, name, color', now');
      && r2.Success? && r2.value.1 == t1 && r2.value.0.taskTypes == db1.taskTypes
  {
    var (db1, t1) := CreateTaskType(db, name, color, now).value;
    var n := Trim(name);
    assert t1 in db1.taskTypes;
    assert NameTaken(db1.taskTypes, n);
    if NameTaken(db.taskTypes, n) {
      assert db1.taskTypes == db.taskTypes;
    } else {
      assert t1 == db1.taskTypes[|db.taskTypes|];
      FindAfterAppend(db.taskTypes, t1);
    }
  }

  /** Creating keeps every id below the counter, ids distinct and names unique. */
  lemma CreateTaskTypeKeepsWellFormed(db: Db, name: string, color: Option<string>, now: Instant)
    requires WellFormed(db) && CreateTaskType(db, name, color, now).Success?
    ensures WellFormed(CreateTaskType(db, name, color, now).value.0)
  {
    var r := CreateTaskType(db, name, color, now).value.0;
    RaiseBound(TaskIds(db.tasks), db.nextId, db.nextId + 1);
    RaiseBound(SubtaskIds(db.subtasks), db.nextId, db.nextId + 1);
    RaiseBound(CourseIds(db.courses), db.nextId, db.nextId + 1);
    RaiseBound(LifeCategoryIds(db.lifeCategories), db.nextId, db.nextId + 1);
    if NameTaken(db.taskTypes, Trim(name)) {
      RaiseBound(TaskTypeIds(db.taskTypes), db.nextId, db.nextId + 1);
    } else {
      AppendFreshId(TaskTypeIds(db.taskTypes), db.nextId);
      assert TaskTypeIds(r.taskTypes) == TaskTypeIds(db.taskTypes) + [db.nextId];
      forall i, j | 0 <= i < j < |r.taskTypes| ensures r.taskTypes[i].name != r.taskTypes[j].name {
        if j == |db.taskTypes| {
          assert r.taskTypes[i] == db.taskTypes[i];
        }
      }
    }
  }

  /** Some row with the id exists, so the UPDATE writes at least one row. */
  predicate HasTypeId(s: seq<TaskTypeRow>, id: Id) {
    exists i :: 0 <= i < |s| && s[i].id == id
  }

  /** The new name would clash with another row's in the unique index. */
  predicate RenameClashes(s: seq<TaskTypeRow>, id: Id, name: string) {
    HasTypeId(s, id) && exists j :: 0 <= j < |s| && s[j].id != id && s[j].name == name
  }

  /** The SET list applied to a row: the trimmed name and the colour when provided, `updated_at`. */
  function ApplyTypeUpdate(t: TaskTypeRow, name: Option<string>, color: Option<string>, now: Instant): TaskTypeRow {
    t.(name := if name.Some? then Trim(name.value) else t.name,
       color := if color.Some? then color.value else t.color,
       updatedAt := now)
  }

  /** `updateTaskType`: rename (trimmed) and recolour the rows with the id, deleted or not. A name
      another row holds violates the unique index and the statement changes nothing; an unknown id
      changes nothing without an error. */
  function UpdateTaskType(db: Db, id: Id, name: Option<string>, color: Option<string>, now: Instant): (r: Result<Db, string>)
    ensures r.Failure? <==> name.Some? && RenameClashes(db.taskTypes, id, Trim(name.value))
    ensures r.Success? ==> r.value == db.(taskTypes := r.value.taskTypes) && |r.value.taskTypes| == |db.taskTypes|
    ensures r.Success? ==> forall i :: 0 <= i < |db.taskTypes| ==>
      r.value.taskTypes[i] == (if db.taskTypes[i].id == id then ApplyTypeUpdate(db.taskTypes[i], name, color, now) else db.taskTypes[i])
  {
    if name.Some? && RenameClashes(db.taskTypes, id, Trim(name.value)) then
      Failure("UNIQUE constraint failed: task_types.name")
    else
      Success(db.(taskTypes := seq(|db.taskTypes|, i requires 0 <= i < |db.taskTypes| =>
        if db.taskTypes[i].id == id then ApplyTypeUpdate(db.taskTypes[i], name, color, now) else db.taskTypes[i])))
  }

  /** An update that succeeds keeps names unique (ids being distinct, only one row is renamed). */
  lemma UpdateTaskTypeKeepsNamesUnique(db: Db, id: Id, name: Option<string>, color: Option<string>, now: Instant)
    requires WellFormed(db) && UpdateTaskType(db, id, name, color, now).Success?
    ensures WellFormed(UpdateTaskType(db, id, name, color, now).value)
  {
    var s := db.taskTypes;
    var r := UpdateTaskType(db, id, name, color, now).value.taskTypes;
    assert TaskTypeIds(r) == TaskTypeIds(s);
    forall i, j | 0 <= i < j < |r| ensures r[i].name != r[j].name {
      assert TaskTypeIds(s)[i] != TaskTypeIds(s)[j];
      if name.Some? && s[i].id == id {
        assert s[j].id != id && HasTypeId(s, id);
      } else if name.Some? && s[j].id == id {
        assert s[i].id != id && HasTypeId(s, id);
      }
    }
  }

  /** The name of the first row with the id, deleted or not (`rows[0]?.name`). */
  function TypeNameOf(s: seq<TaskTypeRow>, id: Id): (r: Option<string>)
    ensures r.Some? ==> exists i :: 0 <= i < |s| && s[i].id == id && s[i].name == r.value
    ensures r.None? <==> !HasTypeId(s, id)
  {
    if |s| == 0 then None
    else if s[0].id == id then Some(s[0].name)
    else
      var r := TypeNameOf(s[1..], id);
      assert forall i :: 1 <= i < |s| ==> s[i] == s[1..][i - 1];
      r
  }

  /** What `deleteTaskType` does to a task: a task of the deleted type's name, when that name is
      not empty, falls back to 'Other'; `updated_at` is left alone. */
  function FallBackToOther(t: TaskRow, name: Option<string>): TaskRow {
    if name.Some? && name.value != "" && t.taskType == name.value then t.(taskType := "Other") else t
  }

  /** `deleteTaskType`: soft-delete the rows with the id (only `deleted_at` changes), then move
      every task of that name, deleted or not, to 'Other'. */
  function DeleteTaskType(db: Db, id: Id, now: Instant): (r: Db)
    ensures r == db.(taskTypes := r.taskTypes, tasks := r.tasks)
    ensures |r.taskTypes| == |db.taskTypes| && |r.tasks| == |db.tasks|
    ensures forall i :: 0 <= i < |db.taskTypes| ==>
      r.taskTypes[i] == (if db.taskTypes[i].id == id then db.taskTypes[i].(deletedAt := Some(now)) else db.taskTypes[i])
    ensures forall i :: 0 <= i < |db.tasks| ==> r.tasks[i] == FallBackToOther(db.tasks[i], TypeNameOf(db.taskTypes, id))
  {
    var name := TypeNameOf(db.taskTypes, id);
    db.(taskTypes := seq(|db.taskTypes|, i requires 0 <= i < |db.taskTypes| =>
          if db.taskTypes[i].id == id then db.taskTypes[i].(deletedAt := Some(now)) else db.taskTypes[i]),
        tasks := seq(|db.tasks|, i requires 0 <= i < |db.tasks| => FallBackToOther(db.tasks[i], name)))
  }

  /** After deleting a type it is no longer listed, and, its name being non-empty and not 'Other',
      no task keeps it; names stay unique, since the row and its name remain. */
  lemma DeleteTaskTypeEffects(db: Db, id: Id, now: Instant)
    requires WellFormed(db)
    ensures var r := DeleteTaskType(db, id, now);
      && WellFormed(r)
      && (forall x :: x in GetTaskTypes(r) ==> x.id != id)
      && (forall n :: TypeNameOf(db.taskTypes, id) == Some(n) && n != "" && n != "Other" ==>
            forall i :: 0 <= i < |r.tasks| ==> r.tasks[i].taskType != n)
  {
    var r := DeleteTaskType(db, id, now);
    GetTaskTypesExactly(r);
    assert TaskIds(r.tasks) == TaskIds(db.tasks);
    assert TaskTypeIds(r.taskTypes) == TaskTypeIds(db.taskTypes);
  }
}
