/** `tasks.repo.ts`: creating, updating, soft-deleting and reading tasks. */
module TasksRepo {
  import opened Wrappers
  import opened Calendar
  import opened Store

  /** `getTaskById`: the first non-deleted row with the id, if any. */
  function GetTaskById(tasks: seq<TaskRow>, id: Id): (r: Option<TaskRow>)
    ensures r.Some? ==> r.value in tasks && r.value.id == id && r.value.deletedAt.None?
    ensures r.None? <==> forall i :: 0 <= i < |tasks| ==> tasks[i].id != id || tasks[i].deletedAt.Some?
  {
    if |tasks| == 0 then None
    else if tasks[0].id == id && tasks[0].deletedAt.None? then Some(tasks[0])
    else
      var r := GetTaskById(tasks[1..], id);
      assert forall i :: 1 <= i < |tasks| ==> tasks[i] == tasks[1..][i - 1];
      r
  }

  /** With unique ids, a live row is exactly what `getTaskById` returns for its id. */
  lemma GetTaskByIdFindsLiveRow(tasks: seq<TaskRow>, k: int)
    requires 0 <= k < |tasks| && tasks[k].deletedAt.None?
    requires forall i, j :: 0 <= i < j < |tasks| ==> tasks[i].id != tasks[j].id
    ensures GetTaskById(tasks, tasks[k].id) == Some(tasks[k])
  {
    var r := GetTaskById(tasks, tasks[k].id);
    var i :| 0 <= i < |tasks| && tasks[i] == r.value;
  }

  /** `CreateTaskInput`; `None` is an omitted field. */
  datatype CreateTaskInput = CreateTaskInput(
    title: string,
    description: Option<string>,
    dueAt: Option<Instant>,
    taskType: Option<string>,
    courseId: Option<Id>,
    lifeCategoryId: Option<Id>,
    workspace: Option<string>,
    status: Option<string>,
    priority: Option<string>,
    effortMinutes: Option<int>,
    tags: Option<string>)

  /** The row `createTask` inserts; the recurrence columns take their defaults. */
  function NewTaskRow(input: CreateTaskInput, id: Id, now: Instant): TaskRow {
    TaskRow(
      id := id,
      title := input.title,
      description := OrNull(input.description),
      dueAt := input.dueAt,
      taskType := OrElse(input.taskType, "Other"),
      courseId := input.courseId,
      lifeCategoryId := input.lifeCategoryId,
      workspace := OrElse(input.workspace, if input.courseId.Some? then "school" else "life"),
      status := OrElse(input.status, "todo"),
      priority := OrNull(input.priority),
      effortMinutes := NumberOrNull(input.effortMinutes),
      tags := OrNull(input.tags),
      source := "manual",
      createdAt := now,
      updatedAt := now,
      deletedAt := None,
      isRecurringTemplate := false,
      recurrenceRuleJson := None,
      recurringSeriesId := None,
      parentTemplateId := None,
      occurrenceDate := None,
      isOccurrenceOverride := false)
  }

  /** `createTask`: insert a row under a fresh id, then read it back by id. The insert fails
      when the course id names no course. */
  function CreateTask(db: Db, input: CreateTaskInput, now: Instant): (r: Result<(Db, TaskRow), string>)
    ensures !CourseRefValid(db.courses, input.courseId) ==> r == Failure("FOREIGN KEY constraint failed")
    ensures r.Success? ==> r.value.0 == db.(tasks := db.tasks + [NewTaskRow(input, db.nextId, now)], nextId := db.nextId + 1)
    ensures r.Success? ==> r.value.1.id == db.nextId && r.value.1.deletedAt.None?
  {
    if !CourseRefValid(db.courses, input.courseId) then Failure("FOREIGN KEY constraint failed")
    else
      var row := NewTaskRow(input, db.nextId, now);
      var db' := db.(tasks := db.tasks + [row], nextId := db.nextId + 1);
      match GetTaskById(db'.tasks, row.id)
      case None => Failure("Failed to create task")
      case Some(t) => Success((db', t))
  }

  /** On a well-formed store, with a course id that names a course, `createTask` succeeds and returns the inserted row with its defaults:
      type 'Other', status 'todo', source 'manual', equal timestamps, and a workspace taken from the
      input, else 'school' for a task with a course, else 'life'. The store stays well-formed. */
  lemma CreateTaskDefaults(db: Db, input: CreateTaskInput, now: Instant)
    requires WellFormed(db) && CourseRefValid(db.courses, input.courseId)
    ensures var r := CreateTask(db, input, now);
      && r.Success? && WellFormed(r.value.0)
      && r.value.1 == r.value.0.tasks[|db.tasks|]
      && GetTaskById(r.value.0.tasks, r.value.1.id) == Some(r.value.1)
      && r.value.1.taskType == (if input.taskType.Some? && input.taskType.value != "" then input.taskType.value else "Other")
      && r.value.1.status == (if input.status.Some? && input.status.value != "" then input.status.value else "todo")
      && r.value.1.source == "manual" && r.value.1.createdAt == r.value.1.updatedAt == now
      && r.value.1.workspace ==
           (if input.workspace.Some? && input.workspace.value != "" then input.workspace.value
            else if input.courseId.Some? then "school" else "life")
      && r.value.1.effortMinutes == (if input.effortMinutes == Some(0) then None else input.effortMinutes)
      && !r.value.1.isRecurringTemplate && r.value.1.parentTemplateId.None?
  {
    var row := NewTaskRow(input, db.nextId, now);
    var tasks := db.tasks + [row];
    AppendFreshId(TaskIds(db.tasks), db.nextId);
    assert TaskIds(tasks) == TaskIds(db.tasks) + [db.nextId];
    GetTaskByIdFindsLiveRow(tasks, |db.tasks|);
    var db' := db.(tasks := tasks, nextId := db.nextId + 1);
    RaiseBound(SubtaskIds(db.subtasks), db.nextId, db.nextId + 1);
    RaiseBound(CourseIds(db.courses), db.nextId, db.nextId + 1);
    RaiseBound(LifeCategoryIds(db.lifeCategories), db.nextId, db.nextId + 1);
    RaiseBound(TaskTypeIds(db.taskTypes), db.nextId, db.nextId + 1);
  }

  /** `UpdateTaskInput`. `None` is an omitted field. For a column that may be cleared, `Some(None)`
      is a provided empty value (`''`), which the code turns into `NULL`. */
  datatype UpdateTaskInput = UpdateTaskInput(
    id: Id,
    title: Option<string>,
    description: Option<string>,
    dueAt: Option<Option<Instant>>,
    taskType: Option<string>,
    courseId: Option<Option<Id>>,
    lifeCategoryId: Option<Option<Id>>,
    workspace: Option<string>,
    status: Option<string>,
    priority: Option<string>,
    effortMinutes: Option<int>,
    tags: Option<string>)

  /** The eleven values the UPDATE statement writes (besides `updated_at`). */
  datatype TaskFields = TaskFields(
    title: string,
    description: Option<string>,
    dueAt: Option<Instant>,
    taskType: string,
    courseId: Option<Id>,
    lifeCategoryId: Option<Id>,
    workspace: string,
    status: string,
    priority: Option<string>,
    effortMinutes: Option<int>,
    tags: Option<string>)

  /** The value merge: a provided field wins (falsy nullable values becoming `NULL`, an empty
      type becoming 'Other'); an omitted field keeps the current value. `workspace` is passed in,
      because a provided empty workspace cannot be written. */
  function MergeFields(cur: TaskRow, input: UpdateTaskInput, workspace: string): TaskFields {
    TaskFields(
      title := if input.title.Some? then input.title.value else cur.title,
      description := if input.description.Some? then OrNull(input.description) else cur.description,
      dueAt := if input.dueAt.Some? then input.dueAt.value else cur.dueAt,
      taskType := if input.taskType.Some? then OrElse(input.taskType, "Other") else cur.taskType,
      courseId := if input.courseId.Some? then input.courseId.value else cur.courseId,
      lifeCategoryId := if input.lifeCategoryId.Some? then input.lifeCategoryId.value else cur.lifeCategoryId,
      workspace := workspace,
      status := if input.status.Some? then input.status.value else cur.status,
      priority := if input.priority.Some? then OrNull(input.priority) else cur.priority,
      effortMinutes := if input.effortMinutes.Some? then NumberOrNull(input.effortMinutes) else cur.effortMinutes,
      tags := if input.tags.Some? then OrNull(input.tags) else cur.tags)
  }

  /** `UPDATE tasks SET ... WHERE id = ?` applied to one row. */
  function WriteFields(row: TaskRow, f: TaskFields, now: Instant): TaskRow {
    row.(title := f.title, description := f.description, dueAt := f.dueAt, taskType := f.taskType,
         courseId := f.courseId, lifeCategoryId := f.lifeCategoryId, workspace := f.workspace,
         status := f.status, priority := f.priority, effortMinutes := f.effortMinutes, tags := f.tags,
         updatedAt := now)
  }

  /** `UPDATE tasks SET ... WHERE id = ?` over the whole table. */
  function WriteRows(tasks: seq<TaskRow>, id: Id, f: TaskFields, now: Instant): (r: seq<TaskRow>)
    ensures |r| == |tasks|
    ensures forall i :: 0 <= i < |tasks| ==> r[i] == if tasks[i].id == id then WriteFields(tasks[i], f, now) else tasks[i]
  {
    seq(|tasks|, i requires 0 <= i < |tasks| => if tasks[i].id == id then WriteFields(tasks[i], f, now) else tasks[i])
  }

  /** Reading back after the write finds the same row as before, now holding the written values. */
  lemma {:induction false} GetAfterWrite(tasks: seq<TaskRow>, id: Id, f: TaskFields, now: Instant)
    requires GetTaskById(tasks, id).Some?
    ensures GetTaskById(WriteRows(tasks, id, f, now), id) == Some(WriteFields(GetTaskById(tasks, id).value, f, now))
  {
    if !(tasks[0].id == id && tasks[0].deletedAt.None?) {
      assert WriteRows(tasks, id, f, now)[1..] == WriteRows(tasks[1..], id, f, now);
      GetAfterWrite(tasks[1..], id, f, now);
    }
  }

  /** `updateTask`: merge the input over the current row, write it, read it back. The write fails
      on an empty workspace (`NOT NULL`) and on a course id that names no course (the foreign key,
      checked because `course_id` is always in the SET list). */
  function UpdateTask(db: Db, input: UpdateTaskInput, now: Instant): (r: Result<(Db, TaskRow), string>)
    ensures r.Failure? <==>
      (|| GetTaskById(db.tasks, input.id).None? || input.workspace == Some("")
       || !CourseRefValid(db.courses, MergeFields(GetTaskById(db.tasks, input.id).value, input, "").courseId))
    ensures r.Success? ==>
      && |r.value.0.tasks| == |db.tasks| && r.value.0 == db.(tasks := r.value.0.tasks)
      && (forall i :: 0 <= i < |db.tasks| && db.tasks[i].id != input.id ==> r.value.0.tasks[i] == db.tasks[i])
      && GetTaskById(r.value.0.tasks, input.id) == Some(r.value.1)
  {
    match GetTaskById(db.tasks, input.id)
    case None => Failure("Task not found")
    case Some(cur) =>
      var workspace := if input.workspace.Some? then OrNull(input.workspace) else Some(cur.workspace);
      if workspace.None? then Failure("Failed to update task: NOT NULL constraint failed: tasks.workspace")
      else
        var f := MergeFields(cur, input, workspace.value);
        if !CourseRefValid(db.courses, f.courseId) then Failure("Failed to update task: FOREIGN KEY constraint failed")
        else
          var tasks := WriteRows(db.tasks, input.id, f, now);
          GetAfterWrite(db.tasks, input.id, f, now);
          match GetTaskById(tasks, input.id)
          case None => Failure("Failed to update task")
          case Some(t) => Success((db.(tasks := tasks), t))
  }

  /** An update of a live task that provides no empty workspace and leaves a valid course id
      stores and returns the current row with the merged values and a new `updated_at`. */
  lemma UpdateTaskWrites(db: Db, input: UpdateTaskInput, now: Instant)
    requires GetTaskById(db.tasks, input.id).Some? && input.workspace != Some("")
    requires CourseRefValid(db.courses, MergeFields(GetTaskById(db.tasks, input.id).value, input, "").courseId)
    ensures var cur := GetTaskById(db.tasks, input.id).value;
      var r := UpdateTask(db, input, now);
      && r.Success?
      && r.value.1 == WriteFields(cur, MergeFields(cur, input, if input.workspace.Some? then input.workspace.value else cur.workspace), now)
  {
    var cur := GetTaskById(db.tasks, input.id).value;
    var f := MergeFields(cur, input, if input.workspace.Some? then input.workspace.value else cur.workspace);
    GetAfterWrite(db.tasks, input.id, f, now);
  }

  /** Field by field: an omitted field keeps its value; a provided one is written, with falsy
      nullable values (an empty string, an effort of 0) stored as `NULL`, an empty type stored as
      'Other', and title and status stored verbatim. Apart from these eleven columns only
      `updated_at` changes. */
  lemma UpdateTaskMerge(cur: TaskRow, input: UpdateTaskInput, workspace: string, now: Instant)
    ensures var t := WriteFields(cur, MergeFields(cur, input, workspace), now);
      && (input.title.None? ==> t.title == cur.title) && (input.title.Some? ==> t.title == input.title.value)
      && (input.status.None? ==> t.status == cur.status) && (input.status.Some? ==> t.status == input.status.value)
      && (input.description.None? ==> t.description == cur.description)
      && (input.description == Some("") ==> t.description.None?)
      && (input.dueAt.None? ==> t.dueAt == cur.dueAt) && (input.dueAt == Some(None) ==> t.dueAt.None?)
      && (input.taskType.None? ==> t.taskType == cur.taskType) && (input.taskType == Some("") ==> t.taskType == "Other")
      && (input.courseId.None? ==> t.courseId == cur.courseId) && (input.courseId == Some(None) ==> t.courseId.None?)
      && (input.lifeCategoryId.None? ==> t.lifeCategoryId == cur.lifeCategoryId)
      && (input.priority.None? ==> t.priority == cur.priority) && (input.priority == Some("") ==> t.priority.None?)
      && (input.effortMinutes.None? ==> t.effortMinutes == cur.effortMinutes)
      && (input.effortMinutes == Some(0) ==> t.effortMinutes.None?)
      && (input.tags.None? ==> t.tags == cur.tags) && (input.tags == Some("") ==> t.tags.None?)
      && t.updatedAt == now
      && t.(title := cur.title, description := cur.description, dueAt := cur.dueAt, taskType := cur.taskType,
            courseId := cur.courseId, lifeCategoryId := cur.lifeCategoryId, workspace := cur.workspace,
            status := cur.status, priority := cur.priority, effortMinutes := cur.effortMinutes, tags := cur.tags,
            updatedAt := cur.updatedAt) == cur
  {
  }

  /** An update that provides nothing rewrites the current values and only moves `updated_at`. */
  lemma EmptyUpdateOnlyTouchesTimestamp(cur: TaskRow, id: Id, now: Instant)
    ensures var input := UpdateTaskInput(id, None, None, None, None, None, None, None, None, None, None, None);
      WriteFields(cur, MergeFields(cur, input, cur.workspace), now) == cur.(updatedAt := now)
  {
  }

  /** `deleteTask`: set `deleted_at` on the rows with the id; the rows stay. */
  function DeleteTask(db: Db, id: Id, now: Instant): (r: Db)
    ensures |r.tasks| == |db.tasks| && r == db.(tasks := r.tasks)
    ensures forall i :: 0 <= i < |db.tasks| ==>
      r.tasks[i] == (if db.tasks[i].id == id then db.tasks[i].(deletedAt := Some(now)) else db.tasks[i])
  {
    db.(tasks := seq(|db.tasks|, i requires 0 <= i < |db.tasks| =>
      if db.tasks[i].id == id then db.tasks[i].(deletedAt := Some(now)) else db.tasks[i]))
  }

  /** After `deleteTask` the task is no longer found, every row is still there with only
      `deleted_at` changed, and other tasks are still found as before. */
  lemma DeleteThenGet(db: Db, id: Id, other: Id, now: Instant)
    requires other != id
    ensures var r := DeleteTask(db, id, now);
      && GetTaskById(r.tasks, id).None?
      && (forall i :: 0 <= i < |db.tasks| ==> r.tasks[i].(deletedAt := db.tasks[i].deletedAt) == db.tasks[i])
      && GetTaskById(r.tasks, other) == GetTaskById(db.tasks, other)
  {
    var r := DeleteTask(db, id, now);
    forall i | 0 <= i < |db.tasks| ensures r.tasks[i].(deletedAt := db.tasks[i].deletedAt) == db.tasks[i] {
      if db.tasks[i].id == id {
        assert r.tasks[i] == db.tasks[i].(deletedAt := Some(now));
      } else {
        assert r.tasks[i] == db.tasks[i];
      }
    }
    assert forall i :: 0 <= i < |r.tasks| ==> r.tasks[i].id != id || r.tasks[i].deletedAt.Some?;
    DeleteKeepsOthers(db.tasks, r.tasks, id, other);
  }

  lemma {:induction false} DeleteKeepsOthers(s: seq<TaskRow>, t: seq<TaskRow>, id: Id, other: Id)
    requires other != id && |s| == |t|
    requires forall i :: 0 <= i < |s| ==> t[i] == s[i] || (s[i].id == id && t[i].id == id)
    ensures GetTaskById(t, other) == GetTaskById(s, other)
  {
    if |s| > 0 {
      DeleteKeepsOthers(s[1..], t[1..], id, other);
    }
  }

  // ---------------------------------------------------------------- getAllTasks

  /** `TaskFilters` without `dueRange` and `tags`; an empty list or empty string is no filter. */
  datatype TaskFilters = TaskFilters(
    courseIds: seq<Id>,
    types: seq<string>,
    status: Option<string>,
    workspace: Option<string>,
    dueBefore: Option<Instant>,
    dueAfter: Option<Instant>,
    source: Option<string>,
    includeCompleted: bool)

  /** A text filter is applied only when it is a non-empty string. */
  predicate Active(f: Option<string>) {
    f.Some? && f.value != ""
  }

  /** The WHERE clause: not deleted, not done unless completed tasks are included, and every
      given filter holds. A `NULL` column never passes an `IN` or comparison test. */
  predicate PassesFilters(t: TaskRow, f: TaskFilters) {
    && t.deletedAt.None?
    && (f.includeCompleted || t.status != "done")
    && (|f.courseIds| == 0 || (t.courseId.Some? && t.courseId.value in f.courseIds))
    && (|f.types| == 0 || t.taskType in f.types)
    && (!Active(f.status) || t.status == f.status.value)
    && (!Active(f.workspace) || t.workspace == f.workspace.value)
    && (f.dueBefore.None? || (t.dueAt.Some? && t.dueAt.value <= f.dueBefore.value))
    && (f.dueAfter.None? || (t.dueAt.Some? && t.dueAt.value >= f.dueAfter.value))
    && (!Active(f.source) || t.source == f.source.value)
  }

  /** One row of the joined SELECT. */
  datatype JoinedRow = JoinedRow(task: TaskRow, course: Option<CourseRow>, lifeCategory: Option<LifeCategoryRow>, grade: Option<GradeRow>)

  /** The grade rows of task `id`, in table order. */
  function GradesOf(grades: seq<GradeRow>, id: Id): (r: seq<GradeRow>)
    ensures forall k :: 0 <= k < |r| ==> r[k] in grades && r[k].taskId == id
    ensures forall i :: 0 <= i < |grades| && grades[i].taskId == id ==> grades[i] in r
  {
    if |grades| == 0 then []
    else
      var rest := GradesOf(grades[1..], id);
      assert forall i :: 1 <= i < |grades| ==> grades[i] == grades[1..][i - 1];
      if grades[0].taskId == id then [grades[0]] + rest else rest
  }

  /** `LEFT JOIN task_grades tg ON tg.task_id = t.id`: one row per grade, or one row without. */
  function JoinTask(db: Db, t: TaskRow): (r: seq<JoinedRow>)
    ensures |r| > 0
    ensures forall k :: 0 <= k < |r| ==> r[k].task == t
  {
    var c := LiveCourse(db.courses, t.courseId);
    var lc := LiveCategory(db.lifeCategories, t.lifeCategoryId);
    var gs := GradesOf(db.grades, t.id);
    if |gs| == 0 then [JoinedRow(t, c, lc, None)]
    else seq(|gs|, k requires 0 <= k < |gs| => JoinedRow(t, c, lc, Some(gs[k])))
  }

  /** A row the join can produce for its task: the live course and category it references,
      and one of its grades, or none when it has no grade. */
  predicate JoinedFor(db: Db, row: JoinedRow) {
    && row.course == LiveCourse(db.courses, row.task.courseId)
    && row.lifeCategory == LiveCategory(db.lifeCategories, row.task.lifeCategoryId)
    && (row.grade.Some? ==> row.grade.value in db.grades && row.grade.value.taskId == row.task.id)
    && (row.grade.None? ==> forall i :: 0 <= i < |db.grades| ==> db.grades[i].taskId != row.task.id)
  }

  lemma JoinTaskRows(db: Db, t: TaskRow)
    ensures forall k :: 0 <= k < |JoinTask(db, t)| ==> JoinedFor(db, JoinTask(db, t)[k])
  {
    var gs := GradesOf(db.grades, t.id);
    assert forall i :: 0 <= i < |db.grades| && db.grades[i].taskId == t.id ==> db.grades[i] in gs;
  }

  /** The filtered, joined rows of `tasks`, in table order. */
  function JoinAll(db: Db, tasks: seq<TaskRow>, f: TaskFilters): (r: seq<JoinedRow>)
    ensures forall k :: 0 <= k < |r| ==> r[k].task in tasks && PassesFilters(r[k].task, f) && JoinedFor(db, r[k])
    ensures forall i :: 0 <= i < |tasks| && PassesFilters(tasks[i], f) ==> exists k :: 0 <= k < |r| && r[k].task == tasks[i]
    decreases |tasks|
  {
    if |tasks| == 0 then []
    else
      var here := if PassesFilters(tasks[0], f) then JoinTask(db, tasks[0]) else [];
      var rest := JoinAll(db, tasks[1..], f);
      JoinAllStep(db, tasks, f, here, rest);
      here + rest
  }

  /** The first task's rows in front of the rest's keep both promises of `JoinAll`. */
  lemma JoinAllStep(db: Db, tasks: seq<TaskRow>, f: TaskFilters, here: seq<JoinedRow>, rest: seq<JoinedRow>)
    requires |tasks| > 0
    requires here == if PassesFilters(tasks[0], f) then JoinTask(db, tasks[0]) else []
    requires forall k :: 0 <= k < |rest| ==> rest[k].task in tasks[1..] && PassesFilters(rest[k].task, f) && JoinedFor(db, rest[k])
    requires forall i :: 0 <= i < |tasks[1..]| && PassesFilters(tasks[1..][i], f) ==>
      exists k :: 0 <= k < |rest| && rest[k].task == tasks[1..][i]
    ensures var r := here + rest;
      && (forall k :: 0 <= k < |r| ==> r[k].task in tasks && PassesFilters(r[k].task, f) && JoinedFor(db, r[k]))
      && (forall i :: 0 <= i < |tasks| && PassesFilters(tasks[i], f) ==> exists k :: 0 <= k < |r| && r[k].task == tasks[i])
  {
    JoinTaskRows(db, tasks[0]);
    assert forall i :: 1 <= i < |tasks| ==> tasks[i] == tasks[1..][i - 1];
    assert forall k :: 0 <= k < |rest| ==> (here + rest)[|here| + k] == rest[k];
    if PassesFilters(tasks[0], f) {
      assert (here + rest)[0].task == tasks[0];
    }
  }

  /** The task ids of a list of joined rows. */
  function RowIds(rows: seq<JoinedRow>): set<Id> {
    set i | 0 <= i < |rows| :: rows[i].task.id
  }

  /** The first row of `rows` for task `id`. */
  function FirstWithId(rows: seq<JoinedRow>, id: Id): Option<JoinedRow> {
    if |rows| == 0 then None
    else if rows[0].task.id == id then Some(rows[0])
    else FirstWithId(rows[1..], id)
  }

  lemma RowIdsCons(rows: seq<JoinedRow>)
    requires |rows| > 0
    ensures RowIds(rows) == {rows[0].task.id} + RowIds(rows[1..])
  {
    assert forall i :: 1 <= i < |rows| ==> rows[i] == rows[1..][i - 1];
    forall id | id in RowIds(rows)
      ensures id in {rows[0].task.id} + RowIds(rows[1..])
    {
      var i :| 0 <= i < |rows| && rows[i].task.id == id;
      if i > 0 {
        assert rows[1..][i - 1].task.id == id;
      }
    }
  }

  /** The grouping loop: keep the first row of each task id not yet in `seen`, in order. */
  function Dedup(rows: seq<JoinedRow>, seen: set<Id>): (r: seq<JoinedRow>)
    ensures forall k :: 0 <= k < |r| ==> r[k] in rows && r[k].task.id !in seen
    ensures forall k, l :: 0 <= k < l < |r| ==> r[k].task.id != r[l].task.id
    ensures RowIds(r) == RowIds(rows) - seen
    ensures forall k :: 0 <= k < |r| ==> FirstWithId(rows, r[k].task.id) == Some(r[k])
    decreases |rows|
  {
    if |rows| == 0 then []
    else
      RowIdsCons(rows);
      if rows[0].task.id in seen then
        Dedup(rows[1..], seen)
      else
        var rest := Dedup(rows[1..], seen + {rows[0].task.id});
        var r := [rows[0]] + rest;
        assert forall k :: 1 <= k < |r| ==> r[k] == rest[k - 1];
        RowIdsCons(r);
        assert r[1..] == rest;
        r
  }

  /** How a joined row is presented: the colours fall back to the default, numbers are read as numbers. */
  function View(row: JoinedRow): TaskView {
    TaskView(
      row.task,
      if row.course.Some? then Some(row.course.value.(color := OrElse(Some(row.course.value.color), DefaultColor))) else None,
      if row.lifeCategory.Some? then Some(row.lifeCategory.value.(color := OrElse(Some(row.lifeCategory.value.color), DefaultColor))) else None,
      if row.grade.Some? then
        var g := row.grade.value;
        Some(Grade(
          if g.gradePercent.Some? then Finite(g.gradePercent.value) else Null,
          if g.weightPercent.Some? then Finite(g.weightPercent.value) else Null,
          g.isGraded, g.counts))
      else None)
  }

  function Views(rows: seq<JoinedRow>): (r: seq<TaskView>)
    ensures |r| == |rows| && forall k :: 0 <= k < |rows| ==> r[k] == View(rows[k])
  {
    seq(|rows|, k requires 0 <= k < |rows| => View(rows[k]))
  }

  /** `getAllTasks(filters)`, with the rows in table order rather than sorted. */
  function GetAllTasks(db: Db, f: TaskFilters): (r: seq<TaskView>)
    ensures forall k :: 0 <= k < |r| ==> r[k].task in db.tasks && PassesFilters(r[k].task, f)
    ensures forall k, l :: 0 <= k < l < |r| ==> r[k].task.id != r[l].task.id
  {
    var rows := Dedup(JoinAll(db, db.tasks, f), {});
    Views(rows)
  }

  /** The result never holds a deleted task, nor a done one unless completed tasks are asked for,
      and the four list and equality filters act as a conjunction. */
  lemma GetAllTasksFilters(db: Db, f: TaskFilters, k: int)
    requires 0 <= k < |GetAllTasks(db, f)|
    ensures var t := GetAllTasks(db, f)[k].task;
      && t.deletedAt.None?
      && (!f.includeCompleted ==> t.status != "done")
      && (|f.courseIds| > 0 ==> t.courseId.Some? && t.courseId.value in f.courseIds)
      && (|f.types| > 0 ==> t.taskType in f.types)
      && (Active(f.status) ==> t.status == f.status.value)
      && (Active(f.workspace) ==> t.workspace == f.workspace.value)
  {
  }

  /** Every task that passes the filters appears once, under its id. */
  lemma GetAllTasksComplete(db: Db, f: TaskFilters, t: TaskRow)
    requires t in db.tasks && PassesFilters(t, f)
    ensures exists k :: 0 <= k < |GetAllTasks(db, f)| && GetAllTasks(db, f)[k].task.id == t.id
  {
    var joined := JoinAll(db, db.tasks, f);
    var i :| 0 <= i < |db.tasks| && db.tasks[i] == t;
    var j :| 0 <= j < |joined| && joined[j].task == t;
    assert t.id in RowIds(joined);
    var rows := Dedup(joined, {});
    assert t.id in RowIds(rows);
    var k :| 0 <= k < |rows| && rows[k].task.id == t.id;
    assert GetAllTasks(db, f)[k] == View(rows[k]);
  }

  /** The joined parts of each view: the course is the live course the task references (with the
      default colour when the stored one is empty), the life category likewise, and there is a
      grade exactly when the task has a grade row. */
  lemma GetAllTasksJoins(db: Db, f: TaskFilters, k: int)
    requires 0 <= k < |GetAllTasks(db, f)|
    ensures var v := GetAllTasks(db, f)[k];
      && (v.course.Some? <==> LiveCourse(db.courses, v.task.courseId).Some?)
      && (v.course.Some? ==>
            (v.course.value.id == LiveCourse(db.courses, v.task.courseId).value.id
             && v.course.value.color == OrElse(Some(LiveCourse(db.courses, v.task.courseId).value.color), DefaultColor)))
      && (v.lifeCategory.Some? <==> LiveCategory(db.lifeCategories, v.task.lifeCategoryId).Some?)
      && (v.grade.None? <==> forall i :: 0 <= i < |db.grades| ==> db.grades[i].taskId != v.task.id)
  {
    var joined := JoinAll(db, db.tasks, f);
    var rows := Dedup(joined, {});
    assert rows[k] in joined;
    var v := GetAllTasks(db, f)[k];
    assert v == View(rows[k]);
    if rows[k].grade.Some? {
      var gi :| 0 <= gi < |db.grades| && db.grades[gi] == rows[k].grade.value;
      assert db.grades[gi].taskId == v.task.id;
    }
  }

  /** The grouping keeps, for each task id, the first joined row with that id. */
  lemma GetAllTasksFirstRowWins(db: Db, f: TaskFilters, k: int)
    requires 0 <= k < |GetAllTasks(db, f)|
    ensures var v := GetAllTasks(db, f)[k];
      exists row :: FirstWithId(JoinAll(db, db.tasks, f), v.task.id) == Some(row) && v == View(row)
  {
    var rows := Dedup(JoinAll(db, db.tasks, f), {});
    assert GetAllTasks(db, f)[k] == View(rows[k]);
  }
}
