/** The SQLite tables the repositories read and write. Each table is a sequence of rows in
    rowid order; ids come from a counter, so an id handed out is never in use. */
module Store {
  import opened Wrappers
  import opened Calendar
  import opened Rules

  /** A row id. The repository draws random UUIDs; the model draws the next counter value. */
  type Id = nat

  /** The colour every table and every view falls back to. */
  const DefaultColor: string := "#6B7280"

  /** A row of `tasks`. Timestamps are instants; a `None` stands for SQL `NULL`.
      The recurrence columns (`isRecurringTemplate` .. `isOccurrenceOverride`) are read and
      written by the reconciler; a task created through the repository leaves them at their defaults. */
  datatype TaskRow = TaskRow(
    id: Id,
    title: string,
    description: Option<string>,
    dueAt: Option<Instant>,
    taskType: string,
    courseId: Option<Id>,
    lifeCategoryId: Option<Id>,
    workspace: string,
    status: string,
    priority: Option<string>,
    effortMinutes: Option<int>,
    tags: Option<string>,
    source: string,
    createdAt: Instant,
    updatedAt: Instant,
    deletedAt: Option<Instant>,
    isRecurringTemplate: bool,
    recurrenceRuleJson: Option<RuleJson>,
    recurringSeriesId: Option<Id>,
    parentTemplateId: Option<Id>,
    occurrenceDate: Option<Day>,
    isOccurrenceOverride: bool)

  /** A row of `subtasks`; these are deleted physically, so there is no `deletedAt`. */
  datatype SubtaskRow = SubtaskRow(
    id: Id,
    taskId: Id,
    text: string,
    done: bool,
    orderIndex: int,
    createdAt: Instant,
    updatedAt: Instant)

  datatype CourseRow = CourseRow(
    id: Id,
    code: string,
    name: string,
    term: string,
    targetGradeDefault: real,
    color: string,
    createdAt: Instant,
    updatedAt: Instant,
    deletedAt: Option<Instant>)

  datatype LifeCategoryRow = LifeCategoryRow(
    id: Id,
    name: string,
    color: string,
    createdAt: Instant,
    updatedAt: Instant,
    deletedAt: Option<Instant>)

  /** A row of `task_types`; `name` carries a UNIQUE index over all rows, deleted or not. */
  datatype TaskTypeRow = TaskTypeRow(
    id: Id,
    name: string,
    color: string,
    createdAt: Instant,
    updatedAt: Instant,
    deletedAt: Option<Instant>)

  /** A row of `task_grades`, keyed by the task it grades. */
  datatype GradeRow = GradeRow(
    taskId: Id,
    gradePercent: Option<real>,
    weightPercent: Option<real>,
    isGraded: bool,
    counts: bool)

  datatype Db = Db(
    tasks: seq<TaskRow>,
    subtasks: seq<SubtaskRow>,
    courses: seq<CourseRow>,
    lifeCategories: seq<LifeCategoryRow>,
    taskTypes: seq<TaskTypeRow>,
    grades: seq<GradeRow>,
    nextId: nat)

  /** A JavaScript value where a number is expected: `null`, `undefined`, a finite number,
      or `NaN`/`Infinity`. */
  datatype JsNumber = Null | Undefined | Finite(value: real) | NonFinite

  /** The `grade` object attached to a task view. */
  datatype Grade = Grade(gradePercent: JsNumber, weightPercent: JsNumber, isGraded: bool, counts: bool)

  /** A task as the screens receive it (`TaskWithCourse`): the row plus its joined course,
      life category and grade, each absent when the join found nothing. */
  datatype TaskView = TaskView(
    task: TaskRow,
    course: Option<CourseRow>,
    lifeCategory: Option<LifeCategoryRow>,
    grade: Option<Grade>)

  /** `s || null` for an optional text: the empty string becomes `NULL` too. */
  function OrNull(s: Option<string>): (r: Option<string>)
    ensures r.Some? <==> s.Some? && s.value != ""
    ensures r.Some? ==> r == s
  {
    if s.Some? && s.value != "" then s else None
  }

  /** `s || fallback` for an optional text. */
  function OrElse(s: Option<string>, fallback: string): (r: string)
    ensures s.Some? && s.value != "" ==> r == s.value
    ensures s.None? || s.value == "" ==> r == fallback
  {
    if s.Some? && s.value != "" then s.value else fallback
  }

  /** `x || null` for an optional number: 0 becomes `NULL` too. */
  function NumberOrNull(x: Option<int>): (r: Option<int>)
    ensures r.Some? <==> x.Some? && x.value != 0
    ensures r.Some? ==> r == x
  {
    if x.Some? && x.value != 0 then x else None
  }

  /** `tasks.course_id REFERENCES courses(id)`: a course id must name a course row, deleted or
      not; `NULL` always passes. */
  predicate CourseRefValid(courses: seq<CourseRow>, c: Option<Id>) {
    c.None? || exists i :: 0 <= i < |courses| && courses[i].id == c.value
  }

  /** The first live course with the id: `getCourseById`, and the
      `LEFT JOIN courses c ON t.course_id = c.id AND c.deleted_at IS NULL` of `getAllTasks`. */
  function LiveCourse(courses: seq<CourseRow>, id: Option<Id>): (r: Option<CourseRow>)
    ensures r.Some? ==> r.value in courses && id == Some(r.value.id) && r.value.deletedAt.None?
    ensures r.None? ==> forall i :: 0 <= i < |courses| ==> id != Some(courses[i].id) || courses[i].deletedAt.Some?
  {
    if |courses| == 0 then None
    else if id == Some(courses[0].id) && courses[0].deletedAt.None? then Some(courses[0])
    else
      var r := LiveCourse(courses[1..], id);
      assert forall i :: 1 <= i < |courses| ==> courses[i] == courses[1..][i - 1];
      r
  }

  /** `LEFT JOIN life_categories lc ON t.life_category_id = lc.id AND lc.deleted_at IS NULL`. */
  function LiveCategory(cats: seq<LifeCategoryRow>, id: Option<Id>): (r: Option<LifeCategoryRow>)
    ensures r.Some? ==> r.value in cats && id == Some(r.value.id) && r.value.deletedAt.None?
    ensures r.None? ==> forall i :: 0 <= i < |cats| ==> id != Some(cats[i].id) || cats[i].deletedAt.Some?
  {
    if |cats| == 0 then None
    else if id == Some(cats[0].id) && cats[0].deletedAt.None? then Some(cats[0])
    else
      var r := LiveCategory(cats[1..], id);
      assert forall i :: 1 <= i < |cats| ==> cats[i] == cats[1..][i - 1];
      r
  }

  /** Every id in `ids` is below `bound`, and no id occurs twice. */
  predicate IdsBelowAndDistinct(ids: seq<Id>, bound: nat) {
    && (forall i :: 0 <= i < |ids| ==> ids[i] < bound)
    && (forall i, j :: 0 <= i < j < |ids| ==> ids[i] != ids[j])
  }

  function TaskIds(s: seq<TaskRow>): (r: seq<Id>)
    ensures |r| == |s| && forall i :: 0 <= i < |s| ==> r[i] == s[i].id
  {
    seq(|s|, i requires 0 <= i < |s| => s[i].id)
  }

  function SubtaskIds(s: seq<SubtaskRow>): (r: seq<Id>)
    ensures |r| == |s| && forall i :: 0 <= i < |s| ==> r[i] == s[i].id
  {
    seq(|s|, i requires 0 <= i < |s| => s[i].id)
  }

  function CourseIds(s: seq<CourseRow>): (r: seq<Id>)
    ensures |r| == |s| && forall i :: 0 <= i < |s| ==> r[i] == s[i].id
  {
    seq(|s|, i requires 0 <= i < |s| => s[i].id)
  }

  function LifeCategoryIds(s: seq<LifeCategoryRow>): (r: seq<Id>)
    ensures |r| == |s| && forall i :: 0 <= i < |s| ==> r[i] == s[i].id
  {
    seq(|s|, i requires 0 <= i < |s| => s[i].id)
  }

  function TaskTypeIds(s: seq<TaskTypeRow>): (r: seq<Id>)
    ensures |r| == |s| && forall i :: 0 <= i < |s| ==> r[i] == s[i].id
  {
    seq(|s|, i requires 0 <= i < |s| => s[i].id)
  }

  /** No two task types share a name (`idx_task_types_name_unique`). */
  predicate TaskTypeNamesUnique(s: seq<TaskTypeRow>) {
    forall i, j :: 0 <= i < j < |s| ==> s[i].name != s[j].name
  }

  /** The primary keys hold, every id is below the counter, and task type names are unique. */
  predicate WellFormed(db: Db) {
    && IdsBelowAndDistinct(TaskIds(db.tasks), db.nextId)
    && IdsBelowAndDistinct(SubtaskIds(db.subtasks), db.nextId)
    && IdsBelowAndDistinct(CourseIds(db.courses), db.nextId)
    && IdsBelowAndDistinct(LifeCategoryIds(db.lifeCategories), db.nextId)
    && IdsBelowAndDistinct(TaskTypeIds(db.taskTypes), db.nextId)
    && TaskTypeNamesUnique(db.taskTypes)
  }

  /** Appending a fresh id keeps ids below the (incremented) counter and distinct. */
  lemma AppendFreshId(ids: seq<Id>, bound: nat)
    requires IdsBelowAndDistinct(ids, bound)
    ensures IdsBelowAndDistinct(ids + [bound], bound + 1)
  {
  }

  /** Raising the counter keeps every id below it. */
  lemma RaiseBound(ids: seq<Id>, bound: nat, bound': nat)
    requires IdsBelowAndDistinct(ids, bound) && bound <= bound'
    ensures IdsBelowAndDistinct(ids, bound')
  {
  }
}
