/** `courses.repo.ts`: the school courses a task may belong to. Courses are soft-deleted. */
module CoursesRepo {
  import opened Wrappers
  import opened Calendar
  import opened Sorting
  import opened Store

  /** The default target grade of a course, in percent. */
  const DefaultTargetGrade: real := 90.0

  /** The rows with `deleted_at IS NULL`, in table order: each live row as often as it is stored. */
  function LiveCourses(s: seq<CourseRow>): (r: seq<CourseRow>)
    ensures forall x :: x in r <==> x in s && x.deletedAt.None?
    ensures forall x :: multiset(r)[x] == if x.deletedAt.None? then multiset(s)[x] else 0
  {
    if |s| == 0 then []
    else
      var rest := LiveCourses(s[1..]);
      assert s == [s[0]] + s[1..];
      assert forall x :: x in s <==> x == s[0] || x in s[1..];
      if s[0].deletedAt.None? then [s[0]] + rest else rest
  }

  predicate NewerOrSame(a: CourseRow, b: CourseRow) {
    a.createdAt >= b.createdAt
  }

  /** `getAllCourses`: the live courses, newest first (ties in no particular order). */
  function GetAllCourses(db: Db): (r: seq<CourseRow>)
    ensures forall i, j :: 0 <= i < j < |r| ==> r[i].createdAt >= r[j].createdAt
    ensures multiset(r) == multiset(LiveCourses(db.courses))
  {
    SortBy(LiveCourses(db.courses), NewerOrSame)
  }

  /** The listing holds exactly the live courses. */
  lemma GetAllCoursesExactly(db: Db)
    ensures forall x :: x in GetAllCourses(db) <==> x in db.courses && x.deletedAt.None?
  {
    var r := GetAllCourses(db);
    forall x ensures x in r <==> x in LiveCourses(db.courses) {
      assert x in r <==> multiset(r)[x] > 0;
      assert x in LiveCourses(db.courses) <==> multiset(LiveCourses(db.courses))[x] > 0;
    }
  }

  /** `getCourseById`: the first live course with the id, or `null`. */
  function GetCourseById(db: Db, id: Id): (r: Option<CourseRow>)
    ensures r.Some? ==> r.value in db.courses && r.value.id == id && r.value.deletedAt.None?
    ensures r.None? <==> forall i :: 0 <= i < |db.courses| ==> db.courses[i].id != id || db.courses[i].deletedAt.Some?
  {
    LiveCourse(db.courses, Some(id))
  }

  /** With unique ids, a live course is what `getCourseById` returns for its id. */
  lemma GetCourseByIdFindsLiveRow(courses: seq<CourseRow>, k: int)
    requires 0 <= k < |courses| && courses[k].deletedAt.None?
    requires forall i, j :: 0 <= i < j < |courses| ==> courses[i].id != courses[j].id
    ensures LiveCourse(courses, Some(courses[k].id)) == Some(courses[k])
  {
    var r := LiveCourse(courses, Some(courses[k].id));
    var i :| 0 <= i < |courses| && courses[i] == r.value;
  }

  datatype CreateCourseInput = CreateCourseInput(
    code: string,
    name: string,
    term: string,
    targetGradeDefault: Option<real>,
    color: Option<string>)

  /** The row `createCourse` inserts: the target defaults when omitted (`??`), the colour when
      omitted or empty (`||`). */
  function NewCourseRow(input: CreateCourseInput, id: Id, now: Instant): CourseRow {
    CourseRow(id, input.code, input.name, input.term, input.targetGradeDefault.GetOr(DefaultTargetGrade),
      OrElse(input.color, DefaultColor), now, now, None)
  }

  /** `createCourse`: insert under a fresh id, then read back the live course with that id. Since
      the inserted row is live, the read-back always finds a row. */
  function CreateCourse(db: Db, input: CreateCourseInput, now: Instant): (r: Result<(Db, CourseRow), string>)
    ensures r.Success?
    ensures r.value.0 == db.(courses := db.courses + [NewCourseRow(input, db.nextId, now)], nextId := db.nextId + 1)
    ensures r.value.1.id == db.nextId && r.value.1.deletedAt.None?
  {
    var row := NewCourseRow(input, db.nextId, now);
    var courses := db.courses + [row];
    assert courses[|db.courses|] == row;
    match GetCourseById(db.(courses := courses), row.id)
    case None => Failure("Failed to create course")
    case Some(c) => Success((db.(courses := courses, nextId := db.nextId + 1), c))
  }

  /** On a well-formed store the course returned is the one inserted, with its defaults, and the
      store stays well-formed. */
  lemma CreateCourseDefaults(db: Db, input: CreateCourseInput, now: Instant)
    requires WellFormed(db)
    ensures var (db', c) := CreateCourse(db, input, now).value;
      && WellFormed(db') && c == db'.courses[|db.courses|]
      && c.targetGradeDefault == (if input.targetGradeDefault.Some? then input.targetGradeDefault.value else DefaultTargetGrade)
      && c.color == (if input.color.Some? && input.color.value != "" then input.color.value else DefaultColor)
      && c.createdAt == c.updatedAt == now
  {
    var row := NewCourseRow(input, db.nextId, now);
    var courses := db.courses + [row];
    AppendFreshId(CourseIds(db.courses), db.nextId);
    assert CourseIds(courses) == CourseIds(db.courses) + [db.nextId];
    GetCourseByIdFindsLiveRow(courses, |db.courses|);
    RaiseBound(TaskIds(db.tasks), db.nextId, db.nextId + 1);
    RaiseBound(SubtaskIds(db.subtasks), db.nextId, db.nextId + 1);
    RaiseBound(LifeCategoryIds(db.lifeCategories), db.nextId, db.nextId + 1);
    RaiseBound(TaskTypeIds(db.taskTypes), db.nextId, db.nextId + 1);
  }

  /** `UpdateCourseInput`; `None` is an omitted field. The colour cannot be updated. */
  datatype UpdateCourseInput = UpdateCourseInput(
    id: Id,
    code: Option<string>,
    name: Option<string>,
    term: Option<string>,
    targetGradeDefault: Option<real>)

  /** The SET list applied to one row: the provided fields and `updated_at`. */
  function ApplyCourseUpdate(c: CourseRow, input: UpdateCourseInput, now: Instant): (r: CourseRow)
    ensures r.id == c.id && r.color == c.color && r.createdAt == c.createdAt && r.deletedAt == c.deletedAt
    ensures r.updatedAt == now
    ensures r.code == (if input.code.Some? then input.code.value else c.code)
    ensures r.name == (if input.name.Some? then input.name.value else c.name)
    ensures r.term == (if input.term.Some? then input.term.value else c.term)
    ensures r.targetGradeDefault == (if input.targetGradeDefault.Some? then input.targetGradeDefault.value else c.targetGradeDefault)
  {
    c.(code := if input.code.Some? then input.code.value else c.code,
       name := if input.name.Some? then input.name.value else c.name,
       term := if input.term.Some? then input.term.value else c.term,
       targetGradeDefault := if input.targetGradeDefault.Some? then input.targetGradeDefault.value else c.targetGradeDefault,
       updatedAt := now)
  }

  /** `updateCourse`: write the rows with the id, deleted or not, then read back the live course.
      The result pairs the store after the write with the outcome: a deleted or unknown course is
      an error, but a deleted one has been written all the same. */
  function UpdateCourse(db: Db, input: UpdateCourseInput, now: Instant): (r: (Db, Result<CourseRow, string>))
    ensures r.0 == db.(courses := r.0.courses) && |r.0.courses| == |db.courses|
    ensures forall i :: 0 <= i < |db.courses| ==>
      r.0.courses[i] == (if db.courses[i].id == input.id then ApplyCourseUpdate(db.courses[i], input, now) else db.courses[i])
    ensures r.1.Failure? <==> GetCourseById(db, input.id).None?
    ensures r.1.Success? ==> r.1.value == ApplyCourseUpdate(GetCourseById(db, input.id).value, input, now)
  {
    var db' := db.(courses := UpdatedCourses(db.courses, input, now));
    ReadBackAfterUpdate(db.courses, input, now);
    match GetCourseById(db', input.id)
    case None => (db', Failure("Failed to update course"))
    case Some(c) => (db', Success(c))
  }

  /** `UPDATE courses SET ... WHERE id = ?` over the whole table. */
  function UpdatedCourses(s: seq<CourseRow>, input: UpdateCourseInput, now: Instant): (r: seq<CourseRow>)
    ensures |r| == |s|
    ensures forall i :: 0 <= i < |s| ==> r[i] == if s[i].id == input.id then ApplyCourseUpdate(s[i], input, now) else s[i]
  {
    seq(|s|, i requires 0 <= i < |s| => if s[i].id == input.id then ApplyCourseUpdate(s[i], input, now) else s[i])
  }

  lemma {:induction false} ReadBackAfterUpdate(s: seq<CourseRow>, input: UpdateCourseInput, now: Instant)
    ensures LiveCourse(UpdatedCourses(s, input, now), Some(input.id)).None? <==> LiveCourse(s, Some(input.id)).None?
    ensures LiveCourse(s, Some(input.id)).Some? ==>
      LiveCourse(UpdatedCourses(s, input, now), Some(input.id)) == Some(ApplyCourseUpdate(LiveCourse(s, Some(input.id)).value, input, now))
  {
    if |s| > 0 {
      assert UpdatedCourses(s, input, now)[1..] == UpdatedCourses(s[1..], input, now);
      ReadBackAfterUpdate(s[1..], input, now);
    }
  }

  /** What `deleteCourse` does to a task of the course: unlinked, and kept in the school workspace. */
  function Unlinked(t: TaskRow, id: Id): TaskRow {
    if t.courseId == Some(id) then t.(courseId := None, workspace := "school") else t
  }

  /** `deleteCourse`: unlink the course's tasks (deleted or not), then soft-delete the course. */
  function DeleteCourse(db: Db, id: Id, now: Instant): (r: Db)
    ensures r == db.(tasks := r.tasks, courses := r.courses)
    ensures |r.tasks| == |db.tasks| && |r.courses| == |db.courses|
    ensures forall i :: 0 <= i < |db.tasks| ==> r.tasks[i] == Unlinked(db.tasks[i], id)
    ensures forall i :: 0 <= i < |db.courses| ==>
      r.courses[i] == (if db.courses[i].id == id then db.courses[i].(deletedAt := Some(now)) else db.courses[i])
  {
    db.(tasks := seq(|db.tasks|, i requires 0 <= i < |db.tasks| => Unlinked(db.tasks[i], id)),
        courses := seq(|db.courses|, i requires 0 <= i < |db.courses| =>
          if db.courses[i].id == id then db.courses[i].(deletedAt := Some(now)) else db.courses[i]))
  }

  /** After deleting a course it is neither found nor listed, no task refers to it, its former
      tasks are in the school workspace, and every other task is untouched. */
  lemma DeleteCourseEffects(db: Db, id: Id, now: Instant)
    ensures var r := DeleteCourse(db, id, now);
      && GetCourseById(r, id).None?
      && (forall x :: x in GetAllCourses(r) ==> x.id != id)
      && (forall i :: 0 <= i < |r.tasks| ==> r.tasks[i].courseId != Some(id))
      && (forall i :: 0 <= i < |db.tasks| && db.tasks[i].courseId == Some(id) ==> r.tasks[i].workspace == "school")
      && (forall i :: 0 <= i < |db.tasks| && db.tasks[i].courseId != Some(id) ==> r.tasks[i] == db.tasks[i])
  {
    GetAllCoursesExactly(DeleteCourse(db, id, now));
  }

  /** Course rows are never removed, so every course reference that held before still holds:
      deleting a course never breaks the foreign key. */
  lemma DeleteCourseKeepsReferences(db: Db, id: Id, now: Instant, c: Option<Id>)
    requires CourseRefValid(db.courses, c)
    ensures CourseRefValid(DeleteCourse(db, id, now).courses, c)
  {
    if c.Some? {
      var i :| 0 <= i < |db.courses| && db.courses[i].id == c.value;
      assert DeleteCourse(db, id, now).courses[i].id == c.value;
    }
  }
}
