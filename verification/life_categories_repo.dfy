/** `lifeCategories.repo.ts`: the categories of the life workspace. Names are trimmed but need not
    be unique; categories are soft-deleted. */
module LifeCategoriesRepo {
  import opened Wrappers
  import opened Calendar
  import opened Text
  import opened Sorting
  import opened Store

  /** The rows with `deleted_at IS NULL`, in table order: each live row as often as it is stored. */
  function LiveCategories(s: seq<LifeCategoryRow>): (r: seq<LifeCategoryRow>)
    ensures forall x :: x in r <==> x in s && x.deletedAt.None?
    ensures forall x :: multiset(r)[x] == if x.deletedAt.None? then multiset(s)[x] else 0
  {
    if |s| == 0 then []
    else
      var rest := LiveCategories(s[1..]);
      assert s == [s[0]] + s[1..];
      assert forall x :: x in s <==> x == s[0] || x in s[1..];
      if s[0].deletedAt.None? then [s[0]] + rest else rest
  }

  predicate NewerOrSame(a: LifeCategoryRow, b: LifeCategoryRow) {
    a.createdAt >= b.createdAt
  }

  /** `getLifeCategories`: the live categories, newest first (ties in no particular order). */
  function GetLifeCategories(db: Db): (r: seq<LifeCategoryRow>)
    ensures forall i, j :: 0 <= i < j < |r| ==> r[i].createdAt >= r[j].createdAt
    ensures multiset(r) == multiset(LiveCategories(db.lifeCategories))
  {
    SortBy(LiveCategories(db.lifeCategories), NewerOrSame)
  }

  /** The listing holds exactly the live categories. */
  lemma GetLifeCategoriesExactly(db: Db)
    ensures forall x :: x in GetLifeCategories(db) <==> x in db.lifeCategories && x.deletedAt.None?
  {
    var r := GetLifeCategories(db);
    forall x ensures x in r <==> x in LiveCategories(db.lifeCategories) {
      assert x in r <==> multiset(r)[x] > 0;
      assert x in LiveCategories(db.lifeCategories) <==> multiset(LiveCategories(db.lifeCategories))[x] > 0;
    }
  }

  /** `SELECT * FROM life_categories WHERE id = ?`, first row, deleted or not. */
  function FindCategory(s: seq<LifeCategoryRow>, id: Id): (r: Option<LifeCategoryRow>)
    ensures r.Some? ==> r.value in s && r.value.id == id
    ensures r.None? <==> forall i :: 0 <= i < |s| ==> s[i].id != id
  {
    if |s| == 0 then None
    else if s[0].id == id then Some(s[0])
    else
      var r := FindCategory(s[1..], id);
      assert forall i :: 1 <= i < |s| ==> s[i] == s[1..][i - 1];
      r
  }

  /** `createLifeCategory`: insert the trimmed name and the colour (defaulted only when omitted,
      `??`) under a fresh id, then read the row back by id. Equal names are allowed. */
  function CreateLifeCategory(db: Db, name: string, color: Option<string>, now: Instant): (r: Result<(Db, LifeCategoryRow), string>)
    ensures r.Success?
    ensures r.value.0 == db.(lifeCategories := r.value.0.lifeCategories, nextId := db.nextId + 1)
    ensures |r.value.0.lifeCategories| == |db.lifeCategories| + 1
      && r.value.0.lifeCategories[..|db.lifeCategories|] == db.lifeCategories
    ensures r.value.1.id == db.nextId && r.value.1 in r.value.0.lifeCategories
  {
    var row := LifeCategoryRow(db.nextId, Trim(name), color.GetOr(DefaultColor), now, now, None);
    var cats := db.lifeCategories + [row];
    assert cats[|db.lifeCategories|] == row;
    assert cats[..|db.lifeCategories|] == db.lifeCategories;
    match FindCategory(cats, row.id)
    case None => Failure("Failed to create category")
    case Some(c) => Success((db.(lifeCategories := cats, nextId := db.nextId + 1), c))
  }

  /** On a well-formed store the category returned is the row inserted: live, trimmed name, the
      colour given or the default, equal timestamps. The store stays well-formed. */
  lemma CreateLifeCategoryRow(db: Db, name: string, color: Option<string>, now: Instant)
    requires WellFormed(db)
    ensures var (db', c) := CreateLifeCategory(db, name, color, now).value;
      && WellFormed(db') && c == db'.lifeCategories[|db.lifeCategories|]
      && c == LifeCategoryRow(db.nextId, Trim(name), if color.Some? then color.value else DefaultColor, now, now, None)
  {
    var row := LifeCategoryRow(db.nextId, Trim(name), color.GetOr(DefaultColor), now, now, None);
    FreshCategoryId(db.lifeCategories, db.nextId);
    FindAppended(db.lifeCategories, row);
    AppendCategoryKeepsWellFormed(db, row);
    var db' := db.(lifeCategories := db.lifeCategories + [row], nextId := db.nextId + 1);
    assert CreateLifeCategory(db, name, color, now) == Success((db', row));
    assert db'.lifeCategories[|db.lifeCategories|] == row;
  }

  /** Every id of a well-formed table lies below the counter, so the counter is no row's id. */
  lemma FreshCategoryId(s: seq<LifeCategoryRow>, bound: nat)
    requires IdsBelowAndDistinct(LifeCategoryIds(s), bound)
    ensures forall i :: 0 <= i < |s| ==> s[i].id != bound
  {
    assert forall i :: 0 <= i < |s| ==> s[i].id == LifeCategoryIds(s)[i];
  }

  /** Appending a category under the counter and bumping the counter keeps the store well-formed. */
  lemma AppendCategoryKeepsWellFormed(db: Db, row: LifeCategoryRow)
    requires WellFormed(db) && row.id == db.nextId
    ensures WellFormed(db.(lifeCategories := db.lifeCategories + [row], nextId := db.nextId + 1))
  {
    var cats := db.lifeCategories + [row];
    AppendFreshId(LifeCategoryIds(db.lifeCategories), db.nextId);
    assert LifeCategoryIds(cats) == LifeCategoryIds(db.lifeCategories) + [db.nextId];
    RaiseBound(TaskIds(db.tasks), db.nextId, db.nextId + 1);
    RaiseBound(SubtaskIds(db.subtasks), db.nextId, db.nextId + 1);
    RaiseBound(CourseIds(db.courses), db.nextId, db.nextId + 1);
    RaiseBound(TaskTypeIds(db.taskTypes), db.nextId, db.nextId + 1);
  }

  /** A row appended under an id no earlier row has is the one found for that id. */
  lemma {:induction false} FindAppended(s: seq<LifeCategoryRow>, row: LifeCategoryRow)
    requires forall i :: 0 <= i < |s| ==> s[i].id != row.id
    ensures FindCategory(s + [row], row.id) == Some(row)
  {
    if |s| > 0 {
      assert (s + [row])[1..] == s[1..] + [row];
      FindAppended(s[1..], row);
    }
  }

  /** The SET list applied to one row: the trimmed name and the colour when provided, `updated_at`. */
  function ApplyCategoryUpdate(c: LifeCategoryRow, name: Option<string>, color: Option<string>, now: Instant): (r: LifeCategoryRow)
    ensures r.id == c.id && r.createdAt == c.createdAt && r.deletedAt == c.deletedAt && r.updatedAt == now
    ensures r.name == (if name.Some? then Trim(name.value) else c.name)
    ensures r.color == (if color.Some? then color.value else c.color)
  {
    c.(name := if name.Some? then Trim(name.value) else c.name,
       color := if color.Some? then color.value else c.color,
       updatedAt := now)
  }

  /** `updateLifeCategory`: write the rows with the id, deleted or not; an unknown id changes
      nothing and is not an error. */
  function UpdateLifeCategory(db: Db, id: Id, name: Option<string>, color: Option<string>, now: Instant): (r: Db)
    ensures r == db.(lifeCategories := r.lifeCategories) && |r.lifeCategories| == |db.lifeCategories|
    ensures forall i :: 0 <= i < |db.lifeCategories| ==>
      r.lifeCategories[i] == (if db.lifeCategories[i].id == id then ApplyCategoryUpdate(db.lifeCategories[i], name, color, now) else db.lifeCategories[i])
  {
    db.(lifeCategories := seq(|db.lifeCategories|, i requires 0 <= i < |db.lifeCategories| =>
      if db.lifeCategories[i].id == id then ApplyCategoryUpdate(db.lifeCategories[i], name, color, now) else db.lifeCategories[i]))
  }

  /** Updating an id no row has leaves the store as it was; updating twice with the same values
      is the same as updating once (at the later time). */
  lemma UpdateLifeCategoryUnknownAndRepeat(db: Db, id: Id, name: Option<string>, color: Option<string>, now: Instant, now': Instant)
    ensures (forall i :: 0 <= i < |db.lifeCategories| ==> db.lifeCategories[i].id != id) ==>
      UpdateLifeCategory(db, id, name, color, now) == db
    ensures UpdateLifeCategory(UpdateLifeCategory(db, id, name, color, now), id, name, color, now') ==
      UpdateLifeCategory(db, id, name, color, now')
  {
    if forall i :: 0 <= i < |db.lifeCategories| ==> db.lifeCategories[i].id != id {
      assert UpdateLifeCategory(db, id, name, color, now).lifeCategories == db.lifeCategories;
    }
    var a := UpdateLifeCategory(UpdateLifeCategory(db, id, name, color, now), id, name, color, now');
    var b := UpdateLifeCategory(db, id, name, color, now');
    forall i | 0 <= i < |db.lifeCategories| ensures a.lifeCategories[i] == b.lifeCategories[i] {
      if db.lifeCategories[i].id == id && name.Some? {
        TrimIdempotent(name.value);
      }
    }
    assert a.lifeCategories == b.lifeCategories;
  }

  /** What `deleteLifeCategory` does to a task of the category: unlinked; `updated_at` is left alone. */
  function Unlinked(t: TaskRow, id: Id): TaskRow {
    if t.lifeCategoryId == Some(id) then t.(lifeCategoryId := None) else t
  }

  /** `deleteLifeCategory`: soft-delete the category (only `deleted_at` changes), then unlink
      every task that referred to it, deleted or not. */
  function DeleteLifeCategory(db: Db, id: Id, now: Instant): (r: Db)
    ensures r == db.(lifeCategories := r.lifeCategories, tasks := r.tasks)
    ensures |r.lifeCategories| == |db.lifeCategories| && |r.tasks| == |db.tasks|
    ensures forall i :: 0 <= i < |db.lifeCategories| ==>
      r.lifeCategories[i] == (if db.lifeCategories[i].id == id then db.lifeCategories[i].(deletedAt := Some(now)) else db.lifeCategories[i])
    ensures forall i :: 0 <= i < |db.tasks| ==> r.tasks[i] == Unlinked(db.tasks[i], id)
  {
    db.(lifeCategories := seq(|db.lifeCategories|, i requires 0 <= i < |db.lifeCategories| =>
          if db.lifeCategories[i].id == id then db.lifeCategories[i].(deletedAt := Some(now)) else db.lifeCategories[i]),
        tasks := seq(|db.tasks|, i requires 0 <= i < |db.tasks| => Unlinked(db.tasks[i], id)))
  }

  /** After deleting a category it is not listed, no task refers to it, every other task is
      untouched, and the joined category of every task is unaffected except for its own tasks. */
  lemma DeleteLifeCategoryEffects(db: Db, id: Id, now: Instant)
    ensures var r := DeleteLifeCategory(db, id, now);
      && (forall x :: x in GetLifeCategories(r) ==> x.id != id)
      && LiveCategory(r.lifeCategories, Some(id)).None?
      && (forall i :: 0 <= i < |r.tasks| ==> r.tasks[i].lifeCategoryId != Some(id))
      && (forall i :: 0 <= i < |db.tasks| && db.tasks[i].lifeCategoryId != Some(id) ==> r.tasks[i] == db.tasks[i])
  {
    DeletedCategoryNotListed(db, id, now);
    DeletedCategoryNotLive(db, id, now);
    DeletedCategoryUnlinked(db, id, now);
  }

  lemma DeletedCategoryNotLive(db: Db, id: Id, now: Instant)
    ensures LiveCategory(DeleteLifeCategory(db, id, now).lifeCategories, Some(id)).None?
  {
  }

  lemma DeletedCategoryUnlinked(db: Db, id: Id, now: Instant)
    ensures var r := DeleteLifeCategory(db, id, now);
      && (forall i :: 0 <= i < |r.tasks| ==> r.tasks[i].lifeCategoryId != Some(id))
      && (forall i :: 0 <= i < |db.tasks| && db.tasks[i].lifeCategoryId != Some(id) ==> r.tasks[i] == db.tasks[i])
  {
  }

  lemma DeletedCategoryNotListed(db: Db, id: Id, now: Instant)
    ensures forall x :: x in GetLifeCategories(DeleteLifeCategory(db, id, now)) ==> x.id != id
  {
    var r := DeleteLifeCategory(db, id, now);
    GetLifeCategoriesExactly(r);
    forall x | x in GetLifeCategories(r) ensures x.id != id {
      var i :| 0 <= i < |r.lifeCategories| && r.lifeCategories[i] == x;
    }
  }
}
