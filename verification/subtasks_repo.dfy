/** `subtasks.repo.ts`: a task's checklist. Subtasks are deleted physically, and the task they
    belong to must exist (`PRAGMA foreign_keys = ON`). */
module SubtasksRepo {
  import opened Wrappers
  import opened Calendar
  import opened Store
  import opened Sorting

  /** The subtasks of task `taskId`, in table order. */
  function SubtasksOf(subs: seq<SubtaskRow>, taskId: Id): (r: seq<SubtaskRow>)
    ensures forall k :: 0 <= k < |r| ==> r[k].taskId == taskId
    ensures forall x: SubtaskRow :: x.taskId == taskId ==> multiset(r)[x] == multiset(subs)[x]
    ensures forall x: SubtaskRow :: x.taskId != taskId ==> multiset(r)[x] == 0
  {
    if |subs| == 0 then []
    else
      var rest := SubtasksOf(subs[1..], taskId);
      assert subs == [subs[0]] + subs[1..];
      if subs[0].taskId == taskId then [subs[0]] + rest else rest
  }

  predicate OrderLe(a: SubtaskRow, b: SubtaskRow) {
    a.orderIndex <= b.orderIndex
  }

  /** `getSubtasksByTaskId`: exactly the task's subtasks, by `order_index` ascending
      (the order among equal indices is left open). */
  function GetSubtasksByTaskId(db: Db, taskId: Id): (r: seq<SubtaskRow>)
    ensures SortedBy(OrderLe, r)
    ensures multiset(r) == multiset(SubtasksOf(db.subtasks, taskId))
  {
    SortBy(SubtasksOf(db.subtasks, taskId), OrderLe)
  }

  /** The listing holds every subtask of the task as often as the table does, and nothing else. */
  lemma GetSubtasksExactly(db: Db, taskId: Id, x: SubtaskRow)
    ensures x.taskId == taskId ==> multiset(GetSubtasksByTaskId(db, taskId))[x] == multiset(db.subtasks)[x]
    ensures x.taskId != taskId ==> x !in GetSubtasksByTaskId(db, taskId)
    ensures forall i, j :: 0 <= i < j < |GetSubtasksByTaskId(db, taskId)| ==>
      GetSubtasksByTaskId(db, taskId)[i].orderIndex <= GetSubtasksByTaskId(db, taskId)[j].orderIndex
  {
    var r := GetSubtasksByTaskId(db, taskId);
    if x.taskId != taskId {
      assert multiset(r)[x] == 0;
    }
  }

  /** `COALESCE(MAX(order_index), -1)` over the task's subtasks. */
  function MaxOrder(subs: seq<SubtaskRow>, taskId: Id): (m: int)
    ensures forall i :: 0 <= i < |subs| && subs[i].taskId == taskId ==> subs[i].orderIndex <= m
    ensures (forall i :: 0 <= i < |subs| ==> subs[i].taskId != taskId) ==> m == -1
    ensures (exists i :: 0 <= i < |subs| && subs[i].taskId == taskId) ==>
              (exists i :: 0 <= i < |subs| && subs[i].taskId == taskId && subs[i].orderIndex == m)
  {
    if |subs| == 0 then -1
    else
      var rest := MaxOrder(subs[1..], taskId);
      assert forall i :: 1 <= i < |subs| ==> subs[i] == subs[1..][i - 1];
      var anyRest := exists i :: 0 <= i < |subs[1..]| && subs[1..][i].taskId == taskId;
      if subs[0].taskId != taskId then rest
      else if !anyRest || subs[0].orderIndex > rest then subs[0].orderIndex
      else rest
  }

  datatype CreateSubtaskInput = CreateSubtaskInput(taskId: Id, text: string, orderIndex: Option<int>)

  /** The first subtask row with the id (`SELECT * FROM subtasks WHERE id = ?`, first row). */
  function FindSubtask(subs: seq<SubtaskRow>, id: Id): (r: Option<SubtaskRow>)
    ensures r.Some? ==> r.value in subs && r.value.id == id
    ensures r.None? <==> forall i :: 0 <= i < |subs| ==> subs[i].id != id
  {
    if |subs| == 0 then None
    else if subs[0].id == id then Some(subs[0])
    else
      var r := FindSubtask(subs[1..], id);
      assert forall i :: 1 <= i < |subs| ==> subs[i] == subs[1..][i - 1];
      r
  }

  /** Some task row, deleted or not, has the id: what the foreign key checks. */
  predicate TaskExists(tasks: seq<TaskRow>, id: Id) {
    exists i :: 0 <= i < |tasks| && tasks[i].id == id
  }

  /** The row `createSubtask` inserts: the given index (`??`), else one past the largest. */
  function NewSubtaskRow(db: Db, input: CreateSubtaskInput, now: Instant): SubtaskRow {
    var order := if input.orderIndex.Some? then input.orderIndex.value else MaxOrder(db.subtasks, input.taskId) + 1;
    SubtaskRow(db.nextId, input.taskId, input.text, false, order, now, now)
  }

  /** `createSubtask`: the given index, or one past the task's largest; not done; equal timestamps. */
  function CreateSubtask(db: Db, input: CreateSubtaskInput, now: Instant): (r: Result<(Db, SubtaskRow), string>)
    ensures r.Failure? <==> !TaskExists(db.tasks, input.taskId)
    ensures r.Success? ==>
      && r.value.0 == db.(subtasks := r.value.0.subtasks, nextId := db.nextId + 1)
      && |r.value.0.subtasks| == |db.subtasks| + 1 && r.value.0.subtasks[..|db.subtasks|] == db.subtasks
      && r.value.1.id == db.nextId && r.value.1 in r.value.0.subtasks
  {
    if !TaskExists(db.tasks, input.taskId) then Failure("FOREIGN KEY constraint failed")
    else
      var row := NewSubtaskRow(db, input, now);
      var subs := db.subtasks + [row];
      assert subs[..|db.subtasks|] == db.subtasks;
      assert subs[|db.subtasks|].id == row.id;
      match FindSubtask(subs, row.id)
      case None => Failure("Failed to create subtask")
      case Some(s) => Success((db.(subtasks := subs, nextId := db.nextId + 1), s))
  }

  /** On a well-formed store, creating a subtask of an existing task succeeds and appends a row with
      the next id, not done, with equal timestamps. Its index is the given one, or else one more than
      every index the task already has, which is 0 for a task without subtasks. */
  lemma CreateSubtaskOrder(db: Db, input: CreateSubtaskInput, now: Instant)
    requires WellFormed(db) && TaskExists(db.tasks, input.taskId)
    ensures var r := CreateSubtask(db, input, now);
      && r.Success? && WellFormed(r.value.0)
      && r.value.1 == r.value.0.subtasks[|db.subtasks|]
      && r.value.1.id == db.nextId && r.value.1.taskId == input.taskId && r.value.1.text == input.text
      && !r.value.1.done && r.value.1.createdAt == r.value.1.updatedAt == now
      && (input.orderIndex.Some? ==> r.value.1.orderIndex == input.orderIndex.value)
      && (input.orderIndex.None? ==>
            (forall i :: 0 <= i < |db.subtasks| && db.subtasks[i].taskId == input.taskId ==>
               db.subtasks[i].orderIndex < r.value.1.orderIndex)
            && ((forall i :: 0 <= i < |db.subtasks| ==> db.subtasks[i].taskId != input.taskId) ==> r.value.1.orderIndex == 0))
  {
    var row := NewSubtaskRow(db, input, now);
    CreateSubtaskAppends(db, input, now);
    AppendSubtaskKeepsWellFormed(db, row);
  }

  lemma CreateSubtaskAppends(db: Db, input: CreateSubtaskInput, now: Instant)
    requires IdsBelowAndDistinct(SubtaskIds(db.subtasks), db.nextId) && TaskExists(db.tasks, input.taskId)
    ensures var row := NewSubtaskRow(db, input, now);
      CreateSubtask(db, input, now) == Success((db.(subtasks := db.subtasks + [row], nextId := db.nextId + 1), row))
  {
    var row := NewSubtaskRow(db, input, now);
    FirstOfFreshId(db.subtasks, row, db.nextId);
    assert FindSubtask(db.subtasks + [row], row.id) == Some(row);
    assert !!TaskExists(db.tasks, input.taskId);
  }

  lemma AppendSubtaskKeepsWellFormed(db: Db, row: SubtaskRow)
    requires WellFormed(db) && row.id == db.nextId
    ensures WellFormed(db.(subtasks := db.subtasks + [row], nextId := db.nextId + 1))
  {
    AppendFreshId(SubtaskIds(db.subtasks), db.nextId);
    assert SubtaskIds(db.subtasks + [row]) == SubtaskIds(db.subtasks) + [db.nextId];
    RaiseBound(TaskIds(db.tasks), db.nextId, db.nextId + 1);
    RaiseBound(CourseIds(db.courses), db.nextId, db.nextId + 1);
    RaiseBound(LifeCategoryIds(db.lifeCategories), db.nextId, db.nextId + 1);
    RaiseBound(TaskTypeIds(db.taskTypes), db.nextId, db.nextId + 1);
  }

  lemma FirstOfFreshId(subs: seq<SubtaskRow>, row: SubtaskRow, bound: nat)
    requires IdsBelowAndDistinct(SubtaskIds(subs), bound)
    requires row.id == bound
    ensures FindSubtask(subs + [row], row.id) == Some(row)
  {
    assert (subs + [row])[|subs|].id == row.id;
    var r := FindSubtask(subs + [row], row.id);
    var k :| 0 <= k < |subs + [row]| && (subs + [row])[k] == r.value;
  }

  datatype UpdateSubtaskInput = UpdateSubtaskInput(id: Id, text: Option<string>, done: Option<bool>, orderIndex: Option<int>)

  /** The SET list applied to one row: only provided fields, plus `updated_at`. */
  function ApplySubtaskUpdate(s: SubtaskRow, input: UpdateSubtaskInput, now: Instant): (r: SubtaskRow)
    ensures r.id == s.id && r.taskId == s.taskId && r.createdAt == s.createdAt && r.updatedAt == now
    ensures r.text == (if input.text.Some? then input.text.value else s.text)
    ensures r.done == (if input.done.Some? then input.done.value else s.done)
    ensures r.orderIndex == (if input.orderIndex.Some? then input.orderIndex.value else s.orderIndex)
  {
    s.(text := if input.text.Some? then input.text.value else s.text,
       done := if input.done.Some? then input.done.value else s.done,
       orderIndex := if input.orderIndex.Some? then input.orderIndex.value else s.orderIndex,
       updatedAt := now)
  }

  /** `updateSubtask`: update the rows with the id, then read the row back; a missing id is an error. */
  function UpdateSubtask(db: Db, input: UpdateSubtaskInput, now: Instant): (r: Result<(Db, SubtaskRow), string>)
    ensures r.Failure? <==> FindSubtask(db.subtasks, input.id).None?
    ensures r.Success? ==> r.value.0 == db.(subtasks := r.value.0.subtasks) && |r.value.0.subtasks| == |db.subtasks|
    ensures r.Success? ==> forall i :: 0 <= i < |db.subtasks| ==>
      r.value.0.subtasks[i] == (if db.subtasks[i].id == input.id then ApplySubtaskUpdate(db.subtasks[i], input, now) else db.subtasks[i])
    ensures r.Success? ==> r.value.1 == ApplySubtaskUpdate(FindSubtask(db.subtasks, input.id).value, input, now)
  {
    var subs := seq(|db.subtasks|, i requires 0 <= i < |db.subtasks| =>
      if db.subtasks[i].id == input.id then ApplySubtaskUpdate(db.subtasks[i], input, now) else db.subtasks[i]);
    FindAfterUpdate(db.subtasks, subs, input, now);
    match FindSubtask(subs, input.id)
    case None => Failure("Failed to update subtask")
    case Some(s) => Success((db.(subtasks := subs), s))
  }

  lemma {:induction false} FindAfterUpdate(subs: seq<SubtaskRow>, subs': seq<SubtaskRow>, input: UpdateSubtaskInput, now: Instant)
    requires |subs'| == |subs|
    requires forall i :: 0 <= i < |subs| ==>
      subs'[i] == (if subs[i].id == input.id then ApplySubtaskUpdate(subs[i], input, now) else subs[i])
    ensures FindSubtask(subs', input.id).None? <==> FindSubtask(subs, input.id).None?
    ensures FindSubtask(subs, input.id).Some? ==>
      FindSubtask(subs', input.id) == Some(ApplySubtaskUpdate(FindSubtask(subs, input.id).value, input, now))
  {
    if |subs| > 0 && subs[0].id != input.id {
      FindAfterUpdate(subs[1..], subs'[1..], input, now);
    }
  }

  /** An update that provides nothing only moves `updated_at`. */
  lemma EmptySubtaskUpdate(db: Db, id: Id, now: Instant)
    requires FindSubtask(db.subtasks, id).Some?
    ensures var r := UpdateSubtask(db, UpdateSubtaskInput(id, None, None, None), now);
      r.Success? && r.value.1 == FindSubtask(db.subtasks, id).value.(updatedAt := now)
  {
  }

  /** The rows whose id is not `id`, in table order: every other row as often as it is stored. */
  function WithoutId(s: seq<SubtaskRow>, id: Id): (r: seq<SubtaskRow>)
    ensures forall x :: multiset(r)[x] == if x.id == id then 0 else multiset(s)[x]
  {
    if |s| == 0 then []
    else
      var rest := WithoutId(s[1..], id);
      assert s == [s[0]] + s[1..];
      if s[0].id == id then rest else [s[0]] + rest
  }

  /** `deleteSubtask`: `DELETE FROM subtasks WHERE id = ?`. */
  function DeleteSubtask(db: Db, id: Id): (r: Db)
    ensures r == db.(subtasks := r.subtasks)
    ensures forall i :: 0 <= i < |r.subtasks| ==> r.subtasks[i].id != id && r.subtasks[i] in db.subtasks
    ensures forall i :: 0 <= i < |db.subtasks| && db.subtasks[i].id != id ==> db.subtasks[i] in r.subtasks
    ensures forall x :: multiset(r.subtasks)[x] == if x.id == id then 0 else multiset(db.subtasks)[x]
  {
    var kept := WithoutId(db.subtasks, id);
    assert forall i :: 0 <= i < |kept| ==> multiset(kept)[kept[i]] > 0;
    assert forall i :: 0 <= i < |db.subtasks| ==> multiset(db.subtasks)[db.subtasks[i]] > 0;
    db.(subtasks := kept)
  }

  /** Unlike a task, a deleted subtask is gone: it can no longer be found, and the table is
      shorter by the rows that had the id. */
  lemma DeleteSubtaskRemoves(db: Db, id: Id)
    ensures FindSubtask(DeleteSubtask(db, id).subtasks, id).None?
    ensures FindSubtask(db.subtasks, id).Some? ==> |DeleteSubtask(db, id).subtasks| < |db.subtasks|
  {
    if FindSubtask(db.subtasks, id).Some? {
      DeleteShrinks(db, id);
    }
  }

  lemma {:induction false} DeleteShrinks(db: Db, id: Id)
    requires FindSubtask(db.subtasks, id).Some?
    ensures |DeleteSubtask(db, id).subtasks| < |db.subtasks|
    decreases |db.subtasks|
  {
    if db.subtasks[0].id != id {
      DeleteShrinks(db.(subtasks := db.subtasks[1..]), id);
    } else {
      DeleteNoLonger(db.(subtasks := db.subtasks[1..]), id);
    }
  }

  lemma {:induction false} DeleteNoLonger(db: Db, id: Id)
    ensures |DeleteSubtask(db, id).subtasks| <= |db.subtasks|
    decreases |db.subtasks|
  {
    if |db.subtasks| > 0 {
      DeleteNoLonger(db.(subtasks := db.subtasks[1..]), id);
    }
  }

  /** The last position of `x` in `ids`. */
  function LastIndexOf(ids: seq<Id>, x: Id): (i: nat)
    requires x in ids
    ensures i < |ids| && ids[i] == x && forall j :: i < j < |ids| ==> ids[j] != x
  {
    if ids[|ids| - 1] == x then |ids| - 1 else LastIndexOf(ids[..|ids| - 1], x)
  }

  /** Where `reorderSubtasks(taskId, ids)` leaves a row: a subtask of `taskId` listed in `ids` gets
      the position of its last listing; every other row is untouched. */
  function Reordered(s: SubtaskRow, taskId: Id, ids: seq<Id>, now: Instant): SubtaskRow {
    if s.taskId == taskId && s.id in ids then s.(orderIndex := LastIndexOf(ids, s.id), updatedAt := now) else s
  }

  /** `reorderSubtasks`: one `UPDATE ... WHERE id = ? AND task_id = ?` per listed id, in order. */
  method ReorderSubtasks(db: Db, taskId: Id, ids: seq<Id>, now: Instant) returns (r: Db)
    ensures r == db.(subtasks := r.subtasks) && |r.subtasks| == |db.subtasks|
    ensures forall k :: 0 <= k < |db.subtasks| ==> r.subtasks[k] == Reordered(db.subtasks[k], taskId, ids, now)
  {
    var subs := db.subtasks;
    var i := 0;
    while i < |ids|
      invariant 0 <= i <= |ids| && |subs| == |db.subtasks|
      invariant forall k :: 0 <= k < |subs| ==> subs[k] == Reordered(db.subtasks[k], taskId, ids[..i], now)
    {
      var id := ids[i];
      subs := seq(|subs|, k requires 0 <= k < |subs| =>
        if subs[k].id == id && subs[k].taskId == taskId then subs[k].(orderIndex := i, updatedAt := now) else subs[k]);
      forall k | 0 <= k < |subs|
        ensures subs[k] == Reordered(db.subtasks[k], taskId, ids[..i + 1], now)
      {
        var s := db.subtasks[k];
        assert ids[..i + 1] == ids[..i] + [id];
        if s.taskId == taskId && s.id in ids[..i + 1] && s.id != id {
          assert s.id in ids[..i];
          assert LastIndexOf(ids[..i + 1], s.id) == LastIndexOf(ids[..i], s.id);
        }
      }
      i := i + 1;
    }
    assert ids[..i] == ids;
    r := db.(subtasks := subs);
  }
}
