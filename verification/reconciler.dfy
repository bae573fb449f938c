/** `ensureRecurringInstances`: for every recurring life template, expand its rule over
    `[max(template day, today), today + horizonDays]` and insert an instance row for each day
    that has no non-deleted instance yet. The run is a function from store to store; one
    clock reading `now` serves the whole run. */
module Reconciler {
  import opened Wrappers
  import opened Calendar
  import opened Rules
  import opened Expander
  import opened Store

  const DefaultHorizonDays: int := 90

  /** The templates query: not deleted, flagged as a template, in the life workspace. */
  predicate IsEligibleTemplate(t: TaskRow) {
    t.deletedAt.None? && t.isRecurringTemplate && t.workspace == "life"
  }

  /** The rows the templates query returns, in table order. */
  function Templates(tasks: seq<TaskRow>): (r: seq<TaskRow>)
    ensures forall i :: 0 <= i < |r| ==> IsEligibleTemplate(r[i]) && r[i] in tasks
    ensures forall i :: 0 <= i < |tasks| && IsEligibleTemplate(tasks[i]) ==> tasks[i] in r
  {
    if |tasks| == 0 then []
    else
      var rest := Templates(tasks[1..]);
      assert forall i :: 1 <= i < |tasks| ==> tasks[i] == tasks[1..][i - 1];
      if IsEligibleTemplate(tasks[0]) then [tasks[0]] + rest else rest
  }

  lemma {:induction false} TemplatesAppend(a: seq<TaskRow>, b: seq<TaskRow>)
    ensures Templates(a + b) == Templates(a) + Templates(b)
  {
    if |a| > 0 {
      assert (a + b)[1..] == a[1..] + b;
      TemplatesAppend(a[1..], b);
    } else {
      assert a + b == b;
    }
  }

  /** The rule a template yields: none for missing, empty or unparseable JSON; otherwise the
      decoded rule with `count` dropped unless the end type is COUNT. */
  function RuleOf(t: TaskRow): Option<RecurrenceRule> {
    match t.recurrenceRuleJson
    case Some(Parsed(rule)) => Some(Normalize(rule))
    case _ => None
  }

  /** The first day of the expansion window. The code compares the template's midnight with
      `now`; the result is the later of the template's day and today. */
  function WindowStart(due: Option<Instant>, now: Instant): (d: Day)
    ensures due.Some? ==> d == (if DayOf(due.value) < DayOf(now) then DayOf(now) else DayOf(due.value))
    ensures due.None? ==> d == DayOf(now)
  {
    var startDay := if due.Some? then DayOf(due.value) else DayOf(now);
    DayOfWithinDay(startDay, StartOfDay(startDay));
    if StartOfDay(startDay) < now then DayOf(now) else DayOf(StartOfDay(startDay))
  }

  /** The day the rule is anchored to for MONTHLY rules: the template's due day, or today. */
  function AnchorDay(due: Option<Instant>, now: Instant): Day {
    DayOf(if due.Some? then due.value else now)
  }

  /** The days the run expands for template `t`, in ascending order. */
  function OccurrenceDays(t: TaskRow, now: Instant, horizonDays: int): (r: seq<Day>)
    ensures forall i :: 0 <= i < |r| ==> WindowStart(t.dueAt, now) <= r[i] <= DayOf(now) + horizonDays
    ensures forall i, j :: 0 <= i < j < |r| ==> r[i] < r[j]
    ensures RuleOf(t).None? ==> r == []
  {
    match RuleOf(t)
    case None => []
    case Some(rule) =>
      ExpandRuleToDates(rule, WindowStart(t.dueAt, now), DayOf(now) + horizonDays, Some(AnchorDay(t.dueAt, now)))
  }

  /** The due instant of the instance on day `d`: the rule's time of day if it has one, else
      the template's time of day, else midnight. */
  function InstanceDue(rule: RecurrenceRule, t: TaskRow, d: Day): (r: Instant)
    ensures rule.timeOfDay.Some? ==>
      r == StartOfDay(d) + rule.timeOfDay.value.hours * MsPerHour + rule.timeOfDay.value.minutes * MsPerMinute
    ensures rule.timeOfDay.None? && t.dueAt.Some? ==>
      DayOf(r) == d && r - StartOfDay(d) == t.dueAt.value - StartOfDay(DayOf(t.dueAt.value))
    ensures rule.timeOfDay.None? && t.dueAt.None? ==> r == StartOfDay(d)
  {
    if rule.timeOfDay.Some? then
      StartOfDay(d) + rule.timeOfDay.value.hours * MsPerHour + rule.timeOfDay.value.minutes * MsPerMinute
    else if t.dueAt.Some? then
      var r := StartOfDay(d) + t.dueAt.value % MsPerDay;
      DayOfWithinDay(d, r);
      r
    else StartOfDay(d)
  }

  /** The row inserted for template `t` on day `d`. */
  function NewInstance(t: TaskRow, rule: RecurrenceRule, d: Day, id: Id, now: Instant): TaskRow {
    TaskRow(
      id := id,
      title := t.title,
      description := OrNull(t.description),
      dueAt := Some(InstanceDue(rule, t, d)),
      taskType := t.taskType,
      courseId := None,
      lifeCategoryId := t.lifeCategoryId,
      workspace := "life",
      status := "todo",
      priority := None,
      effortMinutes := None,
      tags := OrNull(t.tags),
      source := "manual",
      createdAt := now,
      updatedAt := now,
      deletedAt := None,
      isRecurringTemplate := false,
      recurrenceRuleJson := None,
      recurringSeriesId := Some(if t.recurringSeriesId.Some? then t.recurringSeriesId.value else t.id),
      parentTemplateId := Some(t.id),
      occurrenceDate := Some(d),
      isOccurrenceOverride := false)
  }

  /** `row` is a non-deleted instance of template `tid` for day `d`: the key the dedup query counts. */
  predicate IsLiveInstance(row: TaskRow, tid: Id, d: Day) {
    row.parentTemplateId == Some(tid) && row.occurrenceDate == Some(d) && row.deletedAt.None?
  }

  predicate HasLiveInstance(tasks: seq<TaskRow>, tid: Id, d: Day) {
    exists i :: 0 <= i < |tasks| && IsLiveInstance(tasks[i], tid, d)
  }

  /** One iteration of the inner loop: insert the instance for day `d` unless one is live. */
  function InsertDay(db: Db, t: TaskRow, rule: RecurrenceRule, d: Day, now: Instant): Db {
    if HasLiveInstance(db.tasks, t.id, d) then db
    else db.(tasks := db.tasks + [NewInstance(t, rule, d, db.nextId, now)], nextId := db.nextId + 1)
  }

  function InsertDays(db: Db, t: TaskRow, rule: RecurrenceRule, days: seq<Day>, now: Instant): Db
    decreases |days|
  {
    if |days| == 0 then db else InsertDays(InsertDay(db, t, rule, days[0], now), t, rule, days[1..], now)
  }

  /** One iteration of the outer loop; a template without a usable rule is skipped. */
  function ReconcileOne(db: Db, t: TaskRow, now: Instant, horizonDays: int): Db {
    match RuleOf(t)
    case None => db
    case Some(rule) => InsertDays(db, t, rule, OccurrenceDays(t, now, horizonDays), now)
  }

  function ReconcileAll(db: Db, ts: seq<TaskRow>, now: Instant, horizonDays: int): Db
    decreases |ts|
  {
    if |ts| == 0 then db else ReconcileAll(ReconcileOne(db, ts[0], now, horizonDays), ts[1..], now, horizonDays)
  }

  /** `ensureRecurringInstances(horizonDays)` run at instant `now`. */
  function EnsureRecurringInstances(db: Db, now: Instant, horizonDays: int): Db {
    ReconcileAll(db, Templates(db.tasks), now, horizonDays)
  }

  /** `ensureRecurringInstances()` called without an argument: the 90-day horizon. */
  function EnsureRecurringInstancesDefault(db: Db, now: Instant): (r: Db)
    ensures Extends(db, r)
    ensures EnsureRecurringInstances(r, now, DefaultHorizonDays) == r
  {
    InsertOnly(db, now, DefaultHorizonDays);
    Idempotent(db, now, DefaultHorizonDays);
    EnsureRecurringInstances(db, now, DefaultHorizonDays)
  }

  /** `r` only appends task rows, with consecutive fresh ids, and leaves every other table alone. */
  predicate Extends(db: Db, r: Db) {
    && |db.tasks| <= |r.tasks| && r.tasks[..|db.tasks|] == db.tasks
    && r.subtasks == db.subtasks && r.courses == db.courses && r.lifeCategories == db.lifeCategories
    && r.taskTypes == db.taskTypes && r.grades == db.grades
    && r.nextId == db.nextId + (|r.tasks| - |db.tasks|)
    && (forall i :: |db.tasks| <= i < |r.tasks| ==> r.tasks[i].id == db.nextId + (i - |db.tasks|))
  }

  lemma ExtendsTrans(a: Db, b: Db, c: Db)
    requires Extends(a, b) && Extends(b, c)
    ensures Extends(a, c)
  {
    assert c.tasks[..|a.tasks|] == c.tasks[..|b.tasks|][..|a.tasks|];
    forall i | |a.tasks| <= i < |c.tasks|
      ensures c.tasks[i].id == a.nextId + (i - |a.tasks|)
    {
      if i < |b.tasks| {
        assert c.tasks[i] == c.tasks[..|b.tasks|][i];
      }
    }
  }

  /** Live instances are never removed by appending rows. */
  lemma ExtendsKeepsLive(db: Db, r: Db, tid: Id, d: Day)
    requires Extends(db, r) && HasLiveInstance(db.tasks, tid, d)
    ensures HasLiveInstance(r.tasks, tid, d)
  {
    var i :| 0 <= i < |db.tasks| && IsLiveInstance(db.tasks[i], tid, d);
    assert r.tasks[i] == r.tasks[..|db.tasks|][i];
  }

  /** The rows added by `InsertDays` are instances of `t` for days of `days`. */
  predicate AddedFor(db: Db, r: Db, t: TaskRow, rule: RecurrenceRule, days: seq<Day>, now: Instant)
    requires |db.tasks| <= |r.tasks|
  {
    forall i :: |db.tasks| <= i < |r.tasks| ==>
      r.tasks[i].occurrenceDate.Some? && r.tasks[i].occurrenceDate.value in days
      && r.tasks[i] == NewInstance(t, rule, r.tasks[i].occurrenceDate.value, r.tasks[i].id, now)
  }

  lemma {:induction false} InsertDaysShape(db: Db, t: TaskRow, rule: RecurrenceRule, days: seq<Day>, now: Instant)
    ensures Extends(db, InsertDays(db, t, rule, days, now))
    ensures AddedFor(db, InsertDays(db, t, rule, days, now), t, rule, days, now)
    decreases |days|
  {
    var r := InsertDays(db, t, rule, days, now);
    if |days| == 0 {
      assert db.tasks[..|db.tasks|] == db.tasks;
    } else {
      var db1 := InsertDay(db, t, rule, days[0], now);
      assert db1.tasks[..|db.tasks|] == db.tasks;
      InsertDaysShape(db1, t, rule, days[1..], now);
      ExtendsTrans(db, db1, r);
      forall i | |db.tasks| <= i < |r.tasks|
        ensures r.tasks[i].occurrenceDate.Some? && r.tasks[i].occurrenceDate.value in days
        ensures r.tasks[i] == NewInstance(t, rule, r.tasks[i].occurrenceDate.value, r.tasks[i].id, now)
      {
        if i < |db1.tasks| {
          assert r.tasks[i] == r.tasks[..|db1.tasks|][i];
          assert r.tasks[i] == NewInstance(t, rule, days[0], db.nextId, now);
        } else {
          assert r.tasks[i].occurrenceDate.value in days[1..];
        }
      }
    }
  }

  /** After `InsertDays` every day of `days` has a live instance of `t`. */
  lemma {:induction false} InsertDaysComplete(db: Db, t: TaskRow, rule: RecurrenceRule, days: seq<Day>, now: Instant)
    ensures forall d :: d in days ==> HasLiveInstance(InsertDays(db, t, rule, days, now).tasks, t.id, d)
    decreases |days|
  {
    if |days| > 0 {
      var db1 := InsertDay(db, t, rule, days[0], now);
      var r := InsertDays(db1, t, rule, days[1..], now);
      if !HasLiveInstance(db.tasks, t.id, days[0]) {
        assert IsLiveInstance(db1.tasks[|db.tasks|], t.id, days[0]);
      }
      InsertDaysShape(db1, t, rule, days[1..], now);
      ExtendsKeepsLive(db1, r, t.id, days[0]);
      InsertDaysComplete(db1, t, rule, days[1..], now);
      assert forall d :: d in days ==> d == days[0] || d in days[1..];
    }
  }

  /** When every day already has a live instance, `InsertDays` changes nothing. */
  lemma {:induction false} InsertDaysNoop(db: Db, t: TaskRow, rule: RecurrenceRule, days: seq<Day>, now: Instant)
    requires forall d :: d in days ==> HasLiveInstance(db.tasks, t.id, d)
    ensures InsertDays(db, t, rule, days, now) == db
    decreases |days|
  {
    if |days| > 0 {
      assert days[0] in days;
      assert forall d :: d in days[1..] ==> d in days;
      InsertDaysNoop(db, t, rule, days[1..], now);
    }
  }

  /** `row` is an instance the run may create for template `t`: every field as the INSERT writes it. */
  predicate InstanceOf(row: TaskRow, t: TaskRow, now: Instant, horizonDays: int) {
    && RuleOf(t).Some?
    && row.occurrenceDate.Some? && row.occurrenceDate.value in OccurrenceDays(t, now, horizonDays)
    && row.parentTemplateId == Some(t.id)
    && row.recurringSeriesId == Some(if t.recurringSeriesId.Some? then t.recurringSeriesId.value else t.id)
    && row.title == t.title && row.description == OrNull(t.description) && row.taskType == t.taskType
    && row.lifeCategoryId == t.lifeCategoryId && row.tags == OrNull(t.tags)
    && row.dueAt == Some(InstanceDue(RuleOf(t).value, t, row.occurrenceDate.value))
    && row.workspace == "life" && row.status == "todo" && row.source == "manual"
    && !row.isRecurringTemplate && !row.isOccurrenceOverride
    && row.courseId.None? && row.priority.None? && row.effortMinutes.None? && row.recurrenceRuleJson.None?
    && row.createdAt == now && row.updatedAt == now && row.deletedAt.None?
  }

  /** Every row added between `db` and `r` is an instance of one of `ts`. */
  predicate AddedFromTemplates(db: Db, r: Db, ts: seq<TaskRow>, now: Instant, horizonDays: int)
    requires |db.tasks| <= |r.tasks|
  {
    forall i :: |db.tasks| <= i < |r.tasks| ==>
      exists j :: 0 <= j < |ts| && InstanceOf(r.tasks[i], ts[j], now, horizonDays)
  }

  lemma ReconcileOneShape(db: Db, t: TaskRow, now: Instant, horizonDays: int)
    ensures var r := ReconcileOne(db, t, now, horizonDays);
      Extends(db, r) && forall i :: |db.tasks| <= i < |r.tasks| ==> InstanceOf(r.tasks[i], t, now, horizonDays)
  {
    var r := ReconcileOne(db, t, now, horizonDays);
    match RuleOf(t)
    case None =>
      assert db.tasks[..|db.tasks|] == db.tasks;
    case Some(rule) =>
      InsertDaysShape(db, t, rule, OccurrenceDays(t, now, horizonDays), now);
  }

  lemma {:induction false} ReconcileAllShape(db: Db, ts: seq<TaskRow>, now: Instant, horizonDays: int)
    ensures Extends(db, ReconcileAll(db, ts, now, horizonDays))
    ensures AddedFromTemplates(db, ReconcileAll(db, ts, now, horizonDays), ts, now, horizonDays)
    decreases |ts|
  {
    var r := ReconcileAll(db, ts, now, horizonDays);
    if |ts| == 0 {
      assert db.tasks[..|db.tasks|] == db.tasks;
    } else {
      var db1 := ReconcileOne(db, ts[0], now, horizonDays);
      ReconcileOneShape(db, ts[0], now, horizonDays);
      ReconcileAllShape(db1, ts[1..], now, horizonDays);
      ExtendsTrans(db, db1, r);
      forall i | |db.tasks| <= i < |r.tasks|
        ensures exists j :: 0 <= j < |ts| && InstanceOf(r.tasks[i], ts[j], now, horizonDays)
      {
        if i < |db1.tasks| {
          assert r.tasks[i] == r.tasks[..|db1.tasks|][i];
          assert InstanceOf(r.tasks[i], ts[0], now, horizonDays);
        } else {
          var j :| 0 <= j < |ts[1..]| && InstanceOf(r.tasks[i], ts[1..][j], now, horizonDays);
          assert InstanceOf(r.tasks[i], ts[j + 1], now, horizonDays);
        }
      }
    }
  }

  lemma {:induction false} ReconcileAllComplete(db: Db, ts: seq<TaskRow>, now: Instant, horizonDays: int)
    ensures forall j, d :: 0 <= j < |ts| && d in OccurrenceDays(ts[j], now, horizonDays) ==>
      HasLiveInstance(ReconcileAll(db, ts, now, horizonDays).tasks, ts[j].id, d)
    decreases |ts|
  {
    if |ts| > 0 {
      var db1 := ReconcileOne(db, ts[0], now, horizonDays);
      var r := ReconcileAll(db1, ts[1..], now, horizonDays);
      ReconcileAllShape(db1, ts[1..], now, horizonDays);
      ReconcileAllComplete(db1, ts[1..], now, horizonDays);
      forall d | d in OccurrenceDays(ts[0], now, horizonDays)
        ensures HasLiveInstance(r.tasks, ts[0].id, d)
      {
        match RuleOf(ts[0])
        case Some(rule) =>
          InsertDaysComplete(db, ts[0], rule, OccurrenceDays(ts[0], now, horizonDays), now);
          ExtendsKeepsLive(db1, r, ts[0].id, d);
      }
      forall j, d | 1 <= j < |ts| && d in OccurrenceDays(ts[j], now, horizonDays)
        ensures HasLiveInstance(r.tasks, ts[j].id, d)
      {
        assert ts[j] == ts[1..][j - 1];
      }
    }
  }

  lemma {:induction false} ReconcileAllNoop(db: Db, ts: seq<TaskRow>, now: Instant, horizonDays: int)
    requires forall j, d :: 0 <= j < |ts| && d in OccurrenceDays(ts[j], now, horizonDays) ==>
      HasLiveInstance(db.tasks, ts[j].id, d)
    ensures ReconcileAll(db, ts, now, horizonDays) == db
    decreases |ts|
  {
    if |ts| > 0 {
      match RuleOf(ts[0]) {
        case None =>
        case Some(rule) =>
          InsertDaysNoop(db, ts[0], rule, OccurrenceDays(ts[0], now, horizonDays), now);
      }
      forall j, d | 0 <= j < |ts[1..]| && d in OccurrenceDays(ts[1..][j], now, horizonDays)
        ensures HasLiveInstance(db.tasks, ts[1..][j].id, d)
      {
        assert ts[1..][j] == ts[j + 1];
      }
      ReconcileAllNoop(db, ts[1..], now, horizonDays);
    }
  }

  /** The run only inserts: existing rows (templates included) keep their place and content,
      no other table changes, and each new row takes the next fresh id. */
  lemma InsertOnly(db: Db, now: Instant, horizonDays: int)
    ensures Extends(db, EnsureRecurringInstances(db, now, horizonDays))
  {
    ReconcileAllShape(db, Templates(db.tasks), now, horizonDays);
  }

  /** Every new row is an instance, written field by field as the INSERT does, of an eligible
      template with a usable rule, for a day of that template's expansion. */
  lemma NewRowsAreInstances(db: Db, now: Instant, horizonDays: int)
    ensures var r := EnsureRecurringInstances(db, now, horizonDays);
      |db.tasks| <= |r.tasks| &&
      forall i :: |db.tasks| <= i < |r.tasks| ==>
        exists t :: t in db.tasks && IsEligibleTemplate(t) && InstanceOf(r.tasks[i], t, now, horizonDays)
  {
    var ts := Templates(db.tasks);
    var r := EnsureRecurringInstances(db, now, horizonDays);
    ReconcileAllShape(db, ts, now, horizonDays);
    forall i | |db.tasks| <= i < |r.tasks|
      ensures exists t :: t in db.tasks && IsEligibleTemplate(t) && InstanceOf(r.tasks[i], t, now, horizonDays)
    {
      var j :| 0 <= j < |ts| && InstanceOf(r.tasks[i], ts[j], now, horizonDays);
      assert ts[j] in db.tasks && IsEligibleTemplate(ts[j]);
    }
  }

  /** No instance lands before the later of the template's day and today, or after today + horizonDays. */
  lemma NewRowsInWindow(db: Db, now: Instant, horizonDays: int)
    ensures var r := EnsureRecurringInstances(db, now, horizonDays);
      |db.tasks| <= |r.tasks| &&
      forall i :: |db.tasks| <= i < |r.tasks| ==>
        exists t :: (t in db.tasks && r.tasks[i].parentTemplateId == Some(t.id)
          && r.tasks[i].occurrenceDate.Some?
          && (if t.dueAt.Some? && DayOf(t.dueAt.value) > DayOf(now) then DayOf(t.dueAt.value) else DayOf(now))
             <= r.tasks[i].occurrenceDate.value <= DayOf(now) + horizonDays)
  {
    var r := EnsureRecurringInstances(db, now, horizonDays);
    NewRowsAreInstances(db, now, horizonDays);
    forall i | |db.tasks| <= i < |r.tasks|
      ensures exists t :: (t in db.tasks && r.tasks[i].parentTemplateId == Some(t.id)
          && r.tasks[i].occurrenceDate.Some?
          && (if t.dueAt.Some? && DayOf(t.dueAt.value) > DayOf(now) then DayOf(t.dueAt.value) else DayOf(now))
             <= r.tasks[i].occurrenceDate.value <= DayOf(now) + horizonDays)
    {
      var t :| t in db.tasks && IsEligibleTemplate(t) && InstanceOf(r.tasks[i], t, now, horizonDays);
      var days := OccurrenceDays(t, now, horizonDays);
      var d := r.tasks[i].occurrenceDate.value;
      var k :| 0 <= k < |days| && days[k] == d;
      var lo := if t.dueAt.Some? && DayOf(t.dueAt.value) > DayOf(now) then DayOf(t.dueAt.value) else DayOf(now);
      assert lo == WindowStart(t.dueAt, now);
      assert lo <= d <= DayOf(now) + horizonDays;
    }
  }

  /** After a run, every day expanded for every eligible template has a live instance. */
  lemma Complete(db: Db, now: Instant, horizonDays: int, t: TaskRow, d: Day)
    requires t in db.tasks && IsEligibleTemplate(t) && d in OccurrenceDays(t, now, horizonDays)
    ensures HasLiveInstance(EnsureRecurringInstances(db, now, horizonDays).tasks, t.id, d)
  {
    var ts := Templates(db.tasks);
    ReconcileAllComplete(db, ts, now, horizonDays);
    var j :| 0 <= j < |ts| && ts[j] == t;
  }

  /** A second run with the same clock inserts nothing. */
  lemma Idempotent(db: Db, now: Instant, horizonDays: int)
    ensures var r := EnsureRecurringInstances(db, now, horizonDays);
      EnsureRecurringInstances(r, now, horizonDays) == r
  {
    var ts := Templates(db.tasks);
    var r := EnsureRecurringInstances(db, now, horizonDays);
    RunKeepsTemplates(db, now, horizonDays);
    ReconcileAllComplete(db, ts, now, horizonDays);
    ReconcileAllNoop(r, ts, now, horizonDays);
  }

  /** The rows a run adds are instances, never templates, so a second run sees the same templates. */
  lemma RunKeepsTemplates(db: Db, now: Instant, horizonDays: int)
    ensures Templates(EnsureRecurringInstances(db, now, horizonDays).tasks) == Templates(db.tasks)
  {
    var r := EnsureRecurringInstances(db, now, horizonDays);
    RunAddsNoTemplateRows(db, now, horizonDays);
    var added := r.tasks[|db.tasks|..];
    assert r.tasks == db.tasks + added by {
      assert r.tasks == r.tasks[..|db.tasks|] + added;
    }
    forall i | 0 <= i < |added|
      ensures !IsEligibleTemplate(added[i])
    {
      assert added[i] == r.tasks[|db.tasks| + i];
    }
    NoTemplates(added);
    TemplatesAppend(db.tasks, added);
  }

  /** A run only appends rows, and none of them is flagged as a template. */
  lemma RunAddsNoTemplateRows(db: Db, now: Instant, horizonDays: int)
    ensures var r := EnsureRecurringInstances(db, now, horizonDays);
      && |db.tasks| <= |r.tasks| && r.tasks[..|db.tasks|] == db.tasks
      && forall i :: |db.tasks| <= i < |r.tasks| ==> !r.tasks[i].isRecurringTemplate
  {
    var ts := Templates(db.tasks);
    var r := EnsureRecurringInstances(db, now, horizonDays);
    ReconcileAllShape(db, ts, now, horizonDays);
    forall i | |db.tasks| <= i < |r.tasks|
      ensures !r.tasks[i].isRecurringTemplate
    {
      var j :| 0 <= j < |ts| && InstanceOf(r.tasks[i], ts[j], now, horizonDays);
    }
  }

  lemma {:induction false} NoTemplates(s: seq<TaskRow>)
    requires forall i :: 0 <= i < |s| ==> !IsEligibleTemplate(s[i])
    ensures Templates(s) == []
  {
    if |s| > 0 {
      assert forall i :: 0 <= i < |s[1..]| ==> s[1..][i] == s[i + 1];
      NoTemplates(s[1..]);
    }
  }

  /** Only non-deleted rows block insertion: a day whose instances were all soft-deleted gets a new one,
      and the deleted rows stay where they were. */
  lemma RecreatesSoftDeleted(db: Db, now: Instant, horizonDays: int, t: TaskRow, d: Day)
    requires t in db.tasks && IsEligibleTemplate(t) && d in OccurrenceDays(t, now, horizonDays)
    requires !HasLiveInstance(db.tasks, t.id, d)
    ensures var r := EnsureRecurringInstances(db, now, horizonDays);
      |db.tasks| <= |r.tasks| && r.tasks[..|db.tasks|] == db.tasks &&
      exists i :: |db.tasks| <= i < |r.tasks| && IsLiveInstance(r.tasks[i], t.id, d)
  {
    var r := EnsureRecurringInstances(db, now, horizonDays);
    InsertOnly(db, now, horizonDays);
    Complete(db, now, horizonDays, t, d);
    var i :| 0 <= i < |r.tasks| && IsLiveInstance(r.tasks[i], t.id, d);
    assert forall k :: 0 <= k < |db.tasks| ==> r.tasks[k] == r.tasks[..|db.tasks|][k];
    assert |db.tasks| <= i;
  }

  /** At most one live row per (template, day) key. */
  predicate UniqueLiveInstances(tasks: seq<TaskRow>) {
    forall i, j :: (0 <= i < j < |tasks| && tasks[i].deletedAt.None? && tasks[j].deletedAt.None?
      && tasks[i].parentTemplateId.Some? && tasks[i].occurrenceDate.Some?) ==>
      (tasks[i].parentTemplateId != tasks[j].parentTemplateId || tasks[i].occurrenceDate != tasks[j].occurrenceDate)
  }

  lemma InsertDayKeepsUnique(db: Db, t: TaskRow, rule: RecurrenceRule, d: Day, now: Instant)
    requires UniqueLiveInstances(db.tasks)
    ensures UniqueLiveInstances(InsertDay(db, t, rule, d, now).tasks)
  {
    if !HasLiveInstance(db.tasks, t.id, d) {
      var s := InsertDay(db, t, rule, d, now).tasks;
      forall i, j | 0 <= i < j < |s| && s[i].deletedAt.None? && s[j].deletedAt.None?
          && s[i].parentTemplateId.Some? && s[i].occurrenceDate.Some?
        ensures s[i].parentTemplateId != s[j].parentTemplateId || s[i].occurrenceDate != s[j].occurrenceDate
      {
        if j == |db.tasks| {
          assert s[i] == db.tasks[i];
          assert !IsLiveInstance(db.tasks[i], t.id, d);
        } else {
          assert s[i] == db.tasks[i] && s[j] == db.tasks[j];
        }
      }
    }
  }

  lemma {:induction false} InsertDaysKeepsUnique(db: Db, t: TaskRow, rule: RecurrenceRule, days: seq<Day>, now: Instant)
    requires UniqueLiveInstances(db.tasks)
    ensures UniqueLiveInstances(InsertDays(db, t, rule, days, now).tasks)
    decreases |days|
  {
    if |days| > 0 {
      InsertDayKeepsUnique(db, t, rule, days[0], now);
      InsertDaysKeepsUnique(InsertDay(db, t, rule, days[0], now), t, rule, days[1..], now);
    }
  }

  lemma {:induction false} ReconcileAllKeepsUnique(db: Db, ts: seq<TaskRow>, now: Instant, horizonDays: int)
    requires UniqueLiveInstances(db.tasks)
    ensures UniqueLiveInstances(ReconcileAll(db, ts, now, horizonDays).tasks)
    decreases |ts|
  {
    if |ts| > 0 {
      match RuleOf(ts[0]) {
        case None =>
        case Some(rule) =>
          InsertDaysKeepsUnique(db, ts[0], rule, OccurrenceDays(ts[0], now, horizonDays), now);
      }
      ReconcileAllKeepsUnique(ReconcileOne(db, ts[0], now, horizonDays), ts[1..], now, horizonDays);
    }
  }

  /** The run never creates a second live instance for a key. */
  lemma KeepsInstancesUnique(db: Db, now: Instant, horizonDays: int)
    requires UniqueLiveInstances(db.tasks)
    ensures UniqueLiveInstances(EnsureRecurringInstances(db, now, horizonDays).tasks)
  {
    ReconcileAllKeepsUnique(db, Templates(db.tasks), now, horizonDays);
  }

  /** Appending rows under fresh consecutive ids keeps every primary key and the counter invariant. */
  lemma ExtendsKeepsWellFormed(db: Db, r: Db)
    requires WellFormed(db) && Extends(db, r)
    ensures WellFormed(r)
  {
    var old_ := TaskIds(db.tasks);
    var ids := TaskIds(r.tasks);
    forall i | 0 <= i < |ids|
      ensures ids[i] < r.nextId
    {
      if i < |db.tasks| {
        assert r.tasks[i] == r.tasks[..|db.tasks|][i];
        assert ids[i] == old_[i];
      }
    }
    forall i, j | 0 <= i < j < |ids|
      ensures ids[i] != ids[j]
    {
      if j < |db.tasks| {
        assert r.tasks[i] == r.tasks[..|db.tasks|][i] && r.tasks[j] == r.tasks[..|db.tasks|][j];
        assert ids[i] == old_[i] && ids[j] == old_[j];
      } else if i < |db.tasks| {
        assert r.tasks[i] == r.tasks[..|db.tasks|][i];
        assert ids[i] == old_[i];
      }
    }
    RaiseBound(SubtaskIds(r.subtasks), db.nextId, r.nextId);
    RaiseBound(CourseIds(r.courses), db.nextId, r.nextId);
    RaiseBound(LifeCategoryIds(r.lifeCategories), db.nextId, r.nextId);
    RaiseBound(TaskTypeIds(r.taskTypes), db.nextId, r.nextId);
  }

  /** A run keeps the store well-formed. */
  lemma KeepsWellFormed(db: Db, now: Instant, horizonDays: int)
    requires WellFormed(db)
    ensures WellFormed(EnsureRecurringInstances(db, now, horizonDays))
  {
    InsertOnly(db, now, horizonDays);
    ExtendsKeepsWellFormed(db, EnsureRecurringInstances(db, now, horizonDays));
  }
}
