/** `dates.ts`: which list a task falls into on the home screen, and the overdue/today tests.
    "Now" is a parameter; a day is a UTC calendar day. */
module DueDates {
  import opened Wrappers
  import opened Calendar

  datatype TaskGroup = Overdue | Today | ThisWeek | Later

  /** `isPast`: strictly before now. */
  predicate IsPast(t: Instant, now: Instant) {
    t < now
  }

  /** `isToday`: on the same calendar day as now. */
  predicate IsToday(t: Instant, now: Instant) {
    DayOf(t) == DayOf(now)
  }

  /** `isWithinInterval`: between the two instants, both included. */
  predicate IsWithinInterval(t: Instant, start: Instant, end: Instant) {
    start <= t <= end
  }

  /** `endOfDay(addDays(today, 6))`: the last millisecond of the sixth day after today. */
  function EndOfWeek(now: Instant): (e: Instant)
    ensures DayOf(e) == DayOf(now) + 6 && DayOf(e + 1) == DayOf(now) + 7
  {
    var e := StartOfDay(DayOf(now) + 7) - 1;
    DayOfWithinDay(DayOf(now) + 6, e);
    DayOfWithinDay(DayOf(now) + 7, e + 1);
    e
  }

  /** `getTaskGroup`: no due date is 'later'; otherwise the tests run in `getTaskGroup`'s order. */
  function GetTaskGroup(dueAt: Option<Instant>, now: Instant): (g: TaskGroup)
    ensures dueAt.None? ==> g == Later
    ensures dueAt.Some? ==> (g == Overdue <==> DayOf(dueAt.value) < DayOf(now))
    ensures dueAt.Some? ==> (g == Today <==> DayOf(dueAt.value) == DayOf(now))
    ensures dueAt.Some? ==> (g == ThisWeek <==> DayOf(now) < DayOf(dueAt.value) <= DayOf(now) + 6)
    ensures dueAt.Some? ==> (g == Later <==> DayOf(dueAt.value) > DayOf(now) + 6)
  {
    if dueAt.None? then Later
    else
      var due := dueAt.value;
      var today := StartOfDay(DayOf(now));
      if IsPast(due, now) && !IsToday(due, now) then Overdue
      else if IsToday(due, now) then Today
      else if IsWithinInterval(due, today, EndOfWeek(now)) then ThisWeek
      else Later
  }

  /** The group depends on the due day's distance from today alone: the time of day does not
      matter, and shifting both days by the same amount keeps the group. */
  lemma GroupByDayDistance(due: Instant, now: Instant, due': Instant, now': Instant)
    requires DayOf(due) - DayOf(now) == DayOf(due') - DayOf(now')
    ensures GetTaskGroup(Some(due), now) == GetTaskGroup(Some(due'), now')
  {
  }

  /** Position of a group on the screen, top to bottom. */
  function Rank(g: TaskGroup): nat {
    match g
    case Overdue => 0
    case Today => 1
    case ThisWeek => 2
    case Later => 3
  }

  /** A later due date never moves a task to an earlier group. */
  lemma GroupMonotone(due: Instant, due': Instant, now: Instant)
    requires due <= due'
    ensures Rank(GetTaskGroup(Some(due), now)) <= Rank(GetTaskGroup(Some(due'), now))
  {
  }

  /** `isOverdue`: past, and not today. */
  function IsOverdue(dueAt: Option<Instant>, now: Instant): (b: bool)
    ensures b <==> dueAt.Some? && DayOf(dueAt.value) < DayOf(now)
  {
    if dueAt.None? then false
    else
      IsPast(dueAt.value, now) && !IsToday(dueAt.value, now)
  }

  /** `isDueToday`. */
  function IsDueToday(dueAt: Option<Instant>, now: Instant): (b: bool)
    ensures b <==> dueAt.Some? && DayOf(dueAt.value) == DayOf(now)
  {
    dueAt.Some? && IsToday(dueAt.value, now)
  }

  /** The two tests agree with the grouping: overdue exactly for the 'overdue' group and due
      today exactly for the 'today' group. */
  lemma TestsAgreeWithGroups(dueAt: Option<Instant>, now: Instant)
    ensures IsOverdue(dueAt, now) <==> GetTaskGroup(dueAt, now) == Overdue
    ensures IsDueToday(dueAt, now) <==> GetTaskGroup(dueAt, now) == Today
  {
  }

  /** `isDueWithinDays`: from now up to `days` whole days (of 24 hours) ahead, both ends included. */
  function IsDueWithinDays(dueAt: Option<Instant>, days: nat, now: Instant): (b: bool)
    ensures b <==> dueAt.Some? && now <= dueAt.value <= now + days * MsPerDay
  {
    dueAt.Some? && IsWithinInterval(dueAt.value, now, now + days * MsPerDay)
  }

  /** Widening the window never drops a task, and a task due within a week of now that is not
      overdue is grouped 'today' or 'this week'. */
  lemma WithinDaysMonotone(dueAt: Option<Instant>, days: nat, days': nat, now: Instant)
    requires days <= days'
    ensures IsDueWithinDays(dueAt, days, now) ==> IsDueWithinDays(dueAt, days', now)
    ensures IsDueWithinDays(dueAt, 6, now) ==> GetTaskGroup(dueAt, now) in {Today, ThisWeek}
  {
    assert days * MsPerDay <= days' * MsPerDay;
    if IsDueWithinDays(dueAt, 6, now) {
      assert DayOf(now + 6 * MsPerDay) == DayOf(now) + 6 by {
        DayOfWithinDay(DayOf(now) + 6, now + 6 * MsPerDay);
      }
    }
  }
}
