/** `expandRuleToDates`: a day-by-day scan of a window that keeps the days a rule selects.
    The DAILY and WEEKLY phase is the offset from the window start `from`, not from the
    template's anchor; the MONTHLY month difference is also counted from `from`; and the
    COUNT cap applies to the days of this one call. */
module Expander {
  import opened Wrappers
  import opened Calendar
  import opened Rules

  /** JavaScript's `a % k === 0`: false when `k` is 0 (the remainder is NaN). */
  predicate RemainderIsZero(a: int, k: int) {
    k != 0 && a % k == 0
  }

  /** Some code of `byWeekday` maps to the weekday of `d`. */
  predicate OnListedWeekday(rule: RecurrenceRule, d: Day) {
    exists i :: 0 <= i < |rule.byWeekday| && WeekdayNumber(rule.byWeekday[i]) == Some(Weekday(d))
  }

  /** Whole calendar months from the month of `from` to the month of `d`. */
  function MonthDiff(from: Day, d: Day): int {
    (Year(d) - Year(from)) * 12 + (Month(d) - Month(from))
  }

  /** The frequency test applied to day `d` (the `switch` on `rule.frequency`). */
  predicate Includes(rule: RecurrenceRule, from: Day, anchorDay: int, d: Day) {
    var offset := d - from;
    match rule.frequency
    case Daily => RemainderIsZero(offset, rule.interval)
    case Weekly =>
      if |rule.byWeekday| > 0 then
        OnListedWeekday(rule, d) && RemainderIsZero(offset / 7, rule.interval)
      else
        RemainderIsZero(offset / 7, rule.interval) && offset % 7 == 0
    case Monthly =>
      DayOfMonth(d) == anchorDay && MonthDiff(from, d) >= 0 && RemainderIsZero(MonthDiff(from, d), rule.interval)
  }

  /** The COUNT end condition stops the scan once `occurrences` days were kept. */
  predicate CountReached(rule: RecurrenceRule, occurrences: int) {
    rule.endType == Count && rule.count.Some? && occurrences >= rule.count.value
  }

  /** The UNTIL end condition stops the scan on the first day after `untilDate`'s day. */
  predicate PastUntil(rule: RecurrenceRule, d: Day) {
    rule.endType == Until && rule.untilDate.Some? && d > rule.untilDate.value
  }

  /** The cap COUNT puts on one call's result (none when the end type is not COUNT). */
  function CountCap(rule: RecurrenceRule): Option<nat> {
    if rule.endType == Count && rule.count.Some? then
      Some(if rule.count.value < 0 then 0 else rule.count.value)
    else None
  }

  /** The loop of `expandRuleToDates` from day `cur`, having kept `kept` days so far. */
  function Scan(rule: RecurrenceRule, from: Day, to: Day, anchorDay: int, cur: Day, kept: nat): (r: seq<Day>)
    ensures forall i :: 0 <= i < |r| ==> cur <= r[i] <= to
    ensures forall i, j :: 0 <= i < j < |r| ==> r[i] < r[j]
    ensures forall i :: 0 <= i < |r| ==> Includes(rule, from, anchorDay, r[i]) && !PastUntil(rule, r[i])
    ensures CountCap(rule).Some? ==> kept + |r| <= CountCap(rule).value || |r| == 0
    decreases 1 + to - cur
  {
    if cur > to then []
    else if CountReached(rule, kept) then []
    else if PastUntil(rule, cur) then []
    else if Includes(rule, from, anchorDay, cur) then [cur] + Scan(rule, from, to, anchorDay, cur + 1, kept + 1)
    else Scan(rule, from, to, anchorDay, cur + 1, kept)
  }

  /** The day of the month MONTHLY rules fire on: the anchor's, or `from`'s when no anchor is given. */
  function AnchorDayOfMonth(from: Day, anchor: Option<Day>): int {
    if anchor.Some? then DayOfMonth(anchor.value) else DayOfMonth(from)
  }

  /** The occurrence days of `rule` in the window `[from, to]`, ascending.
      `anchor` is the template's start day, used for the MONTHLY day of the month. */
  function ExpandRuleToDates(rule: RecurrenceRule, from: Day, to: Day, anchor: Option<Day>): (r: seq<Day>)
    ensures forall i :: 0 <= i < |r| ==> from <= r[i] <= to
    ensures forall i, j :: 0 <= i < j < |r| ==> r[i] < r[j]
    ensures forall i :: 0 <= i < |r| ==> Includes(rule, from, AnchorDayOfMonth(from, anchor), r[i])
    ensures rule.endType == Count && rule.count.Some? ==> |r| <= rule.count.value || |r| == 0
    ensures rule.endType == Until && rule.untilDate.Some? ==> forall i :: 0 <= i < |r| ==> r[i] <= rule.untilDate.value
  {
    Scan(rule, from, to, AnchorDayOfMonth(from, anchor), from, 0)
  }

  /** How many days of `[from, d)` pass the frequency test. */
  function MatchesBefore(rule: RecurrenceRule, from: Day, anchorDay: int, d: Day): nat
    decreases d - from
  {
    if d <= from then 0
    else MatchesBefore(rule, from, anchorDay, d - 1) + (if Includes(rule, from, anchorDay, d - 1) then 1 else 0)
  }

  lemma {:induction false} MatchesBeforeMonotone(rule: RecurrenceRule, from: Day, anchorDay: int, a: Day, b: Day)
    requires a <= b
    ensures MatchesBefore(rule, from, anchorDay, a) <= MatchesBefore(rule, from, anchorDay, b)
    decreases b - a
  {
    if a < b {
      MatchesBeforeMonotone(rule, from, anchorDay, a, b - 1);
    }
  }

  /** Membership in a scan: a day is kept iff it is in range, passes the frequency test,
      and neither end condition has fired by then. */
  lemma {:induction false} ScanMembership(rule: RecurrenceRule, from: Day, to: Day, anchorDay: int, cur: Day, kept: nat, d: Day)
    requires from <= cur && kept == MatchesBefore(rule, from, anchorDay, cur)
    ensures d in Scan(rule, from, to, anchorDay, cur, kept) <==>
      cur <= d <= to && Includes(rule, from, anchorDay, d) && !PastUntil(rule, d)
      && !CountReached(rule, MatchesBefore(rule, from, anchorDay, d))
    decreases 1 + to - cur
  {
    var r := Scan(rule, from, to, anchorDay, cur, kept);
    if cur > to {
      assert r == [];
    } else if CountReached(rule, kept) {
      assert r == [];
      if cur <= d {
        MatchesBeforeMonotone(rule, from, anchorDay, cur, d);
      }
    } else if PastUntil(rule, cur) {
      assert r == [];
    } else {
      var inc := Includes(rule, from, anchorDay, cur);
      var next := if inc then kept + 1 else kept;
      assert next == MatchesBefore(rule, from, anchorDay, cur + 1);
      var rest := Scan(rule, from, to, anchorDay, cur + 1, next);
      assert r == (if inc then [cur] + rest else rest);
      assert d in r <==> (d == cur && inc) || d in rest;
      ScanMembership(rule, from, to, anchorDay, cur + 1, next, d);
    }
  }

  /** The whole result, characterised day by day. */
  lemma ExpandMembership(rule: RecurrenceRule, from: Day, to: Day, anchor: Option<Day>, d: Day)
    ensures var dom := AnchorDayOfMonth(from, anchor);
      d in ExpandRuleToDates(rule, from, to, anchor) <==>
      from <= d <= to && Includes(rule, from, dom, d) && !PastUntil(rule, d)
      && !CountReached(rule, MatchesBefore(rule, from, dom, d))
  {
    ScanMembership(rule, from, to, AnchorDayOfMonth(from, anchor), from, 0, d);
  }

  /** Dropping `count` when the end type is not COUNT, as the reconciler does, never changes the result. */
  lemma NormalizeKeepsExpansion(rule: RecurrenceRule, from: Day, to: Day, anchor: Option<Day>)
    ensures ExpandRuleToDates(Normalize(rule), from, to, anchor) == ExpandRuleToDates(rule, from, to, anchor)
  {
    var n := Normalize(rule);
    var dom := AnchorDayOfMonth(from, anchor);
    assert forall d :: Includes(n, from, dom, d) == Includes(rule, from, dom, d);
    assert forall k :: CountReached(n, k) == CountReached(rule, k);
    ScanSameRule(n, rule, from, to, dom, from, 0);
  }

  lemma {:induction false} ScanSameRule(a: RecurrenceRule, b: RecurrenceRule, from: Day, to: Day, anchorDay: int, cur: Day, kept: nat)
    requires forall d :: Includes(a, from, anchorDay, d) == Includes(b, from, anchorDay, d)
    requires forall k :: CountReached(a, k) == CountReached(b, k)
    requires forall d :: PastUntil(a, d) == PastUntil(b, d)
    ensures Scan(a, from, to, anchorDay, cur, kept) == Scan(b, from, to, anchorDay, cur, kept)
    decreases 1 + to - cur
  {
    if cur <= to && !CountReached(a, kept) && !PastUntil(a, cur) {
      var next := if Includes(a, from, anchorDay, cur) then kept + 1 else kept;
      ScanSameRule(a, b, from, to, anchorDay, cur + 1, next);
    }
  }

  /** `[from, from + 1, ..., to]`. */
  function DayRange(from: Day, to: Day): (r: seq<Day>)
    ensures |r| == (if from <= to then to - from + 1 else 0)
    ensures forall i :: 0 <= i < |r| ==> (r[i] == from + i)
    decreases 1 + to - from
  {
    if from > to then [] else [from] + DayRange(from + 1, to)
  }

  lemma {:induction false} ScanEveryDay(rule: RecurrenceRule, from: Day, to: Day, anchorDay: int, cur: Day, kept: nat)
    requires rule.frequency == Daily && rule.interval == 1 && rule.endType == Never
    ensures Scan(rule, from, to, anchorDay, cur, kept) == DayRange(cur, to)
    decreases 1 + to - cur
  {
    if cur <= to {
      assert Includes(rule, from, anchorDay, cur);
      ScanEveryDay(rule, from, to, anchorDay, cur + 1, kept + 1);
    }
  }

  /** DAILY with interval 1 and no end condition yields every day of the window. */
  lemma DailyEveryDay(rule: RecurrenceRule, from: Day, to: Day, anchor: Option<Day>)
    requires rule.frequency == Daily && rule.interval == 1 && rule.endType == Never
    ensures ExpandRuleToDates(rule, from, to, anchor) == DayRange(from, to)
  {
    ScanEveryDay(rule, from, to, AnchorDayOfMonth(from, anchor), from, 0);
  }

  /** DAILY keeps a day iff its offset from the window start is a multiple of the interval. */
  lemma DailyMembership(rule: RecurrenceRule, from: Day, to: Day, anchor: Option<Day>, d: Day)
    requires rule.frequency == Daily && rule.endType == Never
    ensures d in ExpandRuleToDates(rule, from, to, anchor) <==>
      from <= d <= to && rule.interval != 0 && (d - from) % rule.interval == 0
  {
    ExpandMembership(rule, from, to, anchor, d);
  }

  lemma WeeksAndDays(a: int, k: int)
    requires a >= 0 && k > 0
    ensures (a / 7) % k == 0 && a % 7 == 0 <==> a % (7 * k) == 0
  {
    var w, r := a / 7, a % 7;
    assert a == 7 * w + r;
    var q, s := w / k, w % k;
    assert w == k * q + s;
    assert a == (7 * k) * q + (7 * s + r) by {
      calc {
        a;
        7 * w + r;
        7 * (k * q + s) + r;
        (7 * k) * q + (7 * s + r);
      }
    }
    assert 0 <= 7 * s + r < 7 * k;
    DivModUnique(a, 7 * k, q, 7 * s + r);
  }

  lemma DivModUnique(a: int, n: int, q: int, r: int)
    requires n > 0 && 0 <= r < n && a == n * q + r
    ensures a % n == r && a / n == q
  {
    var q', r' := a / n, a % n;
    assert n * (q - q') == r' - r;
    MulSign(n, q - q');
  }

  lemma MulSign(n: int, t: int)
    requires n > 0
    ensures t >= 1 ==> n * t >= n
    ensures t <= -1 ==> n * t <= -n
  {
  }

  /** WEEKLY without weekdays keeps a day iff its offset from the window start is a multiple of
      7 * interval; with weekdays, iff the weekday is listed and the week index is a multiple of the interval. */
  lemma WeeklyMembership(rule: RecurrenceRule, from: Day, to: Day, anchor: Option<Day>, d: Day)
    requires rule.frequency == Weekly && rule.endType == Never && rule.interval > 0
    ensures |rule.byWeekday| == 0 ==>
      (d in ExpandRuleToDates(rule, from, to, anchor) <==> from <= d <= to && (d - from) % (7 * rule.interval) == 0)
    ensures |rule.byWeekday| > 0 ==>
      (d in ExpandRuleToDates(rule, from, to, anchor) <==>
        from <= d <= to && OnListedWeekday(rule, d) && ((d - from) / 7) % rule.interval == 0)
  {
    ExpandMembership(rule, from, to, anchor, d);
    if from <= d {
      WeeksAndDays(d - from, rule.interval);
    }
  }

  /** MONTHLY keeps a day iff its day of the month is the anchor's and its month lies a
      non-negative multiple of the interval after `from`'s month. */
  lemma MonthlyMembership(rule: RecurrenceRule, from: Day, to: Day, anchor: Option<Day>, d: Day)
    requires rule.frequency == Monthly && rule.endType == Never
    ensures d in ExpandRuleToDates(rule, from, to, anchor) <==>
      from <= d <= to && DayOfMonth(d) == AnchorDayOfMonth(from, anchor)
      && MonthDiff(from, d) >= 0 && RemainderIsZero(MonthDiff(from, d), rule.interval)
  {
    ExpandMembership(rule, from, to, anchor, d);
  }

  /** MONTHLY never clamps: an anchor on the 31st fires only in 31-day months,
      and an anchor on the 30th or 31st never fires in February. */
  lemma MonthlyNeverClamps(rule: RecurrenceRule, from: Day, to: Day, anchor: Option<Day>)
    requires rule.frequency == Monthly
    ensures AnchorDayOfMonth(from, anchor) == 31 ==>
      forall d :: d in ExpandRuleToDates(rule, from, to, anchor) ==> Month(d) in {1, 3, 5, 7, 8, 10, 12}
    ensures AnchorDayOfMonth(from, anchor) >= 30 ==>
      forall d :: d in ExpandRuleToDates(rule, from, to, anchor) ==> Month(d) != 2
  {
    var r := ExpandRuleToDates(rule, from, to, anchor);
    forall d | d in r
      ensures DayOfMonth(d) == AnchorDayOfMonth(from, anchor)
    {
      var i :| 0 <= i < |r| && r[i] == d;
    }
    forall d | d in r
      ensures DayOfMonth(d) == 31 ==> Month(d) in {1, 3, 5, 7, 8, 10, 12}
      ensures DayOfMonth(d) >= 30 ==> Month(d) != 2
    {
      LongDayOfMonthOnlyInLongMonths(d);
    }
  }
}
