/** The recurrence rule a template stores as JSON, after decoding. */
module Rules {
  import opened Wrappers
  import opened Calendar

  datatype Frequency = Daily | Weekly | Monthly

  datatype EndType = Never | Until | Count

  /** A parsed `"HH:MM"` wall-clock time; the numbers are not range-checked, as `setHours` is not. */
  datatype TimeOfDay = TimeOfDay(hours: int, minutes: int)

  /** `byWeekday` holds the two-letter codes as stored (`"MO"`, `"TU"`, ...); an empty list means absent.
      `timeOfDay` and `untilDate` are `None` when absent or empty; `count` is `None` only when the key
      is absent, and a count of `null` or `""`, which compares as 0, is written `Some(0)`. */
  datatype RecurrenceRule = RecurrenceRule(
    frequency: Frequency,
    interval: int,
    byWeekday: seq<string>,
    timeOfDay: Option<TimeOfDay>,
    endType: EndType,
    untilDate: Option<Day>,
    count: Option<int>)

  /** The stored `recurrenceRuleJson` text: either it decodes to a rule or `JSON.parse` throws. */
  datatype RuleJson = Unparseable | Parsed(rule: RecurrenceRule)

  /** `WEEKDAY_MAP`: the JavaScript weekday number of a two-letter code, Sunday being 0. */
  function WeekdayNumber(code: string): (r: Option<int>)
    ensures r.Some? ==> 0 <= r.value < 7
  {
    if code == "SU" then Some(0)
    else if code == "MO" then Some(1)
    else if code == "TU" then Some(2)
    else if code == "WE" then Some(3)
    else if code == "TH" then Some(4)
    else if code == "FR" then Some(5)
    else if code == "SA" then Some(6)
    else None
  }

  /** The code of JavaScript weekday number `w`. */
  function WeekdayCode(w: int): string
    requires 0 <= w < 7
  {
    ["SU", "MO", "TU", "WE", "TH", "FR", "SA"][w]
  }

  /** `WEEKDAY_MAP` is a bijection between the seven codes and 0..6; 1970-01-01 (day 0) is `"TH"`. */
  lemma WeekdayCodesBijective(c: string, w: int)
    requires 0 <= w < 7
    ensures WeekdayNumber(WeekdayCode(w)) == Some(w)
    ensures WeekdayNumber(c) == Some(w) ==> c == WeekdayCode(w)
    ensures WeekdayCode(Weekday(0)) == "TH"
  {
  }

  /** The reconciler's clean-up: `count` is dropped unless the end type is COUNT; nothing else changes. */
  function Normalize(rule: RecurrenceRule): (r: RecurrenceRule)
    ensures r.endType == Count || r.count.None?
    ensures r.endType == Count ==> r == rule
    ensures r.(count := rule.count) == rule
  {
    if rule.endType != Count then rule.(count := None) else rule
  }
}
