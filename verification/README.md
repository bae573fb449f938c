# mytodo core, modelled in Dafny

mytodo is a desktop to-do application for school and life tasks, backed by SQLite. This project
models its core logic:

- the recurrence engine (`recurrence.ts`). `expandRuleToDates` turns a DAILY, WEEKLY or MONTHLY
  rule into the days it falls on within a window. `ensureRecurringInstances` inserts one task
  instance for every template occurrence up to the horizon that has no live instance yet;
- the grade mathematics of a course (`gradeMath.ts`): weight totals, the grade so far, the
  projected and needed final grades, and the warnings list;
- the repositories over the SQLite tables `tasks`, `subtasks`, `task_types`, `courses` and
  `life_categories`;
- the database client's lock detection, retry loop and schema-migration runner (`client.ts`);
- the due-date grouping of the home screen (`dates.ts`) and the task-type colour lookup
  (`taskTypeColors.ts`).

The database is one immutable value, `Store.Db`. Each table is a sequence of rows in rowid
order. New ids come from a counter, `nextId`. Each repository call becomes a function from the
store (plus its inputs and the current instant) to a new store and a result. `Result` stands for
"returns or throws" and `Option` for a nullable column. JavaScript's `||` and `??` defaults are
written out as `OrNull`, `OrElse`, `NumberOrNull` and `GetOr`. Instants are integer
milliseconds. Days are integers counted from 1970-01-01. A proleptic Gregorian calendar
(`Calendar`) supplies the day of the month, the month, the year and the weekday, with its round
trip proved. `Store.WellFormed` is the store invariant: every table's ids are distinct and below
the counter, and task-type names are unique. Every inserting operation is proved to keep it.

The model follows what the code does, including where that differs from what its comments suggest:

- the reconciler skips an occurrence only when a *non-deleted* instance exists for it, so a
  soft-deleted instance is recreated (`Reconciler.RecreatesSoftDeleted`);
- a COUNT end condition caps the days of one expansion call, not the instances created over the
  series' life;
- only templates in the `life` workspace are expanded;
- DAILY and WEEKLY intervals count from the expansion start, and once a template's start is in
  the past that start is today (`Reconciler.WindowStart`, `Expander.DailyMembership`). So an
  every-other-day series reconciled on two consecutive days gets instances on both days;
- `createLifeCategory` does not reject duplicate names. `createTaskType` turns a duplicate into
  a read of the existing type, through `INSERT OR IGNORE` and the unique index on names.

## Model

| member | source | states |
|---|---|---|
| Calendar.DayOf | src/services/recurrence.ts:31-32 | the day of an instant is the one whose midnight is at or before it and whose next midnight is after it |
| Calendar.DayOfWithinDay | src/services/recurrence.ts:31-35 | every instant between a day's midnight and the next maps back to that day |
| Calendar.DayOfMonotone | src/services/recurrence.ts:42 | a later instant never falls on an earlier day, so the scan's `current <= end` test is a test on days |
| Calendar.CivilFromDays | src/services/recurrence.ts:87-90 | the calendar date of a day is a valid date that converts back to the same day |
| Calendar.CivilRoundTrip | src/services/recurrence.ts:87-90 | converting a valid date to a day and back gives the same date |
| Calendar.DaysFromCivilInjective | src/services/recurrence.ts:87-90 | two valid dates on the same day are the same date |
| Calendar.WithinYear | src/services/recurrence.ts:87-90 | a valid date's day lies between its year's first day and the next year's |
| Calendar.SameYear | src/services/recurrence.ts:87-90 | two valid dates on the same day have the same year |
| Calendar.SameMonth | src/services/recurrence.ts:87-90 | two valid dates of one year at the same day of the year have the same month |
| Calendar.YearOfDay | src/services/recurrence.ts:89 | the year of a day (`getFullYear`) is the one whose first and next-year first days bracket it |
| Calendar.Weekday | src/services/recurrence.ts:66 | `getDay()` lies in 0..6 |
| Calendar.WeekdayCycle | src/services/recurrence.ts:66 | weekdays advance by one each day, repeat every seven days, and 1970-01-01 was a Thursday |
| Calendar.LongDayOfMonthOnlyInLongMonths | src/services/recurrence.ts:87 | the 31st occurs only in the 31-day months, the 30th never in February, and the 29th of February only in leap years |
| Rules.WeekdayNumber | src/services/recurrence.ts:7-15 | a weekday code maps to a weekday number in 0..6, or to nothing |
| Rules.WeekdayCodesBijective | src/services/recurrence.ts:7-15 | the seven codes and the seven weekday numbers correspond one to one, with SU as 0 and TH as the weekday of day 0 |
| Rules.Normalize | src/services/recurrence.ts:164-167 | a rule whose end type is not COUNT loses its count, and nothing else of the rule changes |
| Expander.Scan | src/services/recurrence.ts:42-106 | the scan from a day keeps ascending days within the window that the frequency test includes, none after UNTIL, and no more than COUNT |
| Expander.ExpandRuleToDates | src/services/recurrence.ts:24-109 | the occurrences are strictly ascending, lie in the window, pass the frequency test, respect UNTIL and never exceed COUNT |
| Expander.MatchesBeforeMonotone | src/services/recurrence.ts:98-101 | the number of matching days before a day never decreases as the day advances |
| Expander.ScanMembership | src/services/recurrence.ts:42-106 | a day is kept by the scan exactly when it is in range, included, not after UNTIL, and fewer than COUNT matches precede it |
| Expander.ExpandMembership | src/services/recurrence.ts:42-106 | a day is an occurrence exactly when it lies in the window, passes the frequency test, is not after UNTIL, and fewer than COUNT matching days precede it |
| Expander.NormalizeKeepsExpansion | src/services/recurrence.ts:164-167 | dropping the count of a non-COUNT rule does not change its expansion |
| Expander.ScanSameRule | src/services/recurrence.ts:42-106 | two rules that include, stop on UNTIL and stop on COUNT alike scan to the same days |
| Expander.DayRange | src/services/recurrence.ts:42 | the days of a window are consecutive, from the first day to the last |
| Expander.ScanEveryDay | src/services/recurrence.ts:56-61 | an every-day rule without an end keeps every day scanned |
| Expander.DailyEveryDay | src/services/recurrence.ts:56-61 | a daily rule with interval 1 and no end yields every day of the window |
| Expander.DailyMembership | src/services/recurrence.ts:56-61 | a daily rule includes exactly the days whose distance from the start is a multiple of the interval; an interval of 0 includes none |
| Expander.WeeksAndDays | src/services/recurrence.ts:78-79 | "week count divisible by k and whole weeks" is the same as "day count divisible by 7k" |
| Expander.WeeklyMembership | src/services/recurrence.ts:63-83 | without weekdays a weekly rule falls every 7·interval days from the start; with weekdays it falls on a listed weekday in every interval-th week |
| Expander.MonthlyMembership | src/services/recurrence.ts:85-95 | a monthly rule falls on the anchor's day of the month, in months a multiple of the interval after the start month |
| Expander.MonthlyNeverClamps | src/services/recurrence.ts:87 | a monthly rule anchored on the 31st only falls in 31-day months, and one anchored on the 30th or 31st never falls in February |
| Reconciler.Templates | src/services/recurrence.ts:122-151 | the templates are exactly the live, recurring, life-workspace task rows |
| Reconciler.TemplatesAppend | src/services/recurrence.ts:147-151 | selecting templates distributes over concatenation of tables |
| Reconciler.WindowStart | src/services/recurrence.ts:169-188 | the expansion starts on the template's due day, or on today when that is earlier or absent |
| Reconciler.OccurrenceDays | src/services/recurrence.ts:153-191 | a template's occurrence days ascend strictly and lie between its start day and the horizon; an absent or unparseable rule gives none |
| Reconciler.InstanceDue | src/services/recurrence.ts:213-228 | an instance is due at the rule's time of day; otherwise at the template's time of day on the occurrence day; otherwise at midnight |
| Reconciler.ExtendsTrans | src/services/recurrence.ts:194-259 | appending instances in two steps is still appending instances |
| Reconciler.ExtendsKeepsLive | src/services/recurrence.ts:199-210 | a live instance present before an insertion is still present after it |
| Reconciler.InsertDaysShape | src/services/recurrence.ts:194-259 | inserting a template's days only appends rows, each under the next fresh id |
| Reconciler.InsertDaysComplete | src/services/recurrence.ts:194-259 | after inserting a template's days, each of them has a live instance |
| Reconciler.InsertDaysNoop | src/services/recurrence.ts:207-210 | when every day already has a live instance nothing is inserted |
| Reconciler.ReconcileOneShape | src/services/recurrence.ts:153-259 | reconciling one template appends only rows that are instances of it |
| Reconciler.ReconcileAllShape | src/services/recurrence.ts:153-259 | reconciling a list of templates appends only instances of those templates |
| Reconciler.ReconcileAllComplete | src/services/recurrence.ts:153-259 | after reconciling, every occurrence day of every template has a live instance |
| Reconciler.ReconcileAllNoop | src/services/recurrence.ts:207-210 | when every occurrence already has a live instance the store is unchanged |
| Reconciler.InsertOnly | src/services/recurrence.ts:115-261 | the run only appends task rows under fresh ids; every other table is left alone |
| Reconciler.NewRowsAreInstances | src/services/recurrence.ts:230-258 | every row the run adds copies a template's title, description, type, category and tags, and is a live 'todo' life task on one of its occurrence days |
| Reconciler.NewRowsInWindow | src/services/recurrence.ts:185-191 | every added row's occurrence day lies between its template's start (not before today) and today plus the horizon |
| Reconciler.Complete | src/services/recurrence.ts:194-210 | after the run every occurrence of every template has a live instance |
| Reconciler.Idempotent | src/services/recurrence.ts:199-210 | running the reconciler twice at the same instant adds nothing the second time |
| Reconciler.RunKeepsTemplates | src/services/recurrence.ts:147-151 | the rows a run adds are no templates, so the next run selects the same templates |
| Reconciler.RunAddsNoTemplateRows | src/services/recurrence.ts:230-258 | a run keeps the existing rows in front and adds only rows not flagged as templates |
| Reconciler.EnsureRecurringInstancesDefault | src/services/recurrence.ts:115 | without an argument the horizon is 90 days; the run only appends instances, and a second run adds nothing |
| Reconciler.NoTemplates | src/services/recurrence.ts:147-151 | a table without eligible templates yields no templates |
| Reconciler.RecreatesSoftDeleted | src/services/recurrence.ts:199-205 | an occurrence whose only instances are soft-deleted gets a new live instance |
| Reconciler.InsertDayKeepsUnique | src/services/recurrence.ts:199-210 | inserting a missing occurrence keeps at most one live instance per template and day |
| Reconciler.InsertDaysKeepsUnique | src/services/recurrence.ts:194-259 | inserting a template's missing days keeps at most one live instance per template and day |
| Reconciler.ReconcileAllKeepsUnique | src/services/recurrence.ts:153-259 | reconciling a list of templates keeps at most one live instance per template and day |
| Reconciler.KeepsInstancesUnique | src/services/recurrence.ts:199-210 | the run never creates a second live instance for a template and day |
| Reconciler.ExtendsKeepsWellFormed | src/services/recurrence.ts:231 | appending rows under fresh ids keeps the store's ids distinct |
| Reconciler.KeepsWellFormed | src/services/recurrence.ts:115-261 | the run keeps the store well-formed |
| GradeMath.N | src/services/gradeMath.ts:10-14 | a number is read only when it is finite, and then as itself |
| GradeMath.TotalCountedWeight | src/services/gradeMath.ts:17-23 | the total weight is non-negative, and zero exactly when no counted task has a positive weight |
| GradeMath.CompletedWeight | src/services/gradeMath.ts:25-29 | the graded weight lies between zero and the total counted weight |
| GradeMath.ComputeWeightStats | src/services/gradeMath.ts:16-34 | completed weight is at most the total, and remaining plus total is 100 |
| GradeMath.SumW | src/services/gradeMath.ts:42-52 | the graded weight sum is non-negative, and zero exactly when no task contributes |
| GradeMath.ComputeCurrentSoFar | src/services/gradeMath.ts:37-56 | no grade exactly when no counted, graded task has both a positive weight and a grade; otherwise the weighted mean of the grades |
| GradeMath.ComputeProjectedOverall | src/services/gradeMath.ts:59-73 | the projected grade is the sum of grade times weight over 100 |
| GradeMath.ProjectedSumIsScaledSum | src/services/gradeMath.ts:64-72 | summing each task's scaled product equals scaling the sum of products |
| GradeMath.ComputeKnownContribution | src/services/gradeMath.ts:75-78 | the known contribution is the projected overall grade |
| GradeMath.ProjectedIsCurrentTimesGradedWeight | src/services/gradeMath.ts:37-73 | the projected grade is the grade so far times the graded weight over 100, or 0 when there is no grade so far |
| GradeMath.NoContributionNoProducts | src/services/gradeMath.ts:45-52 | with no contributing task the sum of products is zero |
| GradeMath.CurrentSoFarWithin | src/services/gradeMath.ts:37-56 | the grade so far lies within any bounds that hold every contributing grade, so between their least and greatest |
| GradeMath.CurrentSoFarIsPercent | src/services/gradeMath.ts:54-55 | when every contributing grade is a percentage, so is the grade so far |
| GradeMath.ProductsWithin | src/services/gradeMath.ts:45-52 | with every contributing grade in `[lo, hi]`, the sum of products lies between `lo` and `hi` times the weight sum |
| GradeMath.ScaledIsProduct | src/services/gradeMath.ts:45-52 | scaling each contributing weight by `c` and summing is scaling the weight sum by `c` |
| GradeMath.ScaledBelowProducts | src/services/gradeMath.ts:45-52 | the sum of products lies between the weights scaled by the lower and by the upper bound |
| GradeMath.ScaledBelow | src/services/gradeMath.ts:45-52 | the weights scaled by a lower bound on the grades never exceed the sum of products |
| GradeMath.ScaledAbove | src/services/gradeMath.ts:45-52 | the sum of products never exceeds the weights scaled by an upper bound on the grades |
| GradeMath.QuotientWithin | src/services/gradeMath.ts:54-55 | a value that scales a positive weight to a sum lying between `lo` and `hi` times that weight lies within `[lo, hi]` |
| GradeMath.MeanWithin | src/services/gradeMath.ts:54-55 | when the sum of products lies between `lo` and `hi` times the weight sum, so does the grade so far |
| GradeMath.ComputeNeededFinal | src/services/gradeMath.ts:80-88 | a needed grade exists exactly when the final's weight is finite and positive, and scoring it on the final reaches the target |
| GradeMath.NeededFinalMonotone | src/services/gradeMath.ts:86-87 | a higher target or a smaller known contribution never lowers the needed final grade |
| GradeMath.TaskWarnings | src/services/gradeMath.ts:106-130 | a task is reported as missing weight exactly when it is counted without a positive weight, and as missing a grade exactly when it is counted, graded and has none |
| GradeMath.WarningsOfKinds | src/services/gradeMath.ts:106-130 | the per-task loop only raises missing-weight and missing-grade warnings |
| GradeMath.WarningsOfMembers | src/services/gradeMath.ts:106-130 | the per-task loop raises a missing-weight warning exactly for a counted task without a positive weight, and a missing-grade warning exactly for a counted, graded task without a grade |
| GradeMath.WarningsOfAppend | src/services/gradeMath.ts:106-130 | the loop over two listings in a row yields the first's warnings, then the second's |
| GradeMath.WarningsOfCount | src/services/gradeMath.ts:106-130 | the loop raises each warning once per task that qualifies for it |
| GradeMath.FinalWarning | src/services/gradeMath.ts:132-139 | one warning when the final is missing, one when its weight is missing or zero, none otherwise |
| GradeMath.BuildGradeWarnings | src/services/gradeMath.ts:90-142 | the over-100 warning comes first, exactly when the total exceeds 100.0001, and carries the total; the per-task and final warnings appear exactly in their cases |
| GradeMath.TaskWarningsOne | src/services/gradeMath.ts:106-130 | one task raises at most its missing-weight warning, then at most its missing-grade warning, each exactly in its case |
| GradeMath.TaskWarningsAppend | src/services/gradeMath.ts:106-130 | the warnings of two listings in a row are the first's followed by the second's, so they follow task order |
| GradeMath.TaskWarningsCount | src/services/gradeMath.ts:106-130 | each warning occurs once per task that raises it |
| GradeMath.BuildGradeWarningsLayout | src/services/gradeMath.ts:90-142 | the list is the optional over-100 warning, then the task warnings in task order, then the final warning last, with one warning per qualifying task |
| GradeMath.WarningsOverFirst | src/services/gradeMath.ts:97-104 | the total-weight warning is present exactly when the total exceeds 100.0001, carries the total, and is first |
| GradeMath.WarningsPerTask | src/services/gradeMath.ts:106-130 | the missing-weight and missing-grade warnings of the whole list are those of the per-task loop |
| GradeMath.WarningsFinalLast | src/services/gradeMath.ts:132-139 | the final-missing warning is present exactly without a final task, and the final-weight warning exactly when the final has no positive weight |
| GradeMath.LayoutOfWarnings | src/services/gradeMath.ts:90-142 | the warnings are the optional total warning, the per-task loop's warnings, and at most one final warning, in that order, one per qualifying task |
| GradeMath.CountsOfWarnings | src/services/gradeMath.ts:90-142 | neither the total nor the final warning is a per-task warning, so each per-task warning occurs once per qualifying task |
| GradeMath.SameGradeSameReadings | src/services/gradeMath.ts:17-21 | every reading of a task depends on its grade row alone |
| GradeMath.SameGradesTail | src/services/gradeMath.ts:16-34 | lists with the same grades still have the same grades without their first task |
| GradeMath.SameGradesSameSums | src/services/gradeMath.ts:16-56 | lists with the same grades have the same weight sums |
| GradeMath.SameGradesSameProducts | src/services/gradeMath.ts:42-52 | lists with the same grades have the same sum of products |
| GradeMath.SameGradesSameTaskWarnings | src/services/gradeMath.ts:106-130 | lists with the same grades, ids and titles give the same task warnings |
| GradeMath.OnlyGradesMatter | src/services/gradeMath.ts:16-142 | every computation depends only on the tasks' grade rows, ids and titles |
| Store.OrNull | src/db/tasks.repo.ts:237 | `x \|\| null` keeps a non-empty string and turns an empty or absent one into null |
| Store.OrElse | src/db/tasks.repo.ts:239 | `x \|\| d` keeps a non-empty string and falls back to `d` otherwise |
| Store.NumberOrNull | src/db/tasks.repo.ts:245 | `x \|\| null` keeps a non-zero number and turns zero or absent into null |
| Store.LiveCourse | src/db/tasks.repo.ts:68 | the joined course is a non-deleted course with the task's course id, and is absent only when there is none |
| Store.LiveCategory | src/db/tasks.repo.ts:69 | the joined category is a non-deleted category with the task's category id, and is absent only when there is none |
| Store.AppendFreshId | src/lib/utils.ts:4-10 | appending the counter's id to distinct ids below it keeps them distinct and below the next counter |
| Store.RaiseBound | src/lib/utils.ts:4-10 | ids below a bound are below any larger bound |
| Sorting.Insert | src/db/subtasks.repo.ts:8 | inserting into a sorted list keeps it sorted and adds exactly the one element |
| Sorting.InsertBehindHead | src/db/subtasks.repo.ts:8 | when the new element goes behind the head, the head still precedes every element after it, and nothing is lost or added |
| Sorting.SortBy | src/db/taskTypes.repo.ts:8 | `ORDER BY` yields a sorted permutation of its input |
| Text.LeadingSpace | src/db/taskTypes.repo.ts:16 | the leading run of whitespace ends at the first non-whitespace character |
| Text.TrailingStart | src/db/taskTypes.repo.ts:16 | the trailing run of whitespace starts after the last non-whitespace character |
| Text.Trim | src/db/taskTypes.repo.ts:16 | `trim()` removes only whitespace, from both ends, and leaves no whitespace at either end |
| Text.TrimIdempotent | src/db/taskTypes.repo.ts:16 | trimming twice is trimming once |
| Text.ToLower | src/db/client.ts:30 | lower-casing keeps the length and maps each character on its own |
| Text.LowerCharIdempotent | src/db/client.ts:30 | lower-casing a lower-cased character changes nothing |
| Text.ToLowerIdempotent | src/db/client.ts:30 | lower-casing twice is lower-casing once |
| Text.ToLowerSlice | src/db/client.ts:30 | lower-casing commutes with taking a slice |
| Text.Contains | src/db/client.ts:30 | `includes` holds exactly when the pattern occurs at some position |
| Text.LexLeTotal | src/db/taskTypes.repo.ts:8 | any two names are ordered one way or the other by `ORDER BY name` |
| Text.LexLeTransitive | src/db/taskTypes.repo.ts:8 | the name order is transitive |
| Text.LexLeAntisymmetric | src/db/taskTypes.repo.ts:8 | two names ordered both ways are equal |
| TasksRepo.GetTaskById | src/db/tasks.repo.ts:215-222 | the row found is a live row with the id, and none is found exactly when no live row has it |
| TasksRepo.GetTaskByIdFindsLiveRow | src/db/tasks.repo.ts:215-222 | with distinct ids, every live row is the one found under its id |
| TasksRepo.CreateTask | src/db/tasks.repo.ts:224-256 | a course id naming no course fails the foreign key; otherwise one row is appended under the fresh id and returned |
| TasksRepo.CreateTaskDefaults | src/db/tasks.repo.ts:229-254 | the created task reads back by id, keeps the store well-formed, and takes the defaults: type 'Other', status 'todo', source 'manual', workspace 'school' with a course or 'life' without, effort 0 as null |
| TasksRepo.WriteRows | src/db/tasks.repo.ts:286-299 | the UPDATE rewrites exactly the rows with the id |
| TasksRepo.GetAfterWrite | src/db/tasks.repo.ts:320-322 | after the UPDATE the task read back is the updated row |
| TasksRepo.UpdateTask | src/db/tasks.repo.ts:258-324 | the update fails exactly for an unknown or deleted task, an empty workspace, or a course id naming no course; otherwise only that task's rows change and the updated task is returned |
| TasksRepo.UpdateTaskWrites | src/db/tasks.repo.ts:264-299 | a valid update returns the current task with the merged fields written and the workspace kept when not given |
| TasksRepo.UpdateTaskMerge | src/db/tasks.repo.ts:264-282 | an omitted field keeps its value, a given one replaces it, an empty string or zero becomes null (type becomes 'Other'), and nothing else changes but `updated_at` |
| TasksRepo.EmptyUpdateOnlyTouchesTimestamp | src/db/tasks.repo.ts:264-299 | an update with no fields only sets `updated_at` |
| TasksRepo.DeleteTask | src/db/tasks.repo.ts:326-329 | deleting sets `deleted_at` on the rows with the id and changes nothing else |
| TasksRepo.DeleteThenGet | src/db/tasks.repo.ts:326-329 | after deleting, the task is not found, other tasks are found as before, and no row loses any other field |
| TasksRepo.DeleteKeepsOthers | src/db/tasks.repo.ts:215-222 | changing only rows with one id does not change what is found under another id |
| TasksRepo.GradesOf | src/db/tasks.repo.ts:67 | the grade rows joined to a task are exactly those with its id |
| TasksRepo.JoinTask | src/db/tasks.repo.ts:66-69 | a task joins to at least one row, each carrying the task itself |
| TasksRepo.JoinTaskRows | src/db/tasks.repo.ts:66-69 | every joined row has the task's live course and category, and a grade of the task exactly when it has one |
| TasksRepo.JoinAll | src/db/tasks.repo.ts:66-139 | the joined rows come from tasks passing the filters, and every such task contributes a row |
| TasksRepo.JoinAllStep | src/db/tasks.repo.ts:66-139 | putting the first task's joined rows in front of the rest's keeps both promises of the join |
| TasksRepo.RowIdsCons | src/db/tasks.repo.ts:145-210 | the ids of a list are its first row's id plus the ids of the rest |
| TasksRepo.Dedup | src/db/tasks.repo.ts:145-210 | keeping the first row of each task id yields distinct ids, the same set of ids, and for each id its first row |
| TasksRepo.Views | src/db/tasks.repo.ts:148-208 | each joined row is shaped into one task view, in order |
| TasksRepo.GetAllTasks | src/db/tasks.repo.ts:18-213 | the listed tasks are distinct tasks of the store that pass the filters |
| TasksRepo.GetAllTasksFilters | src/db/tasks.repo.ts:70-139 | each listed task is live, not done unless completed tasks are included, and in the given courses, types, status and workspace |
| TasksRepo.GetAllTasksComplete | src/db/tasks.repo.ts:70-139 | every task that passes the filters is listed |
| TasksRepo.GetAllTasksJoins | src/db/tasks.repo.ts:148-208 | a listed task carries its live course (colour defaulted when empty), its live category, and a grade exactly when one exists |
| TasksRepo.GetAllTasksFirstRowWins | src/db/tasks.repo.ts:145-210 | each listed task is shaped from the first joined row for its id |
| SubtasksRepo.SubtasksOf | src/db/subtasks.repo.ts:7-9 | selecting by task id keeps exactly that task's subtasks, each as often as it occurs |
| SubtasksRepo.GetSubtasksByTaskId | src/db/subtasks.repo.ts:5-15 | the subtasks of a task, sorted by order index, as a permutation of the selected rows |
| SubtasksRepo.GetSubtasksExactly | src/db/subtasks.repo.ts:5-15 | the listing holds each of the task's subtasks as often as the table does, no other, in ascending order index |
| SubtasksRepo.MaxOrder | src/db/subtasks.repo.ts:23-26 | the largest order index of the task's subtasks, attained by one of them, or -1 when it has none |
| SubtasksRepo.FindSubtask | src/db/subtasks.repo.ts:35-40 | the row found has the id, and none is found exactly when no row has it |
| SubtasksRepo.CreateSubtask | src/db/subtasks.repo.ts:17-47 | it fails exactly when no task row has the id (the foreign key); otherwise one row is appended under the fresh id and returned |
| SubtasksRepo.CreateSubtaskOrder | src/db/subtasks.repo.ts:17-47 | the new subtask is not done, has the given text and order index, or else one past the largest (0 for a task's first), and the store stays well-formed |
| SubtasksRepo.CreateSubtaskAppends | src/db/subtasks.repo.ts:29-41 | with fresh ids, creating appends exactly the new row and returns it |
| SubtasksRepo.AppendSubtaskKeepsWellFormed | src/db/subtasks.repo.ts:29-33 | appending a subtask under the counter's id keeps the store well-formed |
| SubtasksRepo.FirstOfFreshId | src/db/subtasks.repo.ts:35-40 | a row appended under a fresh id is the one read back |
| SubtasksRepo.ApplySubtaskUpdate | src/db/subtasks.repo.ts:53-72 | text, done and order index are replaced when given and kept otherwise; `updated_at` is set; identity is kept |
| SubtasksRepo.UpdateSubtask | src/db/subtasks.repo.ts:49-90 | it fails exactly when no row has the id; otherwise it rewrites exactly the rows with the id and returns the updated row |
| SubtasksRepo.FindAfterUpdate | src/db/subtasks.repo.ts:78-84 | after the UPDATE the row read back is the updated first row with the id |
| SubtasksRepo.EmptySubtaskUpdate | src/db/subtasks.repo.ts:49-90 | an update with no fields only sets `updated_at` |
| SubtasksRepo.WithoutId | src/db/subtasks.repo.ts:94 | the rows left by `DELETE … WHERE id = ?`: none with the id, every other row as often as it is stored |
| SubtasksRepo.DeleteSubtask | src/db/subtasks.repo.ts:92-95 | deleting removes exactly the rows with the id and keeps every other row as often as it was stored; no other table changes |
| SubtasksRepo.DeleteSubtaskRemoves | src/db/subtasks.repo.ts:92-95 | after deleting the id is not found, and the table shrinks when it was |
| SubtasksRepo.DeleteShrinks | src/db/subtasks.repo.ts:94 | deleting an existing id removes at least one row |
| SubtasksRepo.DeleteNoLonger | src/db/subtasks.repo.ts:94 | deleting never adds rows |
| SubtasksRepo.LastIndexOf | src/db/subtasks.repo.ts:100-105 | the position a repeated id ends up with is its last position in the list |
| SubtasksRepo.ReorderSubtasks | src/db/subtasks.repo.ts:97-107 | each subtask of the task listed in the ids takes its last position there as order index, and every other row is untouched |
| TaskTypesRepo.LiveTypes | src/db/taskTypes.repo.ts:8 | the selected types are exactly the non-deleted ones |
| TaskTypesRepo.NameLeIsTotalPreorder | src/db/taskTypes.repo.ts:8 | ordering by name is a total preorder |
| TaskTypesRepo.GetTaskTypes | src/db/taskTypes.repo.ts:5-10 | the live types sorted by name, as a permutation |
| TaskTypesRepo.GetTaskTypesExactly | src/db/taskTypes.repo.ts:5-10 | with unique names, the listing holds exactly the live types in strictly ascending name order |
| TaskTypesRepo.TwoCopies | src/db/taskTypes.repo.ts:8 | a row at two positions occurs at least twice |
| TaskTypesRepo.LiveTypesCount | src/db/taskTypes.repo.ts:8 | the selection never holds a row more often than the table |
| TaskTypesRepo.OneCopy | src/db/taskTypes.repo.ts:8 | with unique names a row occurs once |
| TaskTypesRepo.FindLiveType | src/db/taskTypes.repo.ts:26-29 | the row found is live with the name, and none is found exactly when no live row has it |
| TaskTypesRepo.CreateTaskType | src/db/taskTypes.repo.ts:12-32 | a new trimmed name is appended with the colour or the default; an existing live name is returned unchanged; it fails exactly when the name belongs only to deleted types |
| TaskTypesRepo.FindAfterAppend | src/db/taskTypes.repo.ts:26-29 | a row appended under a new name is the one found for it |
| TaskTypesRepo.CreateTaskTypeIdempotent | src/db/taskTypes.repo.ts:12-32 | creating the same name again returns the same type and adds no row |
| TaskTypesRepo.CreateTaskTypeKeepsWellFormed | src/db/taskTypes.repo.ts:12-32 | creating a type keeps ids distinct and names unique |
| TaskTypesRepo.UpdateTaskType | src/db/taskTypes.repo.ts:34-53 | it fails exactly when the trimmed new name belongs to another type; otherwise it rewrites exactly the rows with the id |
| TaskTypesRepo.UpdateTaskTypeKeepsNamesUnique | src/db/taskTypes.repo.ts:34-53 | a successful update keeps the store well-formed |
| TaskTypesRepo.TypeNameOf | src/db/taskTypes.repo.ts:58-59 | the name read is that of a row with the id, and there is none exactly when no row has it |
| TaskTypesRepo.DeleteTaskType | src/db/taskTypes.repo.ts:55-65 | the type is soft-deleted and tasks using its name fall back to 'Other'; nothing else changes |
| TaskTypesRepo.DeleteTaskTypeEffects | src/db/taskTypes.repo.ts:55-65 | after deleting, the type is not listed, no task uses its (non-empty, non-'Other') name, and the store stays well-formed |
| CoursesRepo.LiveCourses | src/db/courses.repo.ts:8 | the selected courses are exactly the non-deleted ones, each as often as it is stored |
| CoursesRepo.GetAllCourses | src/db/courses.repo.ts:5-11 | the live courses, newest first, as a permutation |
| CoursesRepo.GetAllCoursesExactly | src/db/courses.repo.ts:5-11 | the listing holds exactly the live courses |
| CoursesRepo.GetCourseById | src/db/courses.repo.ts:13-20 | the course found is live with the id, and none is found exactly when no live course has it |
| CoursesRepo.GetCourseByIdFindsLiveRow | src/db/courses.repo.ts:13-20 | with distinct ids, every live course is the one found under its id |
| CoursesRepo.CreateCourse | src/db/courses.repo.ts:22-45 | one course is appended under the fresh id and returned |
| CoursesRepo.CreateCourseDefaults | src/db/courses.repo.ts:28-37 | the target grade defaults to 90 when omitted, the colour to the grey default when empty, and the store stays well-formed |
| CoursesRepo.ApplyCourseUpdate | src/db/courses.repo.ts:51-72 | code, name, term and target grade are replaced when given and kept otherwise; the colour is never changed; `updated_at` is set |
| CoursesRepo.UpdateCourse | src/db/courses.repo.ts:47-83 | the UPDATE rewrites exactly the rows with the id, deleted or not; the read-back fails exactly when no live course has the id |
| CoursesRepo.UpdatedCourses | src/db/courses.repo.ts:74-77 | the UPDATE changes exactly the rows with the id |
| CoursesRepo.ReadBackAfterUpdate | src/db/courses.repo.ts:79-82 | after the UPDATE the course read back is the updated live course |
| CoursesRepo.DeleteCourse | src/db/courses.repo.ts:85-91 | the course is soft-deleted and its tasks are unlinked and moved to the school workspace; nothing else changes |
| CoursesRepo.DeleteCourseEffects | src/db/courses.repo.ts:85-91 | after deleting, the course is neither found nor listed, no task refers to it, its former tasks are in 'school', and other tasks are untouched |
| CoursesRepo.DeleteCourseKeepsReferences | src/db/client.ts:133 | a soft delete keeps every course reference valid for the foreign key |
| LifeCategoriesRepo.LiveCategories | src/db/lifeCategories.repo.ts:8 | the selected categories are exactly the non-deleted ones, each as often as it is stored |
| LifeCategoriesRepo.GetLifeCategories | src/db/lifeCategories.repo.ts:5-10 | the live categories, newest first, as a permutation |
| LifeCategoriesRepo.GetLifeCategoriesExactly | src/db/lifeCategories.repo.ts:5-10 | the listing holds exactly the live categories |
| LifeCategoriesRepo.FindCategory | src/db/lifeCategories.repo.ts:24 | the row found has the id, and none is found exactly when no row has it |
| LifeCategoriesRepo.CreateLifeCategory | src/db/lifeCategories.repo.ts:12-27 | it never fails; one category is appended under the fresh id and returned |
| LifeCategoriesRepo.CreateLifeCategoryRow | src/db/lifeCategories.repo.ts:12-27 | the category returned is the row inserted, with the trimmed name, the colour given or the default, and equal timestamps; the store stays well-formed |
| LifeCategoriesRepo.FindAppended | src/db/lifeCategories.repo.ts:24 | a row appended under a fresh id is the one found for it |
| LifeCategoriesRepo.FreshCategoryId | src/db/lifeCategories.repo.ts:14 | on a well-formed table the counter is no category's id |
| LifeCategoriesRepo.AppendCategoryKeepsWellFormed | src/db/lifeCategories.repo.ts:14-22 | inserting a category under the counter and bumping it keeps the store well-formed |
| LifeCategoriesRepo.ApplyCategoryUpdate | src/db/lifeCategories.repo.ts:37-56 | the trimmed name and the colour are replaced when given and kept otherwise; `updated_at` is set |
| LifeCategoriesRepo.UpdateLifeCategory | src/db/lifeCategories.repo.ts:37-56 | the UPDATE rewrites exactly the rows with the id and nothing else |
| LifeCategoriesRepo.UpdateLifeCategoryUnknownAndRepeat | src/db/lifeCategories.repo.ts:37-56 | updating an unknown id changes nothing, and repeating an update equals doing it once |
| LifeCategoriesRepo.DeleteLifeCategory | src/db/lifeCategories.repo.ts:29-35 | the category is soft-deleted and every task referring to it is unlinked; nothing else changes |
| LifeCategoriesRepo.DeleteLifeCategoryEffects | src/db/lifeCategories.repo.ts:29-35 | after deleting, the category is neither listed nor joined, no task refers to it, and other tasks are untouched |
| LifeCategoriesRepo.DeletedCategoryNotListed | src/db/lifeCategories.repo.ts:32 | a deleted category is not in the listing |
| LifeCategoriesRepo.DeletedCategoryNotLive | src/db/lifeCategories.repo.ts:32 | a deleted category has no live row for the join to find |
| LifeCategoriesRepo.DeletedCategoryUnlinked | src/db/lifeCategories.repo.ts:34 | no task refers to a deleted category, and every other task is untouched |
| DueDates.EndOfWeek | src/lib/dates.ts:20 | the end of the week is the last instant of the sixth day after today |
| DueDates.GetTaskGroup | src/lib/dates.ts:14-35 | no due date is 'later'; otherwise 'overdue', 'today', 'this week' and 'later' correspond exactly to a due day before today, on today, in the next six days, and beyond |
| DueDates.GroupByDayDistance | src/lib/dates.ts:14-35 | the group depends only on the due day's distance from today |
| DueDates.GroupMonotone | src/lib/dates.ts:14-35 | a later due date never moves a task to an earlier group |
| DueDates.IsOverdue | src/lib/dates.ts:53-57 | overdue exactly when the due day is before today |
| DueDates.IsDueToday | src/lib/dates.ts:59-62 | due today exactly when the due day is today |
| DueDates.TestsAgreeWithGroups | src/lib/dates.ts:14-62 | the overdue and due-today tests hold exactly for the 'overdue' and 'today' groups |
| DueDates.IsDueWithinDays | src/lib/dates.ts:64-70 | due within `days` exactly when the due instant lies from now to `days` times 24 hours later |
| DueDates.WithinDaysMonotone | src/lib/dates.ts:64-70 | a wider window never drops a task, and a task due within six days is grouped 'today' or 'this week' |
| TaskTypeColors.ColorMap | src/lib/taskTypeColors.ts:3-7 | the intended lookup has exactly the type names as keys, no more entries than types |
| TaskTypeColors.NamesOfSnoc | src/lib/taskTypeColors.ts:5 | the names of a list are the names of all but the last type, plus the last one's |
| TaskTypeColors.BuildTaskTypeColorMap | src/lib/taskTypeColors.ts:3-7 | the lookup as written has every type name except `__proto__` as a key, each with the intended colour |
| TaskTypeColors.ColorMapLastWins | src/lib/taskTypeColors.ts:5 | each name looks up the colour of the last type with that name |
| TaskTypeColors.ColorMapUniqueNames | src/lib/taskTypeColors.ts:3-7 | with unique names every type's colour is looked up under its name, and there is one entry per type |
| TaskTypeColors.UniqueNamesCount | src/lib/taskTypeColors.ts:5 | with unique names there are as many names as types |
| TaskTypeColors.ProtoNameDropped | src/lib/taskTypeColors.ts:5 | a type named `__proto__` is missing from the lookup as written but present in the intended one |
| DbClient.MessageOf | src/db/client.ts:29 | the message is the error's `message`, else its string form, and empty for null or undefined |
| DbClient.LowerContains | src/db/client.ts:30 | the lower-cased message contains a pattern exactly when the message mentions it at some position, ignoring case |
| DbClient.IsDbLockedErrorMeaning | src/db/client.ts:28-31 | an error is a lock error exactly when its message mentions "database is locked" or "sqlite_busy", ignoring case |
| DbClient.MentionsAtLower | src/db/client.ts:30 | a mention is found the same in a message and in its lower-cased form |
| DbClient.LockedIgnoresCase | src/db/client.ts:30 | lower-casing the message does not change whether it is a lock error |
| DbClient.MentionsInContext | src/db/client.ts:30 | a mention stays a mention when text is added before and after |
| DbClient.LockedInContext | src/db/client.ts:28-31 | a lock message wrapped in more text is still a lock error |
| DbClient.BusyCodeIsLocked | src/db/client.ts:30 | the upper-case SQLite code SQLITE_BUSY is a lock error |
| DbClient.RetryFrom | src/db/client.ts:41-49 | the loop from attempt i stops at the first success, the first non-lock error, or the last allowed attempt, with every earlier attempt a lock failure |
| DbClient.Retry | src/db/client.ts:33-51 | at most retries + 1 attempts are made, none when retries is negative, and then the rethrown error is undefined |
| DbClient.ExecuteWithRetry | src/db/client.ts:33-51 | the loop computes the retry outcome defined by the recursive reference |
| DbClient.DefaultRetryPolicy | src/db/client.ts:38-50 | by default a success returns after one attempt, a non-lock error is rethrown after one, and nine lock failures rethrow the ninth error |
| DbClient.RetrySucceedsExactly | src/db/client.ts:41-49 | when attempt j succeeds after j lock failures, within the limit, its value is returned after j + 1 attempts |
| DbClient.MaxVersion | src/db/client.ts:63-65 | `MAX(version)` is the largest recorded version, or null when none is recorded |
| DbClient.CurrentVersion | src/db/client.ts:63-66 | the current version bounds every recorded one, is one of them, and is 0 when none is recorded |
| DbClient.Pending | src/db/client.ts:78-98 | the migrations that run are exactly those from the current index on whose version is not recorded, in ascending order |
| DbClient.PendingAfterRecord | src/db/client.ts:91-93 | recording a version below the loop position does not change what is still pending |
| DbClient.MigrateFrom | src/db/client.ts:78-98 | the loop from index i applies the pending migrations and records every version after i |
| DbClient.RunMigrations | src/db/client.ts:53-99 | the migrations after the current version that are not recorded run, in order, and every version after the current maximum up to 6 is recorded; gaps below it stay |
| DbClient.FreshDatabaseRunsAll | src/db/client.ts:53-99 | a fresh database runs all six migrations in order and records versions 1 to 6 |
| DbClient.RunMigrationsIdempotent | src/db/client.ts:53-99 | running the migrations again applies nothing and records nothing new |
| DbClient.GapBelowMaximumStays | src/db/client.ts:78 | a database recording only version 2 never runs migration 1 nor records version 1 |

## Left out

- Time zones. Days are UTC calendar days, and `setHours`, `setDate` and `addDays` move by whole
  24-hour days, so daylight-saving shifts and the local-midnight versus `toISOString` skew of
  the occurrence date are not modelled.
- Parsing: `parseISO`, `new Date(string)`, `toISOString` and `JSON.parse` of the recurrence rule
  are not modelled. Instants and rules arrive already decoded. A rule that fails to parse is
  `Rules.RuleJson.Unparseable`.
- `formatDueDate` (display text only) and the warning message texts with `toFixed` are not
  modelled. Warnings carry their kind and data.
- Floating point. Grade arithmetic is on exact reals, and non-finite numbers become `NonFinite`.
- `generateId` (`src/lib/utils.ts`) is not part of this model. Ids are fresh values of a counter.
- Concurrency, the `setTimeout` back-off in `executeWithRetry`, `initDatabase`, `getDatabase`
  and the migration DDL are not modelled. A migration is identified by its index, and a failing
  migration is not modelled.
- Repository statements run through `executeWithRetry` are modelled as succeeding on the first
  attempt.
- The recurring-task edit router and cascading edits of a series are not part of this model.
- TasksRepo.GetAllTasks: the `tags LIKE` and due-range filters and the `ORDER BY due_at,
  created_at` are not modelled. The result lists the tasks in table order, and the other
  filters are modelled.
- DueDates.IsDueWithinDays: `days` is a natural number. The library's behaviour on an interval
  whose end precedes its start (negative `days`) is not modelled.
- Text.ToLower: lower-cases ASCII letters only, where JavaScript's `toLowerCase` follows
  Unicode, which also maps some non-ASCII characters to ASCII letters (the Kelvin sign U+212A
  becomes `k`, U+0130 becomes `i` followed by U+0307). A message containing such characters may
  be classified differently as a lock error.
- A COUNT rule whose `count` is `null` or `""` compares as 0 in the source and so produces no
  day; the model has no separate value for these and writes them as a count of 0. Fractional
  and non-numeric counts are not modelled, since `count` is an integer.
- Reconciler: every instance a run inserts has its `created_at` and `updated_at` set to the run's
  single instant `now`. The source reads the clock again for each insert, so its timestamps may
  differ slightly from the window's clock and from one another.
- The `ON DELETE CASCADE` of subtasks is not modelled, since tasks are only ever soft-deleted.

## Findings

| source | as written | input that shows it | evidently intended | confidence | as-written member | corrected member |
|---|---|---|---|---|---|---|
| src/lib/taskTypeColors.ts:4-5 | the lookup is a plain object literal, so `map[t.name] = t.color` for the name `__proto__` calls the inherited prototype setter, which ignores a string value | a task type named `__proto__` | every type name is a key of the lookup, mapped to its last type's colour | not executed | TaskTypeColors.ProtoNameDropped | TaskTypeColors.ColorMapLastWins |
