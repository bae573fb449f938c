/** `gradeMath.ts`: weighted course grades over the tasks of one course, and the warnings shown
    beside them. Numbers are exact reals; a grade or weight that is `null`, `undefined`, `NaN` or
    infinite reads as missing. */
module GradeMath {
  import opened Wrappers
  import opened Store

  /** `n`: a finite number, or `null` for anything else. */
  function N(v: JsNumber): (r: Option<real>)
    ensures r.Some? <==> v.Finite?
    ensures r.Some? ==> r.value == v.value
  {
    match v
    case Finite(x) => Some(x)
    case _ => None
  }

  /** `(t.grade?.counts ?? true) === true`: a task without a grade row counts. */
  predicate Counted(t: TaskView) {
    t.grade.None? || t.grade.value.counts
  }

  /** `(t.grade?.is_graded ?? false) === true`. */
  predicate IsGraded(t: TaskView) {
    t.grade.Some? && t.grade.value.isGraded
  }

  function WeightOf(t: TaskView): Option<real> {
    if t.grade.None? then None else N(t.grade.value.weightPercent)
  }

  function GradeOf(t: TaskView): Option<real> {
    if t.grade.None? then None else N(t.grade.value.gradePercent)
  }

  /** The weight is present and positive (`w !== null && w > 0`). */
  predicate HasPositiveWeight(t: TaskView) {
    WeightOf(t).Some? && WeightOf(t).value > 0.0
  }

  /** The task enters the current and projected grades: counted, graded, weighted, with a grade. */
  predicate Contributes(t: TaskView) {
    Counted(t) && IsGraded(t) && HasPositiveWeight(t) && GradeOf(t).Some?
  }

  /** The sum of the positive weights of the counted tasks. */
  function TotalCountedWeight(ts: seq<TaskView>): (w: real)
    ensures w >= 0.0
    ensures w == 0.0 <==> forall i :: 0 <= i < |ts| ==> !(Counted(ts[i]) && HasPositiveWeight(ts[i]))
  {
    if |ts| == 0 then 0.0
    else
      var rest := TotalCountedWeight(ts[1..]);
      assert forall i :: 1 <= i < |ts| ==> ts[i] == ts[1..][i - 1];
      (if Counted(ts[0]) && HasPositiveWeight(ts[0]) then WeightOf(ts[0]).value else 0.0) + rest
  }

  /** The sum of the positive weights of the counted tasks that are graded; at most the total. */
  function CompletedWeight(ts: seq<TaskView>): (w: real)
    ensures 0.0 <= w <= TotalCountedWeight(ts)
  {
    if |ts| == 0 then 0.0
    else
      (if Counted(ts[0]) && IsGraded(ts[0]) && HasPositiveWeight(ts[0]) then WeightOf(ts[0]).value else 0.0)
        + CompletedWeight(ts[1..])
  }

  datatype WeightStats = WeightStats(totalCountedWeight: real, completedWeight: real, remainingWeight: real)

  /** `computeWeightStats`: the graded weight never exceeds the counted weight, and the remainder
      is what the counted weight leaves of 100 (negative when over). */
  function ComputeWeightStats(ts: seq<TaskView>): (r: WeightStats)
    ensures 0.0 <= r.completedWeight <= r.totalCountedWeight
    ensures r.remainingWeight + r.totalCountedWeight == 100.0
    ensures r.totalCountedWeight == TotalCountedWeight(ts)
  {
    var total := TotalCountedWeight(ts);
    WeightStats(total, CompletedWeight(ts), 100.0 - total)
  }

  /** The weights of the contributing tasks. */
  function SumW(ts: seq<TaskView>): (w: real)
    ensures w >= 0.0
    ensures w == 0.0 <==> forall i :: 0 <= i < |ts| ==> !Contributes(ts[i])
  {
    if |ts| == 0 then 0.0
    else
      var rest := SumW(ts[1..]);
      assert forall i :: 1 <= i < |ts| ==> ts[i] == ts[1..][i - 1];
      (if Contributes(ts[0]) then WeightOf(ts[0]).value else 0.0) + rest
  }

  /** The grade-times-weight products of the contributing tasks. */
  function SumWG(ts: seq<TaskView>): real {
    if |ts| == 0 then 0.0
    else (if Contributes(ts[0]) then GradeOf(ts[0]).value * WeightOf(ts[0]).value else 0.0) + SumWG(ts[1..])
  }

  /** `computeCurrentSoFar`: the weight-normalised average grade of the contributing tasks, or
      `null` exactly when no task contributes. */
  function ComputeCurrentSoFar(ts: seq<TaskView>): (r: Option<real>)
    ensures r.None? <==> forall i :: 0 <= i < |ts| ==> !Contributes(ts[i])
    ensures r.Some? ==> r.value * SumW(ts) == SumWG(ts)
  {
    var sumW := SumW(ts);
    if sumW == 0.0 then None else Some(SumWG(ts) / sumW)
  }

  /** The running sum of `computeProjectedOverall`: each contributing task adds `g * w / 100`. */
  function ProjectedSum(ts: seq<TaskView>): real {
    if |ts| == 0 then 0.0
    else (if Contributes(ts[0]) then GradeOf(ts[0]).value * WeightOf(ts[0]).value / 100.0 else 0.0) + ProjectedSum(ts[1..])
  }

  /** `computeProjectedOverall`: ungraded work counts as zero, so this is the products' sum over 100. */
  function ComputeProjectedOverall(ts: seq<TaskView>): (r: real)
    ensures r == SumWG(ts) / 100.0
  {
    ProjectedSumIsScaledSum(ts);
    ProjectedSum(ts)
  }

  lemma {:induction false} ProjectedSumIsScaledSum(ts: seq<TaskView>)
    ensures ProjectedSum(ts) == SumWG(ts) / 100.0
  {
    if |ts| > 0 {
      ProjectedSumIsScaledSum(ts[1..]);
    }
  }

  /** `computeKnownContribution`: the points already earned, which is the projected overall. */
  function ComputeKnownContribution(ts: seq<TaskView>): (r: real)
    ensures r == SumWG(ts) / 100.0
  {
    ComputeProjectedOverall(ts)
  }

  /** The projection is the current grade scaled by the share of weight already graded. */
  lemma ProjectedIsCurrentTimesGradedWeight(ts: seq<TaskView>)
    ensures ComputeCurrentSoFar(ts).Some? ==>
      ComputeProjectedOverall(ts) == ComputeCurrentSoFar(ts).value * SumW(ts) / 100.0
    ensures ComputeCurrentSoFar(ts).None? ==> ComputeProjectedOverall(ts) == 0.0
  {
    if ComputeCurrentSoFar(ts).None? {
      NoContributionNoProducts(ts);
    }
  }

  lemma {:induction false} NoContributionNoProducts(ts: seq<TaskView>)
    requires forall i :: 0 <= i < |ts| ==> !Contributes(ts[i])
    ensures SumWG(ts) == 0.0
  {
    if |ts| > 0 {
      assert forall i :: 1 <= i < |ts| ==> ts[i] == ts[1..][i - 1];
      NoContributionNoProducts(ts[1..]);
    }
  }

  /** A grade entered as a percentage. */
  predicate PercentGrade(g: real) {
    0.0 <= g <= 100.0
  }

  /** `s` lies between `lo` and `hi` times `w`. */
  predicate Brackets(lo: real, hi: real, w: real, s: real) {
    lo * w <= s <= hi * w
  }

  /** Every contributing grade lies between `lo` and `hi`. */
  predicate GradesWithin(ts: seq<TaskView>, lo: real, hi: real) {
    forall i :: 0 <= i < |ts| && Contributes(ts[i]) ==> lo <= GradeOf(ts[i]).value <= hi
  }

  /** The current grade is a weighted mean, so it lies between the lowest and the highest
      contributing grade: any bounds on those bound it too. */
  lemma CurrentSoFarWithin(ts: seq<TaskView>, lo: real, hi: real)
    requires GradesWithin(ts, lo, hi)
    ensures ComputeCurrentSoFar(ts).Some? ==> lo <= ComputeCurrentSoFar(ts).value <= hi
  {
    ProductsWithin(ts, lo, hi);
    MeanWithin(ts, lo, hi);
  }

  /** A grade so far divides the sum of products by a positive weight sum, so it inherits the
      bracket the weights put around the products. */
  lemma MeanWithin(ts: seq<TaskView>, lo: real, hi: real)
    requires Brackets(lo, hi, SumW(ts), SumWG(ts))
    ensures ComputeCurrentSoFar(ts).Some? ==> lo <= ComputeCurrentSoFar(ts).value <= hi
  {
    var r := ComputeCurrentSoFar(ts);
    if r.Some? {
      QuotientWithin(r.value, SumW(ts), SumWG(ts), lo, hi);
    }
  }

  /** When every contributing grade is a percentage, so is the current grade. */
  lemma CurrentSoFarIsPercent(ts: seq<TaskView>)
    requires forall i :: 0 <= i < |ts| && Contributes(ts[i]) ==> PercentGrade(GradeOf(ts[i]).value)
    ensures ComputeCurrentSoFar(ts).Some? ==> PercentGrade(ComputeCurrentSoFar(ts).value)
  {
    CurrentSoFarWithin(ts, 0.0, 100.0);
  }

  lemma QuotientWithin(c: real, w: real, s: real, lo: real, hi: real)
    requires w > 0.0 && c * w == s && Brackets(lo, hi, w, s)
    ensures lo <= c <= hi
  {
    if c < lo { MulStrict(c, lo, w); }
    if c > hi { MulStrict(hi, c, w); }
  }

  lemma MulStrict(a: real, b: real, w: real)
    requires a < b && w > 0.0
    ensures a * w < b * w
  {
  }

  /** With the grades within `[lo, hi]`, the sum of products lies within `lo` and `hi` times the
      sum of weights. */
  lemma ProductsWithin(ts: seq<TaskView>, lo: real, hi: real)
    requires GradesWithin(ts, lo, hi)
    ensures Brackets(lo, hi, SumW(ts), SumWG(ts))
  {
    ScaledIsProduct(ts, lo);
    ScaledIsProduct(ts, hi);
    ScaledBelowProducts(ts, lo, hi);
  }

  /** The weights of the contributing tasks, each scaled by `c`. */
  function ScaledW(ts: seq<TaskView>, c: real): real {
    if |ts| == 0 then 0.0
    else (if Contributes(ts[0]) then c * WeightOf(ts[0]).value else 0.0) + ScaledW(ts[1..], c)
  }

  lemma {:induction false} ScaledIsProduct(ts: seq<TaskView>, c: real)
    ensures ScaledW(ts, c) == c * SumW(ts)
  {
    if |ts| > 0 {
      ScaledIsProduct(ts[1..], c);
      if Contributes(ts[0]) {
        Distributes(c, WeightOf(ts[0]).value, SumW(ts[1..]));
      }
    }
  }

  lemma Distributes(c: real, x: real, s: real)
    ensures c * (x + s) == c * x + c * s
  {
  }

  lemma ScaledBelowProducts(ts: seq<TaskView>, lo: real, hi: real)
    requires GradesWithin(ts, lo, hi)
    ensures ScaledW(ts, lo) <= SumWG(ts) <= ScaledW(ts, hi)
  {
    ScaledBelow(ts, lo, hi);
    ScaledAbove(ts, lo, hi);
  }

  lemma {:induction false} ScaledBelow(ts: seq<TaskView>, lo: real, hi: real)
    requires GradesWithin(ts, lo, hi)
    ensures ScaledW(ts, lo) <= SumWG(ts)
  {
    if |ts| > 0 {
      GradesWithinRest(ts, lo, hi);
      ScaledBelow(ts[1..], lo, hi);
      if Contributes(ts[0]) {
        var g, x := GradeOf(ts[0]).value, WeightOf(ts[0]).value;
        assert ScaledW(ts, lo) == lo * x + ScaledW(ts[1..], lo);
        assert SumWG(ts) == g * x + SumWG(ts[1..]);
        StepBelow(lo, g, x, ScaledW(ts[1..], lo), SumWG(ts[1..]), ScaledW(ts, lo), SumWG(ts));
      }
    }
  }

  lemma {:induction false} ScaledAbove(ts: seq<TaskView>, lo: real, hi: real)
    requires GradesWithin(ts, lo, hi)
    ensures SumWG(ts) <= ScaledW(ts, hi)
  {
    if |ts| > 0 {
      GradesWithinRest(ts, lo, hi);
      ScaledAbove(ts[1..], lo, hi);
      if Contributes(ts[0]) {
        var g, x := GradeOf(ts[0]).value, WeightOf(ts[0]).value;
        assert ScaledW(ts, hi) == hi * x + ScaledW(ts[1..], hi);
        assert SumWG(ts) == g * x + SumWG(ts[1..]);
        StepBelow(g, hi, x, SumWG(ts[1..]), ScaledW(ts[1..], hi), SumWG(ts), ScaledW(ts, hi));
      }
    }
  }

  /** One summand: adding `a * x` to the smaller sum and `b * x` to the larger keeps the order. */
  lemma StepBelow(a: real, b: real, x: real, s: real, t: real, sa: real, tb: real)
    requires a <= b && x >= 0.0 && s <= t
    requires sa == a * x + s && tb == b * x + t
    ensures sa <= tb
  {
    MulMono(a, b, x);
  }

  lemma GradesWithinRest(ts: seq<TaskView>, lo: real, hi: real)
    requires |ts| > 0 && GradesWithin(ts, lo, hi)
    ensures GradesWithin(ts[1..], lo, hi)
  {
    forall i | 0 <= i < |ts| - 1 && Contributes(ts[1..][i]) ensures lo <= GradeOf(ts[1..][i]).value <= hi {
      assert ts[1..][i] == ts[i + 1];
    }
  }

  lemma MulMono(a: real, b: real, w: real)
    requires a <= b && w >= 0.0
    ensures a * w <= b * w
  {
  }

  /** `computeNeededFinal`: the final-exam grade that brings the known contribution to the target,
      or `null` when the final's weight is not a positive finite number. */
  function ComputeNeededFinal(target: real, knownContribution: real, finalWeightPercent: JsNumber): (r: Option<real>)
    ensures r.Some? <==> finalWeightPercent.Finite? && finalWeightPercent.value > 0.0
    ensures r.Some? ==> knownContribution + r.value * finalWeightPercent.value / 100.0 == target
  {
    if !finalWeightPercent.Finite? || finalWeightPercent.value <= 0.0 then None
    else
      var w := finalWeightPercent.value;
      var r := (target - knownContribution) / (w / 100.0);
      assert r * (w / 100.0) == target - knownContribution;
      Some(r)
  }

  /** The needed grade rises with the target and falls as more is already known. */
  lemma NeededFinalMonotone(target: real, target': real, known: real, known': real, w: real)
    requires w > 0.0 && target <= target' && known' <= known
    ensures ComputeNeededFinal(target, known, Finite(w)).value <= ComputeNeededFinal(target', known', Finite(w)).value
  {
    var a := ComputeNeededFinal(target, known, Finite(w)).value;
    var b := ComputeNeededFinal(target', known', Finite(w)).value;
    assert a * w == (target - known) * 100.0;
    assert b * w == (target' - known') * 100.0;
    if a > b { MulStrict(b, a, w); }
  }

  /** The warnings; the user-facing message texts are not modelled. */
  datatype GradeWarning =
    | TotalWeightOver100(totalWeight: real)
    | FinalMissing
    | FinalWeightMissing
    | GradedMissingGrade(taskId: Id, taskTitle: string)
    | CountedMissingWeight(taskId: Id, taskTitle: string)

  /** The per-task warnings, task by task: a counted task without a positive weight, then a counted
      graded task without a grade. */
  function TaskWarnings(ts: seq<TaskView>): (r: seq<GradeWarning>)
    ensures forall w :: w in r ==> w.CountedMissingWeight? || w.GradedMissingGrade?
    ensures forall id, title :: CountedMissingWeight(id, title) in r <==>
      exists i :: 0 <= i < |ts| && Counted(ts[i]) && !HasPositiveWeight(ts[i]) && ts[i].task.id == id && ts[i].task.title == title
    ensures forall id, title :: GradedMissingGrade(id, title) in r <==>
      exists i :: 0 <= i < |ts| && Counted(ts[i]) && IsGraded(ts[i]) && GradeOf(ts[i]).None? && ts[i].task.id == id && ts[i].task.title == title
  {
    WarningsOfKinds(ts);
    WarningsOfMembers(ts);
    WarningsOf(ts)
  }

  /** The loop of the per-task warnings: each task's own warnings, in task order. */
  function WarningsOf(ts: seq<TaskView>): seq<GradeWarning> {
    if |ts| == 0 then [] else TaskWarningsOf(ts[0]) + WarningsOf(ts[1..])
  }

  lemma {:induction false} WarningsOfKinds(ts: seq<TaskView>)
    ensures forall w :: w in WarningsOf(ts) ==> w.CountedMissingWeight? || w.GradedMissingGrade?
  {
    if |ts| > 0 {
      WarningsOfKinds(ts[1..]);
    }
  }

  lemma {:induction false} WarningsOfMembers(ts: seq<TaskView>)
    ensures forall id, title :: CountedMissingWeight(id, title) in WarningsOf(ts) <==>
      exists i :: 0 <= i < |ts| && Counted(ts[i]) && !HasPositiveWeight(ts[i]) && ts[i].task.id == id && ts[i].task.title == title
    ensures forall id, title :: GradedMissingGrade(id, title) in WarningsOf(ts) <==>
      exists i :: 0 <= i < |ts| && Counted(ts[i]) && IsGraded(ts[i]) && GradeOf(ts[i]).None? && ts[i].task.id == id && ts[i].task.title == title
  {
    if |ts| > 0 {
      WarningsOfMembers(ts[1..]);
      assert forall i :: 1 <= i < |ts| ==> ts[i] == ts[1..][i - 1];
      assert forall i :: 0 <= i < |ts| ==> i == 0 || ts[i] == ts[1..][i - 1];
    }
  }

  /** The warning about the final exam: missing, or present without a positive weight. */
  function FinalWarning(finalTask: Option<TaskView>): (r: seq<GradeWarning>)
    ensures r == [FinalMissing] <==> finalTask.None?
    ensures r == [FinalWeightMissing] <==> finalTask.Some? && !HasPositiveWeight(finalTask.value)
    ensures r == [] <==> finalTask.Some? && HasPositiveWeight(finalTask.value)
  {
    if finalTask.None? then [FinalMissing]
    else if !HasPositiveWeight(finalTask.value) then [FinalWeightMissing]
    else []
  }

  /** The tolerance above 100 before the total weight is reported. */
  const OverWeightTolerance: real := 100.0001

  /** `buildGradeWarnings`: first the total-weight warning, then the per-task warnings in task
      order, then the final-exam warning. */
  function BuildGradeWarnings(ts: seq<TaskView>, finalTask: Option<TaskView>): (r: seq<GradeWarning>)
    ensures (exists w :: TotalWeightOver100(w) in r) <==> TotalCountedWeight(ts) > OverWeightTolerance
    ensures forall w :: TotalWeightOver100(w) in r ==> w == TotalCountedWeight(ts) && r[0] == TotalWeightOver100(w)
    ensures forall id, title :: CountedMissingWeight(id, title) in r <==>
      exists i :: 0 <= i < |ts| && Counted(ts[i]) && !HasPositiveWeight(ts[i]) && ts[i].task.id == id && ts[i].task.title == title
    ensures forall id, title :: GradedMissingGrade(id, title) in r <==>
      exists i :: 0 <= i < |ts| && Counted(ts[i]) && IsGraded(ts[i]) && GradeOf(ts[i]).None? && ts[i].task.id == id && ts[i].task.title == title
    ensures FinalMissing in r <==> finalTask.None?
    ensures FinalWeightMissing in r <==> finalTask.Some? && !HasPositiveWeight(finalTask.value)
  {
    WarningsOfMembers(ts);
    WarningsOverFirst(ts, finalTask);
    WarningsPerTask(ts, finalTask);
    WarningsFinalLast(ts, finalTask);
    OverWarning(ts) + WarningsOf(ts) + FinalWarning(finalTask)
  }

  /** The total-weight warning, when the counted weights exceed the tolerance. */
  function OverWarning(ts: seq<TaskView>): seq<GradeWarning> {
    var total := TotalCountedWeight(ts);
    if total > OverWeightTolerance then [TotalWeightOver100(total)] else []
  }

  lemma WarningsOverFirst(ts: seq<TaskView>, finalTask: Option<TaskView>)
    ensures var r := OverWarning(ts) + WarningsOf(ts) + FinalWarning(finalTask);
      && ((exists w :: TotalWeightOver100(w) in r) <==> TotalCountedWeight(ts) > OverWeightTolerance)
      && forall w :: TotalWeightOver100(w) in r ==> w == TotalCountedWeight(ts) && r[0] == TotalWeightOver100(w)
  {
    WarningsOfKinds(ts);
    var rest := WarningsOf(ts) + FinalWarning(finalTask);
    assert forall w :: TotalWeightOver100(w) !in rest;
    assert OverWarning(ts) + WarningsOf(ts) + FinalWarning(finalTask) == OverWarning(ts) + rest;
  }

  lemma WarningsPerTask(ts: seq<TaskView>, finalTask: Option<TaskView>)
    ensures var r := OverWarning(ts) + WarningsOf(ts) + FinalWarning(finalTask);
      && (forall id, title :: CountedMissingWeight(id, title) in r <==> CountedMissingWeight(id, title) in WarningsOf(ts))
      && (forall id, title :: GradedMissingGrade(id, title) in r <==> GradedMissingGrade(id, title) in WarningsOf(ts))
  {
    var r := OverWarning(ts) + WarningsOf(ts) + FinalWarning(finalTask);
    assert forall x :: x in r <==> x in OverWarning(ts) || x in WarningsOf(ts) || x in FinalWarning(finalTask);
  }

  lemma WarningsFinalLast(ts: seq<TaskView>, finalTask: Option<TaskView>)
    ensures var r := OverWarning(ts) + WarningsOf(ts) + FinalWarning(finalTask);
      && (FinalMissing in r <==> finalTask.None?)
      && (FinalWeightMissing in r <==> finalTask.Some? && !HasPositiveWeight(finalTask.value))
  {
    WarningsOfKinds(ts);
    var r := OverWarning(ts) + WarningsOf(ts) + FinalWarning(finalTask);
    assert forall x :: x in r <==> x in OverWarning(ts) || x in WarningsOf(ts) || x in FinalWarning(finalTask);
  }

  /** The warnings one task raises: none, one or two, the missing weight before the missing grade. */
  lemma TaskWarningsOne(t: TaskView)
    ensures var r := TaskWarnings([t]);
      && (Counted(t) && !HasPositiveWeight(t) <==> |r| > 0 && r[0] == CountedMissingWeight(t.task.id, t.task.title))
      && (Counted(t) && IsGraded(t) && GradeOf(t).None? <==>
            |r| > 0 && r[|r| - 1] == GradedMissingGrade(t.task.id, t.task.title))
      && |r| == (if Counted(t) && !HasPositiveWeight(t) then 1 else 0)
                + (if Counted(t) && IsGraded(t) && GradeOf(t).None? then 1 else 0)
  {
    assert [t][1..] == [];
    assert TaskWarnings([t]) == TaskWarningsOf(t) + WarningsOf([]);
  }

  /** The task warnings of two listings in a row are those of the first, then those of the second. */
  lemma TaskWarningsAppend(a: seq<TaskView>, b: seq<TaskView>)
    ensures TaskWarnings(a + b) == TaskWarnings(a) + TaskWarnings(b)
  {
    WarningsOfAppend(a, b);
  }

  lemma {:induction false} WarningsOfAppend(a: seq<TaskView>, b: seq<TaskView>)
    ensures WarningsOf(a + b) == WarningsOf(a) + WarningsOf(b)
  {
    if |a| == 0 {
      assert a + b == b;
    } else {
      assert (a + b)[0] == a[0];
      assert (a + b)[1..] == a[1..] + b;
      WarningsOfAppend(a[1..], b);
      var head := TaskWarningsOf(a[0]);
      assert WarningsOf(a + b) == head + WarningsOf(a[1..] + b);
      assert head + (WarningsOf(a[1..]) + WarningsOf(b)) == (head + WarningsOf(a[1..])) + WarningsOf(b);
    }
  }

  /** The warnings of the first task, as `TaskWarnings` puts them in front of the rest's. */
  function TaskWarningsOf(t: TaskView): seq<GradeWarning> {
    (if Counted(t) && !HasPositiveWeight(t) then [CountedMissingWeight(t.task.id, t.task.title)] else [])
    + (if Counted(t) && IsGraded(t) && GradeOf(t).None? then [GradedMissingGrade(t.task.id, t.task.title)] else [])
  }

  /** The number of tasks that raise a given missing-weight warning. */
  function MissingWeightTasks(ts: seq<TaskView>, id: Id, title: string): nat {
    if |ts| == 0 then 0
    else
      (if Counted(ts[0]) && !HasPositiveWeight(ts[0]) && ts[0].task.id == id && ts[0].task.title == title then 1 else 0)
      + MissingWeightTasks(ts[1..], id, title)
  }

  /** The number of tasks that raise a given missing-grade warning. */
  function MissingGradeTasks(ts: seq<TaskView>, id: Id, title: string): nat {
    if |ts| == 0 then 0
    else
      (if Counted(ts[0]) && IsGraded(ts[0]) && GradeOf(ts[0]).None? && ts[0].task.id == id && ts[0].task.title == title then 1 else 0)
      + MissingGradeTasks(ts[1..], id, title)
  }

  /** One warning per task that raises it: a repeated task is reported as often as it is listed. */
  lemma TaskWarningsCount(ts: seq<TaskView>, id: Id, title: string)
    ensures multiset(TaskWarnings(ts))[CountedMissingWeight(id, title)] == MissingWeightTasks(ts, id, title)
    ensures multiset(TaskWarnings(ts))[GradedMissingGrade(id, title)] == MissingGradeTasks(ts, id, title)
  {
    WarningsOfCount(ts, id, title);
  }

  lemma {:induction false} WarningsOfCount(ts: seq<TaskView>, id: Id, title: string)
    ensures multiset(WarningsOf(ts))[CountedMissingWeight(id, title)] == MissingWeightTasks(ts, id, title)
    ensures multiset(WarningsOf(ts))[GradedMissingGrade(id, title)] == MissingGradeTasks(ts, id, title)
  {
    if |ts| > 0 {
      WarningsOfCount(ts[1..], id, title);
      var head := TaskWarningsOf(ts[0]);
      HeadCounts(ts[0], id, title);
      assert WarningsOf(ts) == head + WarningsOf(ts[1..]);
      assert multiset(WarningsOf(ts)) == multiset(head) + multiset(WarningsOf(ts[1..]));
    }
  }

  lemma HeadCounts(t: TaskView, id: Id, title: string)
    ensures multiset(TaskWarningsOf(t))[CountedMissingWeight(id, title)]
      == if Counted(t) && !HasPositiveWeight(t) && t.task.id == id && t.task.title == title then 1 else 0
    ensures multiset(TaskWarningsOf(t))[GradedMissingGrade(id, title)]
      == if Counted(t) && IsGraded(t) && GradeOf(t).None? && t.task.id == id && t.task.title == title then 1 else 0
  {
  }

  /** The warnings come in three blocks: the optional total-weight warning, the task warnings in
      task order, and the final-exam warning last; each missing-weight or missing-grade warning
      appears once per task that raises it. */
  lemma BuildGradeWarningsLayout(ts: seq<TaskView>, finalTask: Option<TaskView>, id: Id, title: string)
    ensures var r := BuildGradeWarnings(ts, finalTask);
      var head := if TotalCountedWeight(ts) > OverWeightTolerance then 1 else 0;
      var fin := FinalWarning(finalTask);
      && |r| == head + |TaskWarnings(ts)| + |fin| && |fin| <= 1
      && r[head..|r| - |fin|] == TaskWarnings(ts)
      && r[|r| - |fin|..] == fin
      && multiset(r)[CountedMissingWeight(id, title)] == MissingWeightTasks(ts, id, title)
      && multiset(r)[GradedMissingGrade(id, title)] == MissingGradeTasks(ts, id, title)
  {
    LayoutOfWarnings(ts, finalTask, id, title);
    assert TaskWarnings(ts) == WarningsOf(ts);
  }

  lemma LayoutOfWarnings(ts: seq<TaskView>, finalTask: Option<TaskView>, id: Id, title: string)
    ensures var r := OverWarning(ts) + WarningsOf(ts) + FinalWarning(finalTask);
      var head := if TotalCountedWeight(ts) > OverWeightTolerance then 1 else 0;
      var fin := FinalWarning(finalTask);
      && |r| == head + |WarningsOf(ts)| + |fin| && |fin| <= 1
      && r[head..|r| - |fin|] == WarningsOf(ts)
      && r[|r| - |fin|..] == fin
      && multiset(r)[CountedMissingWeight(id, title)] == MissingWeightTasks(ts, id, title)
      && multiset(r)[GradedMissingGrade(id, title)] == MissingGradeTasks(ts, id, title)
  {
    ThreeBlocks(OverWarning(ts), WarningsOf(ts), FinalWarning(finalTask));
    CountsOfWarnings(ts, finalTask, id, title);
  }

  lemma CountsOfWarnings(ts: seq<TaskView>, finalTask: Option<TaskView>, id: Id, title: string)
    ensures var r := OverWarning(ts) + WarningsOf(ts) + FinalWarning(finalTask);
      && multiset(r)[CountedMissingWeight(id, title)] == MissingWeightTasks(ts, id, title)
      && multiset(r)[GradedMissingGrade(id, title)] == MissingGradeTasks(ts, id, title)
  {
    var over, perTask, fin := OverWarning(ts), WarningsOf(ts), FinalWarning(finalTask);
    assert multiset(over + perTask + fin) == multiset(over) + multiset(perTask) + multiset(fin);
    WarningsOfCount(ts, id, title);
    assert multiset(over)[CountedMissingWeight(id, title)] == 0 && multiset(over)[GradedMissingGrade(id, title)] == 0;
    assert multiset(fin)[CountedMissingWeight(id, title)] == 0 && multiset(fin)[GradedMissingGrade(id, title)] == 0;
  }

  lemma ThreeBlocks<T>(a: seq<T>, b: seq<T>, c: seq<T>)
    ensures var r := a + b + c;
      && |r| == |a| + |b| + |c|
      && r[|a|..|r| - |c|] == b
      && r[|r| - |c|..] == c
      && multiset(r) == multiset(a) + multiset(b) + multiset(c)
  {
    var r := a + b + c;
    assert r[|a|..|r| - |c|] == b;
    assert r[|r| - |c|..] == c;
  }

  /** Two listings that agree, task by task, on the grade, the id and the title. */
  predicate SameGrades(ts: seq<TaskView>, us: seq<TaskView>) {
    && |ts| == |us|
    && forall i :: 0 <= i < |ts| ==>
         ts[i].grade == us[i].grade && ts[i].task.id == us[i].task.id && ts[i].task.title == us[i].task.title
  }

  /** Every quantity the grade math reads off a task depends on its grade alone. */
  lemma SameGradeSameReadings(t: TaskView, u: TaskView)
    requires t.grade == u.grade
    ensures Counted(t) == Counted(u) && IsGraded(t) == IsGraded(u) && Contributes(t) == Contributes(u)
    ensures WeightOf(t) == WeightOf(u) && GradeOf(t) == GradeOf(u) && HasPositiveWeight(t) == HasPositiveWeight(u)
  {
  }

  lemma SameGradesTail(ts: seq<TaskView>, us: seq<TaskView>)
    requires SameGrades(ts, us) && |ts| > 0
    ensures SameGrades(ts[1..], us[1..])
  {
    forall i | 0 <= i < |ts| - 1 ensures ts[1..][i] == ts[i + 1] && us[1..][i] == us[i + 1] { }
  }

  lemma {:induction false} SameGradesSameSums(ts: seq<TaskView>, us: seq<TaskView>)
    requires SameGrades(ts, us)
    ensures TotalCountedWeight(ts) == TotalCountedWeight(us) && CompletedWeight(ts) == CompletedWeight(us)
    ensures SumW(ts) == SumW(us)
  {
    if |ts| > 0 {
      SameGradesTail(ts, us);
      SameGradesSameSums(ts[1..], us[1..]);
      SameGradeSameReadings(ts[0], us[0]);
    }
  }

  lemma {:induction false} SameGradesSameProducts(ts: seq<TaskView>, us: seq<TaskView>)
    requires SameGrades(ts, us)
    ensures SumWG(ts) == SumWG(us)
  {
    if |ts| > 0 {
      SameGradesTail(ts, us);
      SameGradesSameProducts(ts[1..], us[1..]);
      SameGradeSameReadings(ts[0], us[0]);
    }
  }

  lemma {:induction false} SameGradesSameTaskWarnings(ts: seq<TaskView>, us: seq<TaskView>)
    requires SameGrades(ts, us)
    ensures TaskWarnings(ts) == TaskWarnings(us)
  {
    if |ts| > 0 {
      SameGradesTail(ts, us);
      SameGradesSameTaskWarnings(ts[1..], us[1..]);
      SameGradeSameReadings(ts[0], us[0]);
    }
  }

  /** Only the grade and the task's id and title enter the grade math: two course listings that
      agree on those give the same numbers and the same warnings, whatever the task's status,
      due date or workspace. */
  lemma OnlyGradesMatter(ts: seq<TaskView>, us: seq<TaskView>)
    requires SameGrades(ts, us)
    ensures ComputeWeightStats(ts) == ComputeWeightStats(us)
    ensures ComputeCurrentSoFar(ts) == ComputeCurrentSoFar(us)
    ensures ComputeProjectedOverall(ts) == ComputeProjectedOverall(us)
    ensures forall f :: BuildGradeWarnings(ts, f) == BuildGradeWarnings(us, f)
  {
    SameGradesSameSums(ts, us);
    SameGradesSameProducts(ts, us);
    SameGradesSameTaskWarnings(ts, us);
  }
}
