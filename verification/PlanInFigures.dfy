/** A plan in the figures of its specification: how many weeks it has, which days and which stage each of
    them holds, who gets which hours, and what the fallback hands out. */
module PlanInFigures {
  import opened Filters
  import opened Hours
  import opened Order
  import opened Plan
  import opened Rounding
  import opened StageWeeks
  import opened Sums
  import opened TutorialsInFigures
  import Tutorials

  /** The number of weeks: at least one; two or more only if the cap allows them and the last one is needed;
      and enough for all days unless the cap is reached. */
  lemma WeeksInFigures(days: int, maxWeeks: int, n: int)
    ensures n == TotalWeeks(days, maxWeeks) <==>
            n >= 1 && (n > 1 ==> n <= maxWeeks && 7 * (n - 1) < days) && (n >= maxWeeks || 7 * n >= days)
  {
  }

  /** The weeks of a roadmap: that many, numbered from one, each of seven days or what is left of them,
      counted down to the exam. */
  lemma RoadmapWeeks(days: int, H: int, current: StageLabel, states: seq<SubjectState>, maxWeeks: int,
                     catalogue: seq<Tutorials.Tutorial>, rnd: real -> int, plan: StudyPlan)
    requires plan.Roadmap? && RoadmapFor(days, H, current, states, maxWeeks, catalogue, rnd, plan)
    ensures var n := |plan.weeks|;
      && n == plan.totalWeeks
      && n >= 1 && (n > 1 ==> n <= maxWeeks && 7 * (n - 1) < days) && (n >= maxWeeks || 7 * n >= days)
    ensures forall k :: 0 <= k < |plan.weeks| ==>
      var w := plan.weeks[k];
      && w.no == k + 1
      && (7 * k <= days ==> w.range.first == days - 7 * k)
      && (7 * k > days ==> w.range.first == 0)
      && (w.range.first >= 6 ==> w.range.last == w.range.first - 6)
      && (w.range.first < 6 ==> w.range.last == 0)
  {
    hide Distribution, Calendar, RemainingStages;
    CalendarShape(days, current, plan.totalWeeks, HoursFor(FirstStates(states), H, rnd));
    WeeksInFigures(days, maxWeeks, |plan.weeks|);
  }

  // ---- The stages of the calendar ----

  /** Where the weeks of the `i`-th stage begin. */
  function Start(plan: seq<StageWeeks>, i: nat): int
    requires i <= |plan|
  {
    Sum(WeeksOf(plan[..i]))
  }

  lemma {:induction false} ExpandAt(days: int, plan: seq<StageWeeks>, hours: seq<SubjectHours>, i: nat, j: nat)
    requires NonNegative(plan) && i < |plan| && j < plan[i].weeks
    ensures var w, at := Expand(days, plan, hours), Start(plan, i) + j;
      && 0 <= at < |w|
      && w[at].stage == plan[i].stage && w[at].milestone == StageGoal(plan[i].stage, j + 1, plan[i].weeks)
  {
    hide RangeOf, Sum;
    var n := |plan| - 1;
    var front := Expand(days, plan[..n], hours);
    ExpandShape(days, plan[..n], hours);
    if i < n {
      ExpandAt(days, plan[..n], hours, i, j);
      assert plan[..n][..i] == plan[..i];
    } else {
      assert Expand(days, plan, hours)[|front| + j] == StageBlock(days, plan[n], |front|, hours)[j];
    }
  }

  /** A stage's weeks stand together, behind those of the stages before it, and count up to their number;
      only the very last week carries the final check instead. */
  lemma CalendarAt(days: int, plan: seq<StageWeeks>, hours: seq<SubjectHours>, i: nat, j: nat)
    requires NonNegative(plan) && i < |plan| && j < plan[i].weeks
    ensures var w, at := Calendar(days, plan, hours), Start(plan, i) + j;
      && 0 <= at < |w| == Start(plan, |plan|)
      && w[at].stage == plan[i].stage
      && w[at].milestone == if at == |w| - 1 then FinalCheck else StageGoal(plan[i].stage, j + 1, plan[i].weeks)
  {
    hide RangeOf, Sum, Expand;
    ExpandAt(days, plan, hours, i, j);
    ExpandShape(days, plan, hours);
    assert plan[..|plan|] == plan;
  }

  function Is(s: Stage): Stage -> bool {
    (t: Stage) => t == s
  }

  /** How many of the weeks are of stage `s`. */
  function CountOf(weeks: seq<Week>, s: Stage): nat {
    |Where(StagesOf(weeks), Is(s))|
  }

  lemma CountOfConcat(v: seq<Week>, w: seq<Week>, s: Stage)
    ensures CountOf(v + w, s) == CountOf(v, s) + CountOf(w, s)
  {
    assert StagesOf(v + w) == StagesOf(v) + StagesOf(w);
    WhereConcat(StagesOf(v), StagesOf(w), Is(s));
  }

  lemma CountOfBlock(days: int, plan: StageWeeks, from: nat, hours: seq<SubjectHours>, s: Stage)
    requires plan.weeks >= 0
    ensures CountOf(StageBlock(days, plan, from, hours), s) == if plan.stage == s then plan.weeks else 0
  {
    hide RangeOf;
    var stages := StagesOf(StageBlock(days, plan, from, hours));
    if plan.stage == s { WhereAll(stages, Is(s)); } else { WhereNone(stages, Is(s)); }
  }

  lemma {:induction false} ExpandCount(days: int, plan: seq<StageWeeks>, hours: seq<SubjectHours>, s: Stage)
    requires NonNegative(plan) && InStageOrder(plan)
    ensures var count := CountOf(Expand(days, plan, hours), s);
      && (!HasStage(plan, s) ==> count == 0)
      && (forall i :: 0 <= i < |plan| && plan[i].stage == s ==> count == plan[i].weeks)
  {
    hide StageBlock, InStageOrder, CountOf;
    if plan == [] {
      NoWeeks(s);
    } else {
      var n := |plan| - 1;
      var front := Expand(days, plan[..n], hours);
      OrderOfFront(plan);
      ExpandCount(days, plan[..n], hours, s);
      CountOfConcat(front, StageBlock(days, plan[n], |front|, hours), s);
      CountOfBlock(days, plan[n], |front|, hours, s);
      StageComesOnce(plan, n);
      assert forall i :: 0 <= i < n ==> plan[..n][i] == plan[i];
    }
  }

  lemma NoWeeks(s: Stage)
    ensures CountOf([], s) == 0
  {
  }

  lemma OrderOfFront(plan: seq<StageWeeks>)
    requires plan != [] && InStageOrder(plan)
    ensures InStageOrder(plan[..|plan| - 1])
  {
    hide Position;
  }

  lemma StageComesOnce(plan: seq<StageWeeks>, n: nat)
    requires InStageOrder(plan) && n < |plan|
    ensures !HasStage(plan[..n], plan[n].stage)
  {
    hide Position;
  }

  /** Every stage has as many weeks in the calendar as the distribution gives it, none if it gives it none. */
  lemma StageWeeksInCalendar(days: int, current: StageLabel, totalWeeks: nat, hours: seq<SubjectHours>, s: Stage)
    requires totalWeeks >= 1
    ensures var plan := Distribution(RemainingStages(current), totalWeeks);
      && NonNegative(plan)
      && var count := CountOf(Calendar(days, plan, hours), s);
      && (!HasStage(plan, s) ==> count == 0)
      && (forall i :: 0 <= i < |plan| && plan[i].stage == s ==> count == plan[i].weeks)
  {
    hide Distribution, RemainingStages, Expand, Where;
    DistributionInOrder(current, totalWeeks);
    var plan := Distribution(RemainingStages(current), totalWeeks);
    ExpandCount(days, plan, hours, s);
    assert StagesOf(Calendar(days, plan, hours)) == StagesOf(Expand(days, plan, hours));
  }

  // ---- Who gets which hours ----

  /** In every week the subjects stand in the order of their first states, each with the hours that its own
      accuracy was allotted. */
  lemma RoadmapAllocation(days: int, H: int, current: StageLabel, states: seq<SubjectState>, maxWeeks: int,
                          catalogue: seq<Tutorials.Tutorial>, rnd: real -> int, plan: StudyPlan, acc: seq<real>)
    requires plan.Roadmap? && RoadmapFor(days, H, current, states, maxWeeks, catalogue, rnd, plan)
    requires var kept := FirstStates(states);
      |acc| == |kept| && forall i :: 0 <= i < |kept| ==> acc[i] == kept[i].accuracy
    ensures forall k, i :: 0 <= k < |plan.weeks| && 0 <= i < |acc| ==>
      |plan.weeks[k].hours| == |acc| != 0
      && plan.weeks[k].hours[i] == SubjectHours(FirstStates(states)[i].subject, Allocation(acc, H, rnd)[i])
  {
    hide Distribution, Calendar, RemainingStages, FirstStates, Allocation;
    var kept := FirstStates(states);
    CalendarShape(days, current, plan.totalWeeks, HoursFor(kept, H, rnd));
    assert acc == Accuracies(kept);
  }

  // ---- What is studied when ----

  /** In every week the tutorials come subject by subject, in the order of the subjects' first states, and
      of each subject as many as fall to the week. */
  lemma RoadmapFocus(days: int, H: int, current: StageLabel, states: seq<SubjectState>, maxWeeks: int,
                     catalogue: seq<Tutorials.Tutorial>, rnd: real -> int, plan: StudyPlan, k: nat, subject: string,
                     per: nat)
    requires plan.Roadmap? && RoadmapFor(days, H, current, states, maxWeeks, catalogue, rnd, plan)
    requires k < |plan.weeks| && HasSubject(states, subject)
    requires var T := |TeachingBefore(StagesOf(plan.weeks), |plan.weeks|)|;
      Ceiling(per, |Tutorials.OfSubject(catalogue, subject)|, T)
    ensures |plan.focus| == |plan.weeks| && InTurn(SubjectsOf(FirstStates(states)), plan.focus[k])
    ensures var load := |Tutorials.OfSubject(plan.focus[k], subject)|;
      var m, r := |Tutorials.OfSubject(catalogue, subject)|, |TeachingBefore(StagesOf(plan.weeks), k)|;
      if plan.weeks[k].stage !in {Intro, PostLecture, ObjectiveEntry} then load == 0
      else if r * per >= m then load == 0
      else load == if r * per + per <= m then per else m - r * per
  {
    hide FirstStates, Calendar, Distribution, InTurn, Ceiling, TeachingBefore, Tutorials.OfSubject, Tutorials.Focus;
    var subjects, stages := SubjectsOf(FirstStates(states)), StagesOf(plan.weeks);
    FirstStatesAreFirst(states);
    SubjectsOfMembers(FirstStates(states), subject);
    LoadInFigures(catalogue, subjects, stages, k, subject, per);
    SubjectsInTurn(catalogue, subjects, stages, k);
  }

  // ---- The fallback ----

  /** Without any subject state each of five subjects gets a fifth of the week, to the nearest hundredth, and
      the first one what is left of it; a week without hours is left to the first one as it is. */
  lemma FallbackInFigures(H: int, rnd: real -> int)
    requires Nearest(rnd)
    ensures var f := FallbackHours(H, rnd);
      && |f| == 5 && f[1] == f[2] == f[3] == f[4] && f[0] == H - 4 * f[1]
      && (H > 0 ==> 2 * H - 5 <= 10 * f[1] <= 2 * H + 5)
      && (H <= 0 ==> f[1] == 0)
  {
    var x := H as real / 5.0;
    assert x - 0.5 <= rnd(x) as real <= x + 0.5;
  }
}
