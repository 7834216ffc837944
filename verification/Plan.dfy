/** The study plan: its calendar, its stages week by week, its hours and its tutorials. */
module Plan {
  import opened Order
  import opened Rounding
  import opened Sums
  import opened StageWeeks
  import opened Hours
  import HoursLaws
  import Tutorials

  function WeeksNeeded(days: int): nat {
    if days <= 0 then 0 else (days + 6) / 7
  }

  /** At least one week, at most `maxWeeks`. */
  function TotalWeeks(days: int, maxWeeks: int): (n: nat)
    ensures n >= 1
  {
    var w := if maxWeeks < WeeksNeeded(days) then maxWeeks else WeeksNeeded(days);
    if w < 1 then 1 else w
  }

  /** Days before the exam, D-first down to D-last. */
  datatype DaysRange = DaysRange(first: nat, last: nat)

  function RangeOf(days: int, weekNo: int): DaysRange {
    var start := if days - 7 * (weekNo - 1) < 0 then 0 else days - 7 * (weekNo - 1);
    DaysRange(start, if start - 6 < 0 then 0 else start - 6)
  }

  datatype Milestone = StageGoal(stage: Stage, week: nat, ofWeeks: nat) | FinalCheck

  datatype Week = Week(no: nat, range: DaysRange, stage: Stage, milestone: Milestone, hours: seq<SubjectHours>)

  // ---- The weeks, stage by stage ----

  function StageBlock(days: int, plan: StageWeeks, from: nat, hours: seq<SubjectHours>): (b: seq<Week>)
    requires plan.weeks >= 0
    ensures |b| == plan.weeks
  {
    seq(plan.weeks, i requires 0 <= i < plan.weeks =>
      Week(from + i + 1, RangeOf(days, from + i + 1), plan.stage, StageGoal(plan.stage, i + 1, plan.weeks), hours))
  }

  ghost predicate NonNegative(plan: seq<StageWeeks>) {
    forall i :: 0 <= i < |plan| ==> plan[i].weeks >= 0
  }

  function Expand(days: int, plan: seq<StageWeeks>, hours: seq<SubjectHours>): (w: seq<Week>)
    requires NonNegative(plan)
  {
    if plan == [] then []
    else
      var front := Expand(days, plan[..|plan| - 1], hours);
      front + StageBlock(days, plan[|plan| - 1], |front|, hours)
  }

  /** The last week always carries the final check. */
  function Calendar(days: int, plan: seq<StageWeeks>, hours: seq<SubjectHours>): seq<Week>
    requires NonNegative(plan)
  {
    var w := Expand(days, plan, hours);
    if w == [] then [] else w[|w| - 1 := w[|w| - 1].(milestone := FinalCheck)]
  }

  lemma NothingExpanded(days: int, hours: seq<SubjectHours>)
    ensures Expand(days, [], hours) == []
  {
  }

  lemma ExpandNext(days: int, plan: seq<StageWeeks>, k: nat, hours: seq<SubjectHours>)
    requires NonNegative(plan) && k < |plan|
    ensures var front := Expand(days, plan[..k], hours);
      Expand(days, plan[..k + 1], hours) == front + StageBlock(days, plan[k], |front|, hours)
  {
    assert plan[..k + 1][..k] == plan[..k];
  }

  method BuildWeeks(days: int, plan: seq<StageWeeks>, hours: seq<SubjectHours>) returns (weeks: seq<Week>)
    requires NonNegative(plan) && Sum(WeeksOf(plan)) > 0
    ensures weeks == Calendar(days, plan, hours)
  {
    hide RangeOf, Expand;
    NothingExpanded(days, hours);
    weeks := [];
    var weekNo := 0;
    for k := 0 to |plan|
      invariant weekNo == |weeks| && weeks == Expand(days, plan[..k], hours)
    {
      var stage, count := plan[k].stage, plan[k].weeks;
      ghost var before, block := weeks, StageBlock(days, plan[k], |weeks|, hours);
      for i := 0 to count
        invariant weekNo == |weeks| && weeks == before + block[..i]
      {
        weekNo := weekNo + 1;
        assert block[..i + 1] == block[..i] + [block[i]];
        weeks := weeks + [Week(weekNo, RangeOf(days, weekNo), stage, StageGoal(stage, i + 1, count), hours)];
      }
      assert block[..count] == block;
      ExpandNext(days, plan, k, hours);
    }
    assert plan[..|plan|] == plan;
    ExpandShape(days, plan, hours);
    weeks := weeks[|weeks| - 1 := weeks[|weeks| - 1].(milestone := FinalCheck)];
  }

  /** As many weeks as were handed out, numbered 1..N, each with its own days. */
  lemma {:induction false} ExpandShape(days: int, plan: seq<StageWeeks>, hours: seq<SubjectHours>)
    requires NonNegative(plan)
    ensures var w := Expand(days, plan, hours);
      && |w| == Sum(WeeksOf(plan))
      && forall k :: 0 <= k < |w| ==> w[k].no == k + 1 && w[k].range == RangeOf(days, k + 1) && w[k].hours == hours
  {
    hide RangeOf, Sum;
    if plan == [] {
      SumBounds(WeeksOf(plan), 0, 0);
    } else {
      var n := |plan| - 1;
      var front := Expand(days, plan[..n], hours);
      ExpandShape(days, plan[..n], hours);
      assert WeeksOf(plan) == WeeksOf(plan[..n]) + [plan[n].weeks];
      SumAppend(WeeksOf(plan[..n]), plan[n].weeks);
      var w := Expand(days, plan, hours);
      forall k | 0 <= k < |w| ensures w[k].no == k + 1 && w[k].range == RangeOf(days, k + 1) && w[k].hours == hours {
        if k < |front| {
          assert w[k] == front[k];
        } else {
          assert w[k] == StageBlock(days, plan[n], |front|, hours)[k - |front|];
        }
      }
    }
  }

  ghost predicate InStageOrder(plan: seq<StageWeeks>) {
    forall i, j :: 0 <= i < j < |plan| ==> Position(plan[i].stage) < Position(plan[j].stage)
  }

  ghost predicate HasStage(plan: seq<StageWeeks>, s: Stage) {
    exists i :: 0 <= i < |plan| && plan[i].stage == s
  }

  /** Every week belongs to a stage of the distribution. */
  lemma {:induction false} ExpandStages(days: int, plan: seq<StageWeeks>, hours: seq<SubjectHours>, k: nat)
    requires NonNegative(plan) && k < |Expand(days, plan, hours)|
    ensures HasStage(plan, Expand(days, plan, hours)[k].stage)
  {
    var n := |plan| - 1;
    var front := Expand(days, plan[..n], hours);
    if k < |front| {
      ExpandStages(days, plan[..n], hours, k);
      var i :| 0 <= i < n && plan[..n][i].stage == front[k].stage;
      assert plan[i].stage == front[k].stage;
    } else {
      assert plan[n].stage == Expand(days, plan, hours)[k].stage;
    }
  }

  /** Stages never move backwards from one week to the next. */
  lemma {:induction false} ExpandInOrder(days: int, plan: seq<StageWeeks>, hours: seq<SubjectHours>, j: nat, k: nat)
    requires NonNegative(plan) && InStageOrder(plan) && j <= k < |Expand(days, plan, hours)|
    ensures Position(Expand(days, plan, hours)[j].stage) <= Position(Expand(days, plan, hours)[k].stage)
  {
    var n := |plan| - 1;
    var front := Expand(days, plan[..n], hours);
    if k < |front| {
      ExpandInOrder(days, plan[..n], hours, j, k);
    } else if j < |front| {
      ExpandStages(days, plan[..n], hours, j);
      var i :| 0 <= i < n && plan[..n][i].stage == front[j].stage;
      assert plan[i].stage == front[j].stage && plan[n].stage == Expand(days, plan, hours)[k].stage;
    }
  }

  lemma PositionsInOrder(i: nat)
    requires i < |STAGE_ORDER|
    ensures Position(STAGE_ORDER[i]) == i
  {
  }

  lemma DistributionInOrder(current: StageLabel, totalWeeks: nat)
    requires totalWeeks >= 1
    ensures var plan := Distribution(RemainingStages(current), totalWeeks);
      plan != [] && InStageOrder(plan) && plan[|plan| - 1].stage == Final && plan[|plan| - 1].weeks >= 1
      && NonNegative(plan) && Sum(WeeksOf(plan)) == totalWeeks
  {
    hide Distribution, Sum, RemainingStages, Position;
    var stages := RemainingStages(current);
    DistributionKeepsEveryWeek(stages, totalWeeks);
    RemainingInOrder(current);
    var plan := Distribution(stages, totalWeeks);
    var d := |stages| - |plan|;
    forall i, j | 0 <= i < j < |plan| ensures Position(plan[i].stage) < Position(plan[j].stage) {
      assert plan[i].stage == stages[d + i] && plan[j].stage == stages[d + j];
    }
  }

  lemma RemainingInOrder(current: StageLabel)
    ensures var stages := RemainingStages(current);
      && stages != [] && stages[|stages| - 1] == Final
      && forall i, j :: 0 <= i < j < |stages| ==> Position(stages[i]) < Position(stages[j])
  {
    forall i: nat | i < |STAGE_ORDER| ensures Position(STAGE_ORDER[i]) == i { PositionsInOrder(i); }
  }

  /** The calendar of a whole plan: N weeks numbered 1..N with their days, stages in order,
      the last week in the final stage and alone in carrying the final check. */
  lemma CalendarShape(days: int, current: StageLabel, totalWeeks: nat, hours: seq<SubjectHours>)
    requires totalWeeks >= 1
    ensures var plan := Distribution(RemainingStages(current), totalWeeks);
      && NonNegative(plan)
      && var w := Calendar(days, plan, hours);
      && |w| == totalWeeks
      && w[|w| - 1].stage == Final
      && (forall k :: 0 <= k < |w| ==> w[k].no == k + 1 && w[k].range == RangeOf(days, k + 1) && w[k].hours == hours)
      && (forall k :: 0 <= k < |w| ==> (w[k].milestone == FinalCheck <==> k == |w| - 1))
      && (forall j, k :: 0 <= j <= k < |w| ==> Position(w[j].stage) <= Position(w[k].stage))
  {
    hide Distribution, Expand, RangeOf, Position;
    var plan := Distribution(RemainingStages(current), totalWeeks);
    DistributionInOrder(current, totalWeeks);
    ExpandShape(days, plan, hours);
    forall j: nat, k: nat | j <= k < totalWeeks
      ensures Position(Expand(days, plan, hours)[j].stage) <= Position(Expand(days, plan, hours)[k].stage)
    {
      ExpandInOrder(days, plan, hours, j, k);
    }
    ExpandGoals(days, plan, hours);
    ExpandLast(days, plan, hours);
  }

  lemma ExpandLast(days: int, plan: seq<StageWeeks>, hours: seq<SubjectHours>)
    requires NonNegative(plan) && plan != [] && plan[|plan| - 1].weeks >= 1
    ensures var w := Expand(days, plan, hours); w != [] && w[|w| - 1].stage == plan[|plan| - 1].stage
  {
  }

  lemma {:induction false} ExpandGoals(days: int, plan: seq<StageWeeks>, hours: seq<SubjectHours>)
    requires NonNegative(plan)
    ensures forall k :: 0 <= k < |Expand(days, plan, hours)| ==> Expand(days, plan, hours)[k].milestone.StageGoal?
  {
    if plan != [] { ExpandGoals(days, plan[..|plan| - 1], hours); }
  }

  // ---- The calendar covers the days ----

  predicate Covers(r: DaysRange, d: int) {
    r.last <= d <= r.first
  }

  ghost predicate Covered(w: seq<Week>, d: int) {
    exists k :: 0 <= k < |w| && Covers(w[k].range, d)
  }

  /** Day d before the exam lies in week k exactly when k is the week that counting back from D-`days` gives. */
  lemma CoveredByOneWeek(days: int, d: int, k: nat)
    requires 1 <= d <= days
    ensures Covers(RangeOf(days, k + 1), d) <==> k == (days - d) / 7
  {
  }

  /** Which remaining days a plan covers, and that none is covered twice. */
  lemma CoverageIsExact(days: int, current: StageLabel, maxWeeks: int, hours: seq<SubjectHours>, d: int)
    requires 1 <= d <= days
    ensures var plan := Distribution(RemainingStages(current), TotalWeeks(days, maxWeeks));
      && NonNegative(plan)
      && var w := Calendar(days, plan, hours);
      && (Covered(w, d) <==> d > days - 7 * TotalWeeks(days, maxWeeks))
      && (forall j, k :: 0 <= j < |w| && 0 <= k < |w| && Covers(w[j].range, d) && Covers(w[k].range, d) ==> j == k)
  {
    var n := TotalWeeks(days, maxWeeks);
    CalendarShape(days, current, n, hours);
    var w := Calendar(days, Distribution(RemainingStages(current), n), hours);
    var k0 := (days - d) / 7;
    forall k | 0 <= k < |w| ensures Covers(w[k].range, d) <==> k == k0 { CoveredByOneWeek(days, d, k); }
    if k0 < n { assert Covers(w[k0].range, d); }
  }

  /** Every remaining day is covered exactly when the weeks needed fit under the cap. */
  lemma WholeHorizonCovered(days: int, current: StageLabel, maxWeeks: int, hours: seq<SubjectHours>)
    requires days >= 1
    ensures var plan := Distribution(RemainingStages(current), TotalWeeks(days, maxWeeks));
      && NonNegative(plan)
      && var w := Calendar(days, plan, hours);
      (forall d :: 1 <= d <= days ==> Covered(w, d))
      <==> (WeeksNeeded(days) <= maxWeeks || WeeksNeeded(days) <= 1)
  {
    var n := TotalWeeks(days, maxWeeks);
    CalendarShape(days, current, n, hours);
    var w := Calendar(days, Distribution(RemainingStages(current), n), hours);
    assert (7 * n >= days) <==> (WeeksNeeded(days) <= maxWeeks || WeeksNeeded(days) <= 1);
    forall d | 1 <= d <= days
      ensures Covered(w, d) <==> d > days - 7 * n
    {
      CoverageIsExact(days, current, maxWeeks, hours, d);
    }
    assert Covered(w, 1) <==> 1 > days - 7 * n;
  }

  const DEFAULT_MAX_WEEKS := 52

  /** The default cap of 52 weeks does not hold a one-year plan: the last day before the exam is in no week. */
  lemma OneYearPlanMissesTheLastDay(current: StageLabel, hours: seq<SubjectHours>)
    ensures WeeksNeeded(365) == 53
    ensures var plan := Distribution(RemainingStages(current), TotalWeeks(365, DEFAULT_MAX_WEEKS));
      && NonNegative(plan)
      && !Covered(Calendar(365, plan, hours), 1)
      && forall d :: 2 <= d <= 365 ==> Covered(Calendar(365, plan, hours), d)
  {
    hide Distribution, Calendar, Covered;
    CoverageIsExact(365, current, DEFAULT_MAX_WEEKS, hours, 1);
    forall d | 2 <= d <= 365
      ensures Covered(Calendar(365, Distribution(RemainingStages(current), 52), hours), d)
    {
      CoverageIsExact(365, current, DEFAULT_MAX_WEEKS, hours, d);
    }
  }

  // ---- Duplicate subjects ----

  predicate HasSubject(states: seq<SubjectState>, subject: string) {
    exists i :: 0 <= i < |states| && states[i].subject == subject
  }

  /** Only the first state of each subject. */
  function FirstStates(states: seq<SubjectState>): seq<SubjectState> {
    if states == [] then []
    else
      var front, last := FirstStates(states[..|states| - 1]), states[|states| - 1];
      if HasSubject(front, last.subject) then front else front + [last]
  }

  function SubjectsOf(states: seq<SubjectState>): (s: seq<string>)
    ensures |s| == |states|
  {
    seq(|states|, i requires 0 <= i < |states| => states[i].subject)
  }

  method KeepFirstStates(states: seq<SubjectState>) returns (kept: seq<SubjectState>)
    ensures kept == FirstStates(states)
  {
    kept := [];
    var seen: set<string> := {};
    for k := 0 to |states|
      invariant kept == FirstStates(states[..k])
      invariant forall s :: s in seen <==> HasSubject(kept, s)
    {
      assert states[..k + 1][..k] == states[..k];
      if states[k].subject !in seen {
        seen := seen + {states[k].subject};
        ghost var before := kept;
        kept := kept + [states[k]];
        forall s ensures HasSubject(kept, s) <==> HasSubject(before, s) || s == states[k].subject {
          HasSubjectAppend(before, states[k], s);
        }
      }
    }
    assert states[..|states|] == states;
  }

  lemma HasSubjectAppend(s: seq<SubjectState>, x: SubjectState, subject: string)
    ensures HasSubject(s + [x], subject) <==> HasSubject(s, subject) || x.subject == subject
  {
    var t := s + [x];
    assert t[|s|] == x;
    if HasSubject(s, subject) {
      var i :| 0 <= i < |s| && s[i].subject == subject;
      assert t[i].subject == subject;
    }
  }

  lemma {:induction false} FirstStatesCover(states: seq<SubjectState>, subject: string)
    ensures HasSubject(states, subject) <==> HasSubject(FirstStates(states), subject)
  {
    if states != [] {
      var n := |states| - 1;
      FirstStatesCover(states[..n], subject);
      assert states == states[..n] + [states[n]];
      HasSubjectAppend(states[..n], states[n], subject);
      HasSubjectAppend(FirstStates(states[..n]), states[n], subject);
    }
  }

  lemma {:induction false} FirstStatesDistinct(states: seq<SubjectState>)
    ensures Distinct(SubjectsOf(FirstStates(states)))
  {
    if states != [] {
      FirstStatesDistinct(states[..|states| - 1]);
      var front := FirstStates(states[..|states| - 1]);
      var subjects := SubjectsOf(FirstStates(states));
      forall i, j | 0 <= i < j < |subjects| ensures subjects[i] != subjects[j] {
        assert subjects[i] == SubjectsOf(front)[i] == front[i].subject;
        if j < |front| { assert subjects[j] == SubjectsOf(front)[j]; }
      }
    }
  }

  /** A kept state is the first one that its subject came with. */
  lemma {:induction false} KeptStatesAreFirst(states: seq<SubjectState>, st: SubjectState)
    requires st in FirstStates(states)
    ensures exists i :: 0 <= i < |states| && states[i] == st && !HasSubject(states[..i], st.subject)
  {
    var n := |states| - 1;
    var front := FirstStates(states[..n]);
    if st in front {
      KeptStatesAreFirst(states[..n], st);
      var i :| 0 <= i < n && states[..n][i] == st && !HasSubject(states[..n][..i], st.subject);
      assert states[..n][..i] == states[..i];
      assert states[i] == st;
    } else {
      FirstStatesCover(states[..n], st.subject);
      assert states[n] == st;
    }
  }

  /** Later states are only ever added behind: the subjects stay in the order they first came in. */
  lemma {:induction false} FirstStatesGrow(states: seq<SubjectState>, k: nat)
    requires k <= |states|
    ensures FirstStates(states[..k]) <= FirstStates(states)
  {
    if k == |states| {
      assert states[..k] == states;
    } else {
      assert states[..|states| - 1][..k] == states[..k];
      FirstStatesGrow(states[..|states| - 1], k);
    }
  }

  /** No subject twice, every subject once, with the state it first came with, in order of first appearance. */
  lemma FirstStatesAreFirst(states: seq<SubjectState>)
    ensures forall k :: 0 <= k <= |states| ==> FirstStates(states[..k]) <= FirstStates(states)
    ensures Distinct(SubjectsOf(FirstStates(states)))
    ensures forall s :: HasSubject(states, s) <==> HasSubject(FirstStates(states), s)
    ensures forall st :: st in FirstStates(states) ==>
      exists i :: 0 <= i < |states| && states[i] == st && !HasSubject(states[..i], st.subject)
  {
    forall k | 0 <= k <= |states|
      ensures FirstStates(states[..k]) <= FirstStates(states)
    {
      FirstStatesGrow(states, k);
    }
    FirstStatesDistinct(states);
    forall s ensures HasSubject(states, s) <==> HasSubject(FirstStates(states), s) { FirstStatesCover(states, s); }
    forall st | st in FirstStates(states)
      ensures exists i :: 0 <= i < |states| && states[i] == st && !HasSubject(states[..i], st.subject)
    {
      KeptStatesAreFirst(states, st);
    }
  }

  // ---- The plan ----

  datatype StudyPlan =
    | Fallback(hours: seq<int>)
    | Roadmap(totalWeeks: nat, weeks: seq<Week>, focus: seq<seq<Tutorials.Tutorial>>)

  const FALLBACK_SUBJECTS := 5

  /** Equal hours for the five subjects, the drift on the first. */
  function FallbackHours(H: int, rnd: real -> int): seq<int> {
    var each := if H > 0 then rnd(H as real / 5.0) else 0;
    [each + (H - each * FALLBACK_SUBJECTS), each, each, each, each]
  }

  lemma FallbackHoursAddUp(H: int, rnd: real -> int)
    ensures Sum(FallbackHours(H, rnd)) == H
  {
    var f := FallbackHours(H, rnd);
    SumUpdate(f, 0, f[1]);
    SumBounds(f[0 := f[1]], f[1], f[1]);
  }

  /** The fallback gives negative time to its first subject for exactly one non-negative weekly total. */
  lemma FallbackNegativeIff(H: int, rnd: real -> int)
    requires Nearest(rnd)
    ensures (forall i :: 0 <= i < FALLBACK_SUBJECTS ==> FallbackHours(H, rnd)[i] >= 0) <==> H >= 0 && H != 3
  {
    var f := FallbackHours(H, rnd);
    var x := H as real / 5.0;
    assert x - 0.5 <= rnd(x) as real <= x + 0.5;
    assert (forall i :: 0 <= i < FALLBACK_SUBJECTS ==> f[i] >= 0) <==> f[0] >= 0 && f[1] >= 0;
  }

  function StagesOf(weeks: seq<Week>): (s: seq<Stage>)
    ensures |s| == |weeks|
  {
    seq(|weeks|, i requires 0 <= i < |weeks| => weeks[i].stage)
  }

  function HoursFor(states: seq<SubjectState>, H: int, rnd: real -> int): seq<SubjectHours>
    requires states != []
  {
    seq(|states|, i requires 0 <= i < |states| =>
      SubjectHours(states[i].subject, Allocation(Accuracies(states), H, rnd)[i]))
  }

  /** The roadmap for at least one subject: the calendar, everybody's hours, and the tutorials. */
  ghost predicate RoadmapFor(days: int, H: int, current: StageLabel, states: seq<SubjectState>, maxWeeks: int,
                             catalogue: seq<Tutorials.Tutorial>, rnd: real -> int, plan: StudyPlan)
    requires plan.Roadmap?
  {
    var kept := FirstStates(states);
    var shares := Distribution(RemainingStages(current), plan.totalWeeks);
    && plan.totalWeeks == TotalWeeks(days, maxWeeks) == |plan.weeks|
    && NonNegative(shares)
    && kept != [] && plan.weeks == Calendar(days, shares, HoursFor(kept, H, rnd))
    && plan.focus == Tutorials.Focus(catalogue, SubjectsOf(kept), StagesOf(plan.weeks))
  }

  /** `H` is the weekly total in hundredths of an hour, as rounded from the daily hours. */
  method BuildStudyPlan(days: int, H: int, current: StageLabel, states: seq<SubjectState>, maxWeeks: int,
                        catalogue: seq<Tutorials.Tutorial>, rnd: real -> int) returns (plan: StudyPlan)
    ensures states == [] <==> plan.Fallback?
    ensures plan.Fallback? ==> plan.hours == FallbackHours(H, rnd) && Sum(plan.hours) == H
    ensures plan.Roadmap? ==> RoadmapFor(days, H, current, states, maxWeeks, catalogue, rnd, plan)
  {
    var kept := KeepFirstStates(states);
    if kept == [] {
      assert states == [] by {
        FirstStatesAreFirst(states);
        if states != [] { assert HasSubject(states, states[0].subject); }
      }
      FallbackHoursAddUp(H, rnd);
      return Fallback(FallbackHours(H, rnd));
    }
    var totalWeeks := TotalWeeks(days, maxWeeks);
    var shares := DistributeStageWeeks(RemainingStages(current), totalWeeks);
    var hours := AllocateSubjectHours(kept, H, rnd);
    assert hours == HoursFor(kept, H, rnd);
    DistributionInOrder(current, totalWeeks);
    CalendarShape(days, current, totalWeeks, hours);
    var weeks := BuildWeeks(days, shares, hours);
    var focus := Tutorials.AssignTutorials(catalogue, SubjectsOf(kept), StagesOf(weeks));
    plan := Roadmap(totalWeeks, weeks, focus);
  }

  // ---- What a roadmap promises ----

  function HoursIn(w: Week): (h: seq<int>)
    ensures |h| == |w.hours|
  {
    seq(|w.hours|, i requires 0 <= i < |w.hours| => w.hours[i].hours)
  }

  function SubjectsIn(w: Week): (s: seq<string>)
    ensures |s| == |w.hours|
  {
    seq(|w.hours|, i requires 0 <= i < |w.hours| => w.hours[i].subject)
  }

  /** Each week plans every subject once, never negative time, and hands out the weekly total unless the
      last clamp bites. */
  lemma RoadmapHours(days: int, H: int, current: StageLabel, states: seq<SubjectState>, maxWeeks: int,
                     catalogue: seq<Tutorials.Tutorial>, rnd: real -> int, plan: StudyPlan, k: nat)
    requires plan.Roadmap? && RoadmapFor(days, H, current, states, maxWeeks, catalogue, rnd, plan) && Nearest(rnd)
    requires k < |plan.weeks|
    ensures SubjectsIn(plan.weeks[k]) == SubjectsOf(FirstStates(states)) && Distinct(SubjectsIn(plan.weeks[k]))
    ensures forall s :: s in SubjectsIn(plan.weeks[k]) <==> HasSubject(states, s)
    ensures forall i :: 0 <= i < |HoursIn(plan.weeks[k])| ==> HoursIn(plan.weeks[k])[i] >= 0
    ensures H > 0 ==>
      (Sum(HoursIn(plan.weeks[k])) == H <==> !HoursLaws.Overdrawn(Accuracies(FirstStates(states)), H, rnd))
  {
    hide Allocation, HoursLaws.Overdrawn, FirstStates, Sum, Expand, Distribution;
    var kept := FirstStates(states);
    var acc, w := Accuracies(kept), plan.weeks[k];
    CalendarShape(days, current, plan.totalWeeks, HoursFor(kept, H, rnd));
    assert w.hours == HoursFor(kept, H, rnd);
    assert SubjectsIn(w) == SubjectsOf(kept);
    assert HoursIn(w) == Allocation(acc, H, rnd);
    FirstStatesAreFirst(states);
    forall s ensures s in SubjectsOf(kept) <==> HasSubject(kept, s) { SubjectsOfMembers(kept, s); }
    HoursLaws.HoursAreNonNegative(acc, H, rnd);
    if H > 0 { HoursLaws.HoursAddUp(acc, H, rnd); }
  }

  lemma SubjectsOfMembers(states: seq<SubjectState>, s: string)
    ensures s in SubjectsOf(states) <==> HasSubject(states, s)
  {
    if HasSubject(states, s) {
      var i :| 0 <= i < |states| && states[i].subject == s;
      assert SubjectsOf(states)[i] == s;
    }
  }

  ghost predicate HasTeachingWeek(weeks: seq<Week>) {
    exists k :: 0 <= k < |weeks| && Tutorials.Teaching(weeks[k].stage)
  }

  /** Every tutorial of a planned subject is scheduled exactly once, in study order and in teaching weeks
      only, if there is a teaching week at all; otherwise none is. */
  lemma RoadmapTutorials(days: int, H: int, current: StageLabel, states: seq<SubjectState>, maxWeeks: int,
                         catalogue: seq<Tutorials.Tutorial>, rnd: real -> int, plan: StudyPlan, subject: string)
    requires plan.Roadmap? && RoadmapFor(days, H, current, states, maxWeeks, catalogue, rnd, plan)
    requires HasSubject(states, subject)
    ensures |plan.focus| == |plan.weeks|
    ensures Tutorials.ScheduledFor(plan.focus, subject) ==
      if HasTeachingWeek(plan.weeks) then Tutorials.CatalogueFor(catalogue, subject) else []
    ensures forall k :: 0 <= k < |plan.weeks| && plan.focus[k] != [] ==> Tutorials.Teaching(plan.weeks[k].stage)
  {
    hide FirstStates, Calendar, Distribution, Tutorials.CatalogueFor, Tutorials.ScheduledFor, Tutorials.Focus;
    var subjects, stages := SubjectsOf(FirstStates(states)), StagesOf(plan.weeks);
    FirstStatesAreFirst(states);
    SubjectsOfMembers(FirstStates(states), subject);
    assert forall k :: 0 <= k < |stages| ==> stages[k] == plan.weeks[k].stage;
    Tutorials.ScheduleOf(catalogue, subjects, stages, subject);
  }

  /** The whole promise of a roadmap over the remaining days: as many weeks as fit under the cap, every
      remaining day in exactly one of them if and only if the weeks needed fit, every subject in every
      week with the weekly total handed out, and every tutorial once. */
  lemma RoadmapKeepsItsPromises(days: int, H: int, current: StageLabel, states: seq<SubjectState>, maxWeeks: int,
                                catalogue: seq<Tutorials.Tutorial>, rnd: real -> int, plan: StudyPlan)
    requires plan.Roadmap? && RoadmapFor(days, H, current, states, maxWeeks, catalogue, rnd, plan) && Nearest(rnd)
    requires days >= 1 && H > 0
    ensures forall j, k, d ::
      (0 <= j < |plan.weeks| && 0 <= k < |plan.weeks| && 1 <= d <= days
       && Covers(plan.weeks[j].range, d) && Covers(plan.weeks[k].range, d)) ==> j == k
    ensures (forall d :: 1 <= d <= days ==> Covered(plan.weeks, d))
      <==> (WeeksNeeded(days) <= maxWeeks || WeeksNeeded(days) <= 1)
    ensures (forall k :: 0 <= k < |plan.weeks| ==> Sum(HoursIn(plan.weeks[k])) == H)
      <==> !HoursLaws.Overdrawn(Accuracies(FirstStates(states)), H, rnd)
    ensures forall s :: HasSubject(states, s) && HasTeachingWeek(plan.weeks) ==>
      Tutorials.ScheduledFor(plan.focus, s) == Tutorials.CatalogueFor(catalogue, s)
  {
    hide FirstStates, Calendar, Distribution, Tutorials.CatalogueFor;
    hide Tutorials.ScheduledFor, RangeOf, Sum, HoursLaws.Overdrawn, HoursIn;
    var hours := HoursFor(FirstStates(states), H, rnd);
    WholeHorizonCovered(days, current, maxWeeks, hours);
    forall j, k, d | 0 <= j < |plan.weeks| && 0 <= k < |plan.weeks| && 1 <= d <= days
      && Covers(plan.weeks[j].range, d) && Covers(plan.weeks[k].range, d) ensures j == k
    {
      CoverageIsExact(days, current, maxWeeks, hours, d);
    }
    forall k | 0 <= k < |plan.weeks|
      ensures Sum(HoursIn(plan.weeks[k])) == H <==> !HoursLaws.Overdrawn(Accuracies(FirstStates(states)), H, rnd)
    {
      RoadmapHours(days, H, current, states, maxWeeks, catalogue, rnd, plan, k);
    }
    assert Sum(HoursIn(plan.weeks[0])) == H <==> !HoursLaws.Overdrawn(Accuracies(FirstStates(states)), H, rnd);
    forall s | HasSubject(states, s) && HasTeachingWeek(plan.weeks)
      ensures Tutorials.ScheduledFor(plan.focus, s) == Tutorials.CatalogueFor(catalogue, s)
    {
      RoadmapTutorials(days, H, current, states, maxWeeks, catalogue, rnd, plan, s);
    }
  }
}
