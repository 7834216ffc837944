/** Study stages and the sharing of the remaining weeks among them by largest remainder. */
module StageWeeks {
  import opened Arithmetic
  import opened Order
  import opened Sums

  datatype Stage = Intro | PostLecture | ObjectiveEntry | PastExamRotation | MockExam | Final

  /** A user's current stage; the engine also accepts a label it does not know. */
  datatype StageLabel = Known(stage: Stage) | Unknown

  const STAGE_ORDER: seq<Stage> := [Intro, PostLecture, ObjectiveEntry, PastExamRotation, MockExam, Final]

  function StageWeight(s: Stage): nat {
    match s
    case Intro => 1
    case PostLecture => 2
    case ObjectiveEntry => 3
    case PastExamRotation => 4
    case MockExam => 2
    case Final => 1
  }

  function Position(s: Stage): (i: nat)
    ensures i < |STAGE_ORDER| && STAGE_ORDER[i] == s
  {
    match s
    case Intro => 0
    case PostLecture => 1
    case ObjectiveEntry => 2
    case PastExamRotation => 3
    case MockExam => 4
    case Final => 5
  }

  /** The stages from the current one to the exam; an unknown label starts from the beginning. */
  function RemainingStages(current: StageLabel): seq<Stage> {
    if current.Known? then STAGE_ORDER[Position(current.stage)..] else STAGE_ORDER
  }

  // ---- Exact quotas ----
  // With W the total weight, stage i's exact share of the extra weeks is Quota / W.

  function Weights(stages: seq<Stage>): (w: seq<int>)
    ensures |w| == |stages|
  {
    seq(|stages|, i requires 0 <= i < |stages| => StageWeight(stages[i]))
  }

  lemma WeightsPositive(stages: seq<Stage>)
    requires stages != []
    ensures Sum(Weights(stages)) > 0
  {
    SumBounds(Weights(stages), 1, 4);
  }

  function Floors(w: seq<int>, extra: nat, W: int): (f: seq<int>)
    requires W > 0
    ensures |f| == |w|
  {
    seq(|w|, i requires 0 <= i < |w| => extra * w[i] / W)
  }

  function Remainders(w: seq<int>, extra: nat, W: int): (r: seq<int>)
    requires W > 0
    ensures |r| == |w| && forall i :: 0 <= i < |r| ==> 0 <= r[i] < W
  {
    seq(|w|, i requires 0 <= i < |w| => extra * w[i] % W)
  }

  lemma {:induction false} QuotasAddUp(w: seq<int>, extra: nat, W: int)
    requires W > 0
    ensures W * Sum(Floors(w, extra, W)) + Sum(Remainders(w, extra, W)) == extra * Sum(w)
  {
    if w != [] {
      var v := w[1..];
      QuotasAddUp(v, extra, W);
      assert Floors(w, extra, W)[1..] == Floors(v, extra, W);
      assert Remainders(w, extra, W)[1..] == Remainders(v, extra, W);
      var f, r := extra * w[0] / W, extra * w[0] % W;
      assert W * f + r == extra * w[0];
      assert W * (f + Sum(Floors(v, extra, W))) == W * f + W * Sum(Floors(v, extra, W));
      assert extra * (w[0] + Sum(v)) == extra * w[0] + extra * Sum(v);
    }
  }

  lemma BetweenMultiples(W: int, left: int, n: int)
    requires W > 0 && n > 0
    requires 0 <= W * left <= (W - 1) * n
    ensures 0 <= left < n
  {
    assert W * (n - left) > 0;
  }

  /** Fewer whole weeks are left over than there are stages. */
  lemma LeftOverIsSmall(w: seq<int>, extra: nat)
    requires w != [] && Sum(w) > 0
    ensures 0 <= extra - Sum(Floors(w, extra, Sum(w))) < |w|
  {
    hide *;
    var W, whole := Sum(w), Sum(Floors(w, extra, Sum(w)));
    QuotasAddUp(w, extra, W);
    SumBounds(Remainders(w, extra, W), 0, W - 1);
    assert W * (extra - whole) == W * extra - W * whole;
    BetweenMultiples(W, extra - whole, |w|);
  }

  // ---- Distribution ----

  function Indices(n: nat): (s: seq<int>)
    ensures |s| == n && (forall i :: 0 <= i < n ==> s[i] == i) && Distinct(s)
  {
    seq(n, i => i)
  }

  /** Largest fractional part first; among equals the later stage first. */
  function RemainderKey(rems: seq<int>): int -> Key {
    i => Key(if 0 <= i < |rems| then -rems[i] else 0, -i, "")
  }

  /** `c` with one added at each listed index. */
  function Bump(c: seq<int>, idx: seq<int>): (r: seq<int>)
    requires forall k :: 0 <= k < |idx| ==> 0 <= idx[k] < |c|
    ensures |r| == |c|
  {
    if idx == [] then c
    else
      var p := Bump(c, idx[..|idx| - 1]);
      p[idx[|idx| - 1] := p[idx[|idx| - 1]] + 1]
  }

  /** The order in which left-over weeks are handed out. */
  function HandOutOrder(w: seq<int>, extra: nat, W: int): (order: seq<int>)
    requires W > 0
    ensures |order| == |w| && Distinct(order)
    ensures forall i :: i in order <==> 0 <= i < |w|
  {
    var key := RemainderKey(Remainders(w, extra, W));
    var order := SortBy(Indices(|w|), key);
    assert |order| == |w| && Distinct(order) && forall i :: i in order <==> 0 <= i < |w| by {
      SortBySorts(Indices(|w|), key);
      DistinctSameElements(Indices(|w|), order);
      forall i ensures i in order <==> 0 <= i < |w| {
        assert 0 <= i < |w| ==> Indices(|w|)[i] == i;
      }
    }
    order
  }

  /** One guaranteed week each, plus the whole part of the quota. */
  function Base(floors: seq<int>): (base: seq<int>)
    ensures |base| == |floors|
  {
    seq(|floors|, i requires 0 <= i < |floors| => 1 + floors[i])
  }

  /** Weeks not yet handed out once every stage has its week and the whole part of its quota. */
  function LeftOver(w: seq<int>, totalWeeks: nat): (left: int)
    requires w != [] && Sum(w) > 0 && totalWeeks > |w|
    ensures 0 <= left < |w|
  {
    hide Floors;
    LeftOverIsSmall(w, totalWeeks - |w|);
    totalWeeks - |w| - Sum(Floors(w, totalWeeks - |w|, Sum(w)))
  }

  /** The stages that receive a left-over week. */
  function Favoured(w: seq<int>, totalWeeks: nat): (idx: seq<int>)
    requires w != [] && Sum(w) > 0 && totalWeeks > |w|
    ensures |idx| == LeftOver(w, totalWeeks)
    ensures forall k :: 0 <= k < |idx| ==> 0 <= idx[k] < |w|
    ensures Distinct(idx)
  {
    hide LeftOver, HandOutOrder;
    var order := HandOutOrder(w, totalWeeks - |w|, Sum(w));
    assert forall k :: 0 <= k < |order| ==> order[k] in order;
    order[..LeftOver(w, totalWeeks)]
  }

  /** Weeks per stage when there are more weeks than stages. */
  function Apportion(w: seq<int>, totalWeeks: nat): (counts: seq<int>)
    requires w != [] && Sum(w) > 0 && totalWeeks > |w|
    ensures |counts| == |w|
  {
    hide Floors, Remainders, Favoured;
    Bump(Base(Floors(w, totalWeeks - |w|, Sum(w))), Favoured(w, totalWeeks))
  }

  lemma {:induction false} BumpSum(c: seq<int>, idx: seq<int>)
    requires forall k :: 0 <= k < |idx| ==> 0 <= idx[k] < |c|
    ensures Sum(Bump(c, idx)) == Sum(c) + |idx|
  {
    if idx != [] {
      var rest := idx[..|idx| - 1];
      BumpSum(c, rest);
      SumUpdate(Bump(c, rest), idx[|idx| - 1], Bump(c, rest)[idx[|idx| - 1]] + 1);
    }
  }

  lemma {:induction false} BumpAt(c: seq<int>, idx: seq<int>, i: int)
    requires forall k :: 0 <= k < |idx| ==> 0 <= idx[k] < |c|
    requires Distinct(idx) && 0 <= i < |c|
    ensures Bump(c, idx)[i] == c[i] + if i in idx then 1 else 0
  {
    if idx != [] {
      var last := |idx| - 1;
      BumpAt(c, idx[..last], i);
      assert idx == idx[..last] + [idx[last]];
    }
  }

  lemma {:induction false} BaseSum(floors: seq<int>)
    ensures Sum(Base(floors)) == |floors| + Sum(floors)
  {
    if floors != [] {
      assert Base(floors)[1..] == Base(floors[1..]);
      BaseSum(floors[1..]);
    }
  }

  /** Every week is handed out, none twice. */
  lemma WeeksAddUp(w: seq<int>, totalWeeks: nat)
    requires w != [] && Sum(w) > 0 && totalWeeks > |w|
    ensures Sum(Apportion(w, totalWeeks)) == totalWeeks
  {
    hide Floors, Base, Favoured;
    var floors := Floors(w, totalWeeks - |w|, Sum(w));
    BaseSum(floors);
    BumpSum(Base(floors), Favoured(w, totalWeeks));
  }

  /** Did stage `i` receive one of the left-over weeks? */
  ghost predicate RoundedUp(w: seq<int>, totalWeeks: nat, i: nat)
    requires w != [] && Sum(w) > 0 && totalWeeks > |w| && i < |w|
  {
    Apportion(w, totalWeeks)[i] > 1 + (totalWeeks - |w|) * w[i] / Sum(w)
  }

  lemma CountOf(w: seq<int>, totalWeeks: nat, i: nat)
    requires w != [] && Sum(w) > 0 && totalWeeks > |w| && i < |w|
    ensures Apportion(w, totalWeeks)[i]
         == 1 + (totalWeeks - |w|) * w[i] / Sum(w) + if i in Favoured(w, totalWeeks) then 1 else 0
  {
    hide Floors, Favoured;
    var floors := Floors(w, totalWeeks - |w|, Sum(w));
    BumpAt(Base(floors), Favoured(w, totalWeeks), i);
    assert floors[i] == (totalWeeks - |w|) * w[i] / Sum(w) by { FloorAt(w, totalWeeks - |w|, Sum(w), i); }
  }

  lemma FloorAt(w: seq<int>, extra: nat, W: int, i: nat)
    requires W > 0 && i < |w|
    ensures Floors(w, extra, W)[i] == extra * w[i] / W
    ensures Remainders(w, extra, W)[i] == extra * w[i] % W
  {
  }

  lemma FavouredKeys(w: seq<int>, totalWeeks: nat, i: nat, j: nat)
    requires w != [] && Sum(w) > 0 && totalWeeks > |w| && i < |w| && j < |w|
    requires i in Favoured(w, totalWeeks) && j !in Favoured(w, totalWeeks)
    ensures var key := RemainderKey(Remainders(w, totalWeeks - |w|, Sum(w))); KeyLe(key(i), key(j))
  {
    hide Floors, Remainders, LeftOver, RemainderKey, KeyLe, Indices, Sum;
    var key := RemainderKey(Remainders(w, totalWeeks - |w|, Sum(w)));
    var order := HandOutOrder(w, totalWeeks - |w|, Sum(w));
    assert j in order;
    SortBySorts(Indices(|w|), key);
    PrefixComesFirst(order, LeftOver(w, totalWeeks), key, i, j);
  }

  lemma FavouredComeFirst(w: seq<int>, totalWeeks: nat, i: nat, j: nat)
    requires w != [] && Sum(w) > 0 && totalWeeks > |w| && i < |w| && j < |w|
    requires i in Favoured(w, totalWeeks) && j !in Favoured(w, totalWeeks)
    ensures var rems := Remainders(w, totalWeeks - |w|, Sum(w));
      rems[j] < rems[i] || (rems[j] == rems[i] && j < i)
  {
    hide Floors, Remainders, Favoured, Sum;
    FavouredKeys(w, totalWeeks, i, j);
  }

  /** The quota rule: a count, less the guaranteed week, is the exact quota rounded down or up;
      and a left-over week goes to the larger fractional part, on a tie to the later stage. */
  lemma QuotaRule(w: seq<int>, totalWeeks: nat, i: nat)
    requires w != [] && Sum(w) > 0 && totalWeeks > |w| && i < |w|
    ensures
      var quota := (totalWeeks - |w|) * w[i];
      var count := Apportion(w, totalWeeks)[i];
      count - 1 == quota / Sum(w) || count - 1 == quota / Sum(w) + 1
    ensures RoundedUp(w, totalWeeks, i) ==> forall j: nat :: j < |w| && !RoundedUp(w, totalWeeks, j) ==>
        var ri, rj := (totalWeeks - |w|) * w[i] % Sum(w), (totalWeeks - |w|) * w[j] % Sum(w);
        rj < ri || (rj == ri && j < i)
  {
    hide Floors, Remainders, Favoured, Apportion;
    CountOf(w, totalWeeks, i);
    if RoundedUp(w, totalWeeks, i) {
      forall j: nat | j < |w| && !RoundedUp(w, totalWeeks, j)
        ensures
          var ri, rj := (totalWeeks - |w|) * w[i] % Sum(w), (totalWeeks - |w|) * w[j] % Sum(w);
          rj < ri || (rj == ri && j < i)
      {
        CountOf(w, totalWeeks, j);
        FavouredComeFirst(w, totalWeeks, i, j);
        FloorAt(w, totalWeeks - |w|, Sum(w), i);
        FloorAt(w, totalWeeks - |w|, Sum(w), j);
      }
    }
  }

  /** A heavier stage never gets fewer weeks; of two equally heavy stages the later one never does. */
  lemma HeavierStageGetsMore(w: seq<int>, totalWeeks: nat, i: nat, j: nat)
    requires w != [] && Sum(w) > 0 && totalWeeks > |w| && i < |w| && j < |w|
    requires w[i] > w[j] || (w[i] == w[j] && i > j)
    ensures Apportion(w, totalWeeks)[i] >= Apportion(w, totalWeeks)[j]
  {
    hide Floors, Remainders, Favoured, Apportion;
    var extra, W := totalWeeks - |w|, Sum(w);
    CountOf(w, totalWeeks, i);
    CountOf(w, totalWeeks, j);
    MulMonotone(extra, w[j], w[i]);
    DivMonotone(extra * w[j], extra * w[i], W);
    if j in Favoured(w, totalWeeks) && i !in Favoured(w, totalWeeks) {
      FavouredComeFirst(w, totalWeeks, j, i);
      FloorAt(w, extra, W, i);
      FloorAt(w, extra, W, j);
    }
  }

  lemma DivMod(a: int, d: int)
    requires d > 0
    ensures a == d * (a / d) + a % d && 0 <= a % d < d
  {
  }

  lemma DivMonotone(a: int, b: int, d: int)
    requires a <= b && d > 0
    ensures a / d <= b / d
    ensures a < b && a / d == b / d ==> a % d < b % d
    ensures a == b ==> a % d == b % d
  {
    DivMod(a, d);
    DivMod(b, d);
    QuotientsOrdered(d, a / d, a % d, b / d, b % d);
  }

  lemma QuotientsOrdered(d: int, x: int, r: int, y: int, q: int)
    requires 0 <= r < d && 0 <= q < d && d * x + r <= d * y + q
    ensures x <= y
  {
    assert d * x - d * y == d * (x - y);
    if x - y >= 1 { MulMonotone(d, 1, x - y); }
  }

  datatype StageWeeks = StageWeeks(stage: Stage, weeks: int)

  /** Weeks per stage: scarce weeks go to the last stages, one each. */
  function Distribution(stages: seq<Stage>, totalWeeks: nat): seq<StageWeeks> {
    if totalWeeks <= |stages| then
      var kept := stages[|stages| - totalWeeks..];
      seq(|kept|, i requires 0 <= i < |kept| => StageWeeks(kept[i], 1))
    else if stages == [] then []
    else
      WeightsPositive(stages);
      var counts := Apportion(Weights(stages), totalWeeks);
      seq(|stages|, i requires 0 <= i < |stages| => StageWeeks(stages[i], counts[i]))
  }

  /** Hand the left-over weeks out one by one. */
  method HandOut(w: seq<int>, totalWeeks: nat) returns (counts: seq<int>)
    requires w != [] && Sum(w) > 0 && totalWeeks > |w|
    ensures counts == Apportion(w, totalWeeks)
  {
    hide Floors, Remainders;
    var n, extra, W := |w|, totalWeeks - |w|, Sum(w);
    var floors := Floors(w, extra, W);
    BaseSum(floors);
    var c := new int[n](i requires 0 <= i < n => 1 + floors[i]);
    assert c[..] == Base(floors);
    var remainder := totalWeeks - Sum(c[..]);
    assert remainder == LeftOver(w, totalWeeks);
    var order := HandOutOrder(w, extra, W);
    ghost var idx := Favoured(w, totalWeeks);
    for k := 0 to remainder
      invariant c[..] == Bump(Base(floors), idx[..k])
    {
      assert idx[..k + 1][..k] == idx[..k];
      assert order[k] == idx[k];
      c[order[k]] := c[order[k]] + 1;
    }
    assert idx[..remainder] == idx;
    counts := c[..];
  }

  method DistributeStageWeeks(stages: seq<Stage>, totalWeeks: nat) returns (plan: seq<StageWeeks>)
    ensures plan == Distribution(stages, totalWeeks)
  {
    var n := |stages|;
    if totalWeeks <= n {
      var kept := stages[n - totalWeeks..];
      return seq(|kept|, i requires 0 <= i < |kept| => StageWeeks(kept[i], 1));
    }
    if n == 0 { return []; }
    WeightsPositive(stages);
    var counts := HandOut(Weights(stages), totalWeeks);
    plan := seq(n, i requires 0 <= i < n => StageWeeks(stages[i], counts[i]));
  }

  function WeeksOf(plan: seq<StageWeeks>): seq<int> {
    seq(|plan|, i requires 0 <= i < |plan| => plan[i].weeks)
  }

  lemma EveryStageHasAWeek(w: seq<int>, totalWeeks: nat, i: nat)
    requires w != [] && Sum(w) > 0 && totalWeeks > |w| && i < |w| && w[i] >= 0
    ensures Apportion(w, totalWeeks)[i] >= 1
  {
    hide Floors, Favoured, Apportion, Sum;
    CountOf(w, totalWeeks, i);
    MulMonotone(totalWeeks - |w|, 0, w[i]);
    DivMonotone(0, (totalWeeks - |w|) * w[i], Sum(w));
  }

  /** The whole promise of the stage distribution, for any list of stages. */
  lemma DistributionKeepsEveryWeek(stages: seq<Stage>, totalWeeks: nat)
    ensures var plan := Distribution(stages, totalWeeks);
      && (Sum(WeeksOf(plan)) == totalWeeks <==> stages != [] || totalWeeks == 0)
      && |plan| == (if totalWeeks < |stages| then totalWeeks else |stages|)
      && forall i :: 0 <= i < |plan| ==> plan[i].weeks >= 1 && plan[i].stage == stages[|stages| - |plan| + i]
  {
    hide Apportion, Sum, StageWeight;
    var plan := Distribution(stages, totalWeeks);
    if totalWeeks <= |stages| {
      SumBounds(WeeksOf(plan), 1, 1);
    } else if stages == [] {
      SumBounds(WeeksOf(plan), 0, 0);
    } else {
      WeightsPositive(stages);
      var w := Weights(stages);
      WeeksAddUp(w, totalWeeks);
      assert WeeksOf(plan) == Apportion(w, totalWeeks);
      forall i | 0 <= i < |plan| ensures plan[i].weeks >= 1 { EveryStageHasAWeek(w, totalWeeks, i); }
    }
  }

  /** Of two stages in a plan the heavier one, or the later of two equally heavy ones, has at least as many weeks. */
  lemma HeavierStageInPlan(stages: seq<Stage>, totalWeeks: nat, i: nat, j: nat)
    requires |stages| < totalWeeks && i < |stages| && j < |stages|
    requires
      || StageWeight(stages[i]) > StageWeight(stages[j])
      || (StageWeight(stages[i]) == StageWeight(stages[j]) && i > j)
    ensures |Distribution(stages, totalWeeks)| == |stages|
    ensures Distribution(stages, totalWeeks)[i].weeks >= Distribution(stages, totalWeeks)[j].weeks
  {
    hide Apportion, Sum, StageWeight;
    WeightsPositive(stages);
    HeavierStageGetsMore(Weights(stages), totalWeeks, i, j);
  }

  /** The past-exam rotation, while still ahead, gets the largest number of weeks of all stages. */
  lemma PastExamRotationLeads(current: StageLabel, totalWeeks: nat, i: nat, j: nat)
    requires var stages := RemainingStages(current);
      |stages| < totalWeeks && i < |stages| && j < |stages| && stages[i] == PastExamRotation
    ensures var plan := Distribution(RemainingStages(current), totalWeeks);
      |plan| == |RemainingStages(current)| && plan[i].weeks >= plan[j].weeks
  {
    hide Distribution;
    var stages := RemainingStages(current);
    DistributionKeepsEveryWeek(stages, totalWeeks);
    if stages[j] != PastExamRotation {
      HeavierStageInPlan(stages, totalWeeks, i, j);
    } else {
      assert i == j;
    }
  }

  /** The stages still ahead, by name. */
  lemma RemainingByName(current: StageLabel)
    ensures RemainingStages(current) ==
      match current
      case Unknown => [Intro, PostLecture, ObjectiveEntry, PastExamRotation, MockExam, Final]
      case Known(Intro) => [Intro, PostLecture, ObjectiveEntry, PastExamRotation, MockExam, Final]
      case Known(PostLecture) => [PostLecture, ObjectiveEntry, PastExamRotation, MockExam, Final]
      case Known(ObjectiveEntry) => [ObjectiveEntry, PastExamRotation, MockExam, Final]
      case Known(PastExamRotation) => [PastExamRotation, MockExam, Final]
      case Known(MockExam) => [MockExam, Final]
      case Known(Final) => [Final]
  {
  }

  /** With 13 weeks to share per round, a whole journey is laid out exactly as 1:2:3:4:2:1 on top of the
      guaranteed week of each stage. */
  lemma WholeJourneyInProportion(k: nat)
    requires k > 0
    ensures Distribution(RemainingStages(Unknown), 6 + 13 * k) ==
      [StageWeeks(Intro, 1 + k), StageWeeks(PostLecture, 1 + 2 * k), StageWeeks(ObjectiveEntry, 1 + 3 * k),
       StageWeeks(PastExamRotation, 1 + 4 * k), StageWeeks(MockExam, 1 + 2 * k), StageWeeks(Final, 1 + k)]
  {
    hide Apportion;
    var stages := RemainingStages(Unknown);
    RemainingByName(Unknown);
    var w := Weights(stages);
    assert w == [1, 2, 3, 4, 2, 1];
    assert Sum(w) == 13 by {
      assert w[1..] == [2, 3, 4, 2, 1] && w[1..][1..] == [3, 4, 2, 1];
      assert Sum([3, 4, 2, 1]) == 10 by {
        assert [3, 4, 2, 1][1..] == [4, 2, 1] && [4, 2, 1][1..] == [2, 1] && [2, 1][1..] == [1];
      }
    }
    WeeksAddUp(w, 6 + 13 * k);
    var counts := Apportion(w, 6 + 13 * k);
    forall i: nat | i < 6 ensures counts[i] == 1 + w[i] * k { ExactQuota(w, k, i); }
    var plan := Distribution(stages, 6 + 13 * k);
    assert forall i :: 0 <= i < 6 ==> plan[i] == StageWeeks(stages[i], counts[i]);
  }

  /** A quota that is a whole number is met exactly. */
  lemma ExactQuota(w: seq<int>, k: nat, i: nat)
    requires w != [] && Sum(w) > 0 && k > 0 && i < |w|
    ensures Apportion(w, |w| + Sum(w) * k)[i] == 1 + w[i] * k
  {
    hide Apportion, Sum, Favoured, Floors;
    var W, total := Sum(w), |w| + Sum(w) * k;
    assert W * k > 0 by { MulMonotone(W, 1, k); }
    CountOf(w, total, i);
    assert forall j :: 0 <= j < |w| ==> Sum(w) * k * w[j] == W * (k * w[j]);
    ExactDivision(W, k * w[i]);
    NothingLeftOver(w, k);
  }

  lemma ExactDivision(d: int, q: int)
    requires d > 0
    ensures d * q / d == q && d * q % d == 0
  {
    DivMod(d * q, d);
    var x, r := d * q / d, d * q % d;
    assert d * (q - x) == r;
    if q - x >= 1 { MulMonotone(d, 1, q - x); }
    if q - x <= -1 { MulMonotone(d, q - x, -1); }
  }

  lemma NothingLeftOver(w: seq<int>, k: nat)
    requires w != [] && Sum(w) > 0 && k > 0 && Sum(w) * k > 0
    ensures LeftOver(w, |w| + Sum(w) * k) == 0 && Favoured(w, |w| + Sum(w) * k) == []
  {
    hide Sum, Floors, Remainders;
    var W, extra := Sum(w), Sum(w) * k;
    QuotasAddUp(w, extra, W);
    var rems := Remainders(w, extra, W);
    forall j | 0 <= j < |w| ensures rems[j] == 0 {
      FloorAt(w, extra, W, j);
      assert extra * w[j] == W * (k * w[j]);
      ExactDivision(W, k * w[j]);
    }
    SumBounds(rems, 0, 0);
    assert W * Sum(Floors(w, extra, W)) == W * extra by { assert extra * W == W * extra; }
    MulCancel(W, extra, Sum(Floors(w, extra, W)));
    MulCancel(W, Sum(Floors(w, extra, W)), extra);
  }

  /** The stages in order of the weeks they get, by name: a stage never gets more than one before it in this list. */
  const BY_WEEKS: seq<Stage> := [PastExamRotation, ObjectiveEntry, MockExam, PostLecture, Final, Intro]

  lemma StagesByWeeks(current: StageLabel, totalWeeks: nat, i: nat, j: nat, a: nat, b: nat)
    requires var stages := RemainingStages(current);
      && |stages| < totalWeeks && i < |stages| && j < |stages|
      && a < b < 6 && stages[i] == BY_WEEKS[a] && stages[j] == BY_WEEKS[b]
    ensures var plan := Distribution(RemainingStages(current), totalWeeks);
      |plan| == |RemainingStages(current)| && plan[i].weeks >= plan[j].weeks
  {
    hide Distribution;
    RemainingByName(current);
    HeavierStageInPlan(RemainingStages(current), totalWeeks, i, j);
  }
}
