/** The weekly hours of each subject: weighted shares, the fail-risk floor, and rounding to
    hundredths of an hour. Hours are counted in hundredths, so a rounded amount is an integer. */
module Hours {
  import opened Rounding
  import opened Sums

  const MAINTENANCE_RATIO := 0.05
  const FLOOR_RATIO := 0.15
  const FAIL_RISK_ACCURACY := 0.40
  const STABLE_ACCURACY := 0.70
  const FAIL_RISK_WEIGHT_BOOST := 0.5
  const EPSILON := 0.0000001  // the source's 1e-9 hours, in hundredths

  datatype SubjectState = SubjectState(subject: string, accuracy: real)
  datatype SubjectHours = SubjectHours(subject: string, hours: int)

  predicate FailRisk(accuracy: real) {
    accuracy < FAIL_RISK_ACCURACY
  }

  function SubjectWeight(accuracy: real): real {
    if accuracy >= STABLE_ACCURACY then 0.0
    else if FailRisk(accuracy) then 1.0 - accuracy + FAIL_RISK_WEIGHT_BOOST
    else 1.0 - accuracy
  }

  function MaxR(a: real, b: real): real {
    if a >= b then a else b
  }

  // ---- Before rounding ----

  function Weights(acc: seq<real>): (w: seq<real>)
    ensures |w| == |acc|
  {
    seq(|acc|, i requires 0 <= i < |acc| => SubjectWeight(acc[i]))
  }

  /** Every subject's upkeep, and what is left to share; more than twenty subjects leave nothing. */
  function Maintenance(n: nat, H: int): real
    requires n > 0
  {
    if H as real - H as real * MAINTENANCE_RATIO * n as real < 0.0 then H as real / n as real
    else H as real * MAINTENANCE_RATIO
  }

  function Pool(n: nat, H: int): real
    requires n > 0
  {
    var pool := H as real - H as real * MAINTENANCE_RATIO * n as real;
    if pool < 0.0 then 0.0 else pool
  }

  function Share(pool: real, w: real, W: real, n: nat): real
    requires n > 0
  {
    if W <= 0.0 then pool / n as real else pool * w / W
  }

  /** Upkeep plus a share of the pool in proportion to weight. */
  function Shares(acc: seq<real>, H: int): (h: seq<real>)
    requires acc != []
    ensures |h| == |acc|
  {
    var w := Weights(acc);
    var W := SumR(w);
    var n := |acc|;
    seq(n, i requires 0 <= i < n => Maintenance(n, H) + Share(Pool(n, H), w[i], W, n))
  }

  function Floor(H: int): real {
    H as real * FLOOR_RATIO
  }

  /** What each fail-risk subject lacks of the floor. */
  function Deficits(acc: seq<real>, h: seq<real>, floor: real): (d: seq<real>)
    requires |h| == |acc|
    ensures |d| == |acc|
  {
    seq(|acc|, i requires 0 <= i < |acc| => if FailRisk(acc[i]) && h[i] < floor then floor - h[i] else 0.0)
  }

  /** What each other subject has above its upkeep. */
  function Spares(acc: seq<real>, h: seq<real>, maintenance: real): (s: seq<real>)
    requires |h| == |acc|
    ensures |s| == |acc|
  {
    seq(|acc|, i requires 0 <= i < |acc| => if FailRisk(acc[i]) then 0.0 else MaxR(0.0, h[i] - maintenance))
  }

  /** The fraction of its spare hours that each donor gives up. */
  function Ratio(raised: real, capacity: real): real {
    if raised > EPSILON && capacity > EPSILON then
      if raised / capacity < 1.0 then raised / capacity else 1.0
    else 0.0
  }

  function Raised(acc: seq<real>, H: int): real
    requires acc != []
  {
    SumR(Deficits(acc, Shares(acc, H), Floor(H)))
  }

  function Capacity(acc: seq<real>, H: int): real
    requires acc != []
  {
    SumR(Spares(acc, Shares(acc, H), Maintenance(|acc|, H)))
  }

  /** Hours after the floor raise and the donors' payment, before rounding. */
  function Balanced(acc: seq<real>, H: int): (b: seq<real>)
    requires acc != []
    ensures |b| == |acc|
  {
    var h := Shares(acc, H);
    var d := Deficits(acc, h, Floor(H));
    var s := Spares(acc, h, Maintenance(|acc|, H));
    var ratio := Ratio(SumR(d), SumR(s));
    seq(|acc|, i requires 0 <= i < |acc| => h[i] + d[i] - s[i] * ratio)
  }

  // ---- Rounding ----

  function Rounded(h: seq<real>, rnd: real -> int): (r: seq<int>)
    ensures |r| == |h|
  {
    seq(|h|, i requires 0 <= i < |h| => rnd(h[i]))
  }

  /** The first position of the largest entry. */
  function ArgMax(r: seq<int>): (t: nat)
    requires r != []
    ensures t < |r|
    ensures forall i :: 0 <= i < |r| ==> r[i] <= r[t]
    ensures forall i :: 0 <= i < t ==> r[i] < r[t]
  {
    if |r| == 1 then 0
    else
      var t := ArgMax(r[..|r| - 1]);
      if r[|r| - 1] > r[t] then |r| - 1 else t
  }

  /** Give the rounding drift to the largest entry. */
  function AbsorbDrift(r: seq<int>, H: int): (a: seq<int>)
    requires r != []
    ensures |a| == |r|
  {
    if Sum(r) == H then r else r[ArgMax(r) := r[ArgMax(r)] + H - Sum(r)]
  }

  predicate SomeNegative(r: seq<int>) {
    exists i :: 0 <= i < |r| && r[i] < 0
  }

  function Clamped(r: seq<int>): (c: seq<int>)
    ensures |c| == |r| && forall i :: 0 <= i < |c| ==> c[i] >= 0
  {
    seq(|r|, i requires 0 <= i < |r| => if r[i] < 0 then 0 else r[i])
  }

  function Scaled(c: seq<int>, H: int): (s: seq<real>)
    ensures |s| == |c|
  {
    var scale := if Sum(c) > 0 then H as real / Sum(c) as real else 0.0;
    seq(|c|, i requires 0 <= i < |c| => c[i] as real * scale)
  }

  /** Clamp, rescale to the total, round again; this drift is absorbed only down to zero. */
  function Renormalised(r: seq<int>, H: int, rnd: real -> int): (a: seq<int>)
    requires r != []
    ensures |a| == |r|
  {
    var r2 := Rounded(Scaled(Clamped(r), H), rnd);
    var t := ArgMax(r2);
    var v := r2[t] + H - Sum(r2);
    if Sum(r2) == H then r2 else r2[t := if v < 0 then 0 else v]
  }

  /** The hours of each subject, in hundredths. */
  function Allocation(acc: seq<real>, H: int, rnd: real -> int): (a: seq<int>)
    requires acc != []
    ensures |a| == |acc|
  {
    if H <= 0 then seq(|acc|, _ => 0)
    else
      var a := AbsorbDrift(Rounded(Balanced(acc, H), rnd), H);
      if SomeNegative(a) then Renormalised(a, H, rnd) else a
  }

  function Accuracies(states: seq<SubjectState>): (acc: seq<real>)
    ensures |acc| == |states|
  {
    seq(|states|, i requires 0 <= i < |states| => states[i].accuracy)
  }

  /** Raise every fail-risk subject to the floor, in place; `raised` is what that took. */
  method RaiseToFloor(acc: seq<real>, hours: array<real>, floor: real) returns (raised: real)
    requires hours.Length == |acc|
    modifies hours
    ensures
      var d := Deficits(acc, old(hours[..]), floor);
      && raised == SumR(d)
      && forall k :: 0 <= k < |acc| ==> hours[k] == old(hours[k]) + d[k]
  {
    ghost var d := Deficits(acc, hours[..], floor);
    raised := 0.0;
    for i := 0 to |acc|
      invariant raised == SumR(d[..i])
      invariant forall k :: 0 <= k < |acc| ==> hours[k] == if k < i then old(hours[k]) + d[k] else old(hours[k])
    {
      assert d[..i + 1] == d[..i] + [d[i]];
      SumRAppend(d[..i], d[i]);
      if FailRisk(acc[i]) && hours[i] < floor {
        raised := raised + (floor - hours[i]);
        hours[i] := floor;
      }
    }
    assert d[..|acc|] == d;
  }

  /** What the donors have above their upkeep, added up. */
  method DonorCapacity(acc: seq<real>, hours: seq<real>, maintenance: real) returns (capacity: real)
    requires |hours| == |acc|
    ensures capacity == SumR(Spares(acc, hours, maintenance))
  {
    var s := Spares(acc, hours, maintenance);
    capacity := 0.0;
    for i := 0 to |acc|
      invariant capacity == SumR(s[..i])
    {
      assert s[..i + 1] == s[..i] + [s[i]];
      SumRAppend(s[..i], s[i]);
      if !FailRisk(acc[i]) { capacity := capacity + MaxR(0.0, hours[i] - maintenance); }
    }
    assert s[..|acc|] == s;
  }

  /** Take the same fraction of every donor's spare hours, in place. */
  method CollectFromDonors(acc: seq<real>, hours: array<real>, maintenance: real, ratio: real)
    requires hours.Length == |acc|
    modifies hours
    ensures
      var s := Spares(acc, old(hours[..]), maintenance);
      forall k :: 0 <= k < |acc| ==> hours[k] == old(hours[k]) - s[k] * ratio
  {
    ghost var s := Spares(acc, hours[..], maintenance);
    for i := 0 to |acc|
      invariant forall k :: 0 <= k < |acc| ==>
        hours[k] == if k < i then old(hours[k]) - s[k] * ratio else old(hours[k])
    {
      if !FailRisk(acc[i]) {
        hours[i] := hours[i] - MaxR(0.0, hours[i] - maintenance) * ratio;
      }
    }
  }

  /** Floor raise and donors' payment over one array of hours. */
  method Balance(acc: seq<real>, H: int) returns (b: seq<real>)
    requires acc != []
    ensures b == Balanced(acc, H)
  {
    hide Share, Floor, Ratio, Maintenance, Pool, SumR;
    var n := |acc|;
    var h := Shares(acc, H);
    var hours := new real[n](i requires 0 <= i < n => h[i]);
    assert hours[..] == h;
    var raised := RaiseToFloor(acc, hours, Floor(H));
    var capacity := DonorCapacity(acc, hours[..], Maintenance(n, H));
    assert Spares(acc, hours[..], Maintenance(n, H)) == Spares(acc, h, Maintenance(n, H));
    CollectFromDonors(acc, hours, Maintenance(n, H), Ratio(raised, capacity));
    b := hours[..];
    assert forall k :: 0 <= k < n ==> b[k] == Balanced(acc, H)[k];
  }

  /** The allocation, step by step. */
  method AllocateHours(acc: seq<real>, H: int, rnd: real -> int) returns (a: seq<int>)
    requires acc != []
    ensures a == Allocation(acc, H, rnd)
  {
    hide Balanced, Renormalised, Rounded, ArgMax, Sum, SomeNegative;
    if H <= 0 { return seq(|acc|, _ => 0); }
    var b := Balance(acc, H);
    a := Rounded(b, rnd);
    var drift := H - Sum(a);
    if drift != 0 {
      var target := ArgMax(a);
      a := a[target := a[target] + drift];
    }
    assert a == AbsorbDrift(Rounded(b, rnd), H);
    if SomeNegative(a) {
      a := Renormalise(a, H, rnd);
    }
  }

  /** The clamp, the rescaling and the second drift step. */
  method Renormalise(r: seq<int>, H: int, rnd: real -> int) returns (a: seq<int>)
    requires r != []
    ensures a == Renormalised(r, H, rnd)
  {
    hide Scaled, Clamped, Rounded, ArgMax, Sum;
    a := Rounded(Scaled(Clamped(r), H), rnd);
    var drift := H - Sum(a);
    if drift != 0 {
      var target := ArgMax(a);
      a := a[target := if a[target] + drift < 0 then 0 else a[target] + drift];
    }
  }

  /** Hours per subject. `states` is never empty: no subjects means the fallback plan. */
  method AllocateSubjectHours(states: seq<SubjectState>, H: int, rnd: real -> int) returns (out: seq<SubjectHours>)
    requires states != []
    ensures |out| == |states|
    ensures forall i :: 0 <= i < |out| ==>
      out[i] == SubjectHours(states[i].subject, Allocation(Accuracies(states), H, rnd)[i])
  {
    var a := AllocateHours(Accuracies(states), H, rnd);
    out := seq(|states|, i requires 0 <= i < |states| => SubjectHours(states[i].subject, a[i]));
  }
}
