/** The hour allocation in the figures of its specification: who gets what, before and after rounding. */
module HoursInFigures {
  import opened Hours
  import opened HoursLaws
  import opened Rounding
  import opened Sums

  /** Upkeep is 5% of the week each for up to twenty subjects, and an even split for more. */
  lemma UpkeepInFigures(n: nat, H: int)
    requires n > 0 && H > 0
    ensures Maintenance(n, H) == if n <= 20 then 0.05 * H as real else H as real / n as real
    ensures Pool(n, H) == if n <= 20 then (1.0 - 0.05 * n as real) * H as real else 0.0
  {
    var h := H as real;
    assert h - h * 0.05 * n as real == (1.0 - 0.05 * n as real) * h;
    if n <= 20 {
      NonNegativeProduct(1.0 - 0.05 * n as real, h);
    } else {
      SignOfProduct(h, 1.0 - 0.05 * n as real);
    }
  }

  /** What a subject's accuracy counts for: its weakness, with a bonus of one half below the fail line,
      and nothing from 70% on. */
  function Claim(accuracy: real): real {
    if accuracy < 0.40 then 1.5 - accuracy
    else if accuracy < 0.70 then 1.0 - accuracy
    else 0.0
  }

  lemma WeightsAreClaims(acc: seq<real>)
    ensures forall i :: 0 <= i < |acc| ==> Weights(acc)[i] == Claim(acc[i]) >= 0.0
  {
  }

  lemma CrossShares(pool: real, v: real, w: real, W: real, n: nat, s: real, t: real)
    requires n > 0 && W > 0.0 && s == Share(pool, v, W, n) && t == Share(pool, w, W, n)
    ensures s * w == t * v
  {
    hide Share;
    var c := pool / W;
    DivTimes(pool, W);
    ShareIsLinear(pool, v, W, n, c);
    ShareIsLinear(pool, w, W, n, c);
    assert c * v * w == c * w * v;
  }

  lemma ShareAt(acc: seq<real>, H: int, i: nat)
    requires i < |acc|
    ensures Shares(acc, H)[i] - Maintenance(|acc|, H)
         == Share(Pool(|acc|, H), Weights(acc)[i], SumR(Weights(acc)), |acc|)
  {
    hide Share, Pool, Maintenance, SumR, Weights;
  }

  /** What is left after upkeep is shared in proportion to the claims. */
  lemma SharesInProportion(acc: seq<real>, H: int, i: nat, j: nat)
    requires i < |acc| && j < |acc| && H > 0
    ensures var s, m := Shares(acc, H), Maintenance(|acc|, H);
      (s[i] - m) * Claim(acc[j]) == (s[j] - m) * Claim(acc[i])
  {
    hide Share, Shares, Pool, Maintenance, SumR, Claim;
    var w := Weights(acc);
    WeightsAreClaims(acc);
    WeightSigns(acc);
    ShareAt(acc, H, i);
    ShareAt(acc, H, j);
    if SumR(w) > 0.0 {
      CrossShares(Pool(|acc|, H), w[i], w[j], SumR(w), |acc|, Shares(acc, H)[i] - Maintenance(|acc|, H),
                  Shares(acc, H)[j] - Maintenance(|acc|, H));
    } else {
      WeightAtMostTotal(w, i);
      WeightAtMostTotal(w, j);
    }
  }

  /** The same, written out: two weak subjects above the fail line, two below it, one of each. */
  lemma SharesInFigures(acc: seq<real>, H: int, i: nat, j: nat)
    requires i < |acc| && j < |acc| && H > 0 && acc[i] < 0.70 && acc[j] < 0.70
    ensures var s, m := Shares(acc, H), Maintenance(|acc|, H);
      && (acc[i] >= 0.40 && acc[j] >= 0.40 ==> (s[i] - m) * (1.0 - acc[j]) == (s[j] - m) * (1.0 - acc[i]))
      && (acc[i] < 0.40 && acc[j] < 0.40 ==> (s[i] - m) * (1.5 - acc[j]) == (s[j] - m) * (1.5 - acc[i]))
      && (acc[i] < 0.40 <= acc[j] ==> (s[i] - m) * (1.0 - acc[j]) == (s[j] - m) * (1.5 - acc[i]))
  {
    hide Shares, Maintenance;
    SharesInProportion(acc, H, i, j);
  }

  lemma LargerShare(pool: real, v: real, w: real, W: real, n: nat)
    requires n > 0 && W > 0.0 && pool > 0.0 && v > w
    ensures Share(pool, v, W, n) > Share(pool, w, W, n)
  {
    hide Share;
    var c := pool / W;
    DivTimes(pool, W);
    ShareIsLinear(pool, v, W, n, c);
    ShareIsLinear(pool, w, W, n, c);
    SignOfProduct(W, c);
    assert c * (v - w) == c * v - c * w;
    SignOfProduct(c, v - w);
  }

  /** Of two weak subjects the weaker one has strictly more before raise and payment. */
  lemma WeakerSharesMore(acc: seq<real>, H: int, i: nat, j: nat)
    requires i < |acc| < 20 && j < |acc| && H > 0 && acc[i] < acc[j] && acc[i] < 0.70
    ensures Shares(acc, H)[i] > Shares(acc, H)[j]
  {
    hide Share, Shares, Pool, Maintenance, SumR;
    var w := Weights(acc);
    WeightsAreClaims(acc);
    WeightSigns(acc);
    WeightAtMostTotal(w, i);
    ShareAt(acc, H, i);
    ShareAt(acc, H, j);
    SomethingToShare(|acc|, H);
    LargerShare(Pool(|acc|, H), w[i], w[j], SumR(w), |acc|);
  }

  lemma SomethingToShare(n: nat, H: int)
    requires 0 < n < 20 && H > 0
    ensures Pool(n, H) > 0.0
  {
    UpkeepInFigures(n, H);
    SignOfProduct(H as real, 1.0 - 0.05 * n as real);
  }

  /** While nobody is weak, the rest is split evenly. */
  lemma StableShareEvenly(acc: seq<real>, H: int, i: nat)
    requires i < |acc| && H > 0 && forall k :: 0 <= k < |acc| ==> acc[k] >= 0.70
    ensures Shares(acc, H)[i] - Maintenance(|acc|, H) == Pool(|acc|, H) / |acc| as real
  {
    hide Pool, Maintenance, SumR;
    SumRBounds(Weights(acc), 0.0, 0.0);
    ShareAt(acc, H, i);
  }

  /** A fail-risk subject is raised to 15% of the week; every other one keeps the same fraction of what it
      has above upkeep, all of it while nothing is raised. */
  lemma BalanceInFigures(acc: seq<real>, H: int, i: nat, j: nat)
    requires i < |acc| && j < |acc| && H > 0
    ensures var b, s, m := Balanced(acc, H), Shares(acc, H), Maintenance(|acc|, H);
      && (acc[i] < 0.40 ==> b[i] == if s[i] < 0.15 * H as real then 0.15 * H as real else s[i])
      && (acc[i] >= 0.40 ==> m <= b[i] <= s[i])
      && (acc[i] >= 0.40 && acc[j] >= 0.40 ==> (b[i] - m) * (s[j] - m) == (b[j] - m) * (s[i] - m))
      && (acc[i] >= 0.40 && (forall k :: 0 <= k < |acc| && acc[k] < 0.40 ==> s[k] >= 0.15 * H as real) ==> b[i] == s[i])
  {
    hide Shares, Maintenance, Ratio, Balanced, Raised, Capacity, Kept;
    var s, m := Shares(acc, H), Maintenance(|acc|, H);
    var ratio := Ratio(Raised(acc, H), Capacity(acc, H));
    BalancedAt(acc, H, i);
    BalancedAt(acc, H, j);
    SharesAboveMaintenance(acc, H, i);
    SharesAboveMaintenance(acc, H, j);
    BalancedSum(acc, H);
    RatioBounds(Raised(acc, H), Capacity(acc, H));
    KeptSpareIsMonotone(s[i], s[i], m, ratio);
    KeptInProportion(s[i], s[j], m, ratio);
    if forall k :: 0 <= k < |acc| && acc[k] < 0.40 ==> s[k] >= 0.15 * H as real {
      NothingRaised(acc, H);
      NoPayment(Raised(acc, H), Capacity(acc, H));
      KeptWhole(s[i], m);
    }
  }

  /** What the fail-risk subjects lack of 15% of the week, subject by subject. */
  ghost predicate Lacks(acc: seq<real>, H: int, d: seq<real>)
    requires acc != []
  {
    && |d| == |acc|
    && forall i :: 0 <= i < |acc| ==>
         var s := Shares(acc, H)[i];
         d[i] == if acc[i] < 0.40 && s < 0.15 * H as real then 0.15 * H as real - s else 0.0
  }

  /** What the other subjects have above their upkeep. */
  ghost predicate Spare(acc: seq<real>, H: int, d: seq<real>)
    requires acc != []
  {
    && |d| == |acc|
    && forall i :: 0 <= i < |acc| ==> d[i] == if acc[i] < 0.40 then 0.0 else Shares(acc, H)[i] - Maintenance(|acc|, H)
  }

  /** What a donor pays. With next to nothing to pay or to pay with, nothing; otherwise the same fraction of
      what it has above upkeep as all donors: the total raise by the total spare, but at most all of it. */
  lemma DonorsPay(acc: seq<real>, H: int, lack: seq<real>, spare: seq<real>, i: nat)
    requires i < |acc| && H > 0 && acc[i] >= 0.40 && Lacks(acc, H, lack) && Spare(acc, H, spare)
    ensures var paid, L, S := Shares(acc, H)[i] - Balanced(acc, H)[i], SumR(lack), SumR(spare);
      if L <= 0.0000001 || S <= 0.0000001 then paid == 0.0
      else if L < S then paid * S == spare[i] * L
      else paid == spare[i]
  {
    hide Shares, Maintenance, SumR, Balanced, Ratio, Lacks, Spare;
    DonorPaid(acc, H, lack, spare, i);
    PaidFraction(spare[i], SumR(lack), SumR(spare));
  }

  lemma SpareAt(acc: seq<real>, H: int, spare: seq<real>, i: nat)
    requires i < |acc| && acc[i] >= 0.40 && Spare(acc, H, spare)
    ensures i < |spare| && spare[i] == Shares(acc, H)[i] - Maintenance(|acc|, H)
  {
    hide Shares, Maintenance;
  }

  lemma SumsOfLackAndSpare(acc: seq<real>, H: int, lack: seq<real>, spare: seq<real>)
    requires acc != [] && H > 0 && Lacks(acc, H, lack) && Spare(acc, H, spare)
    ensures SumR(lack) == Raised(acc, H) && SumR(spare) == Capacity(acc, H)
  {
    hide Shares, Maintenance, SumR;
    assert lack == Deficits(acc, Shares(acc, H), Floor(H));
    forall k | 0 <= k < |acc| ensures Shares(acc, H)[k] >= Maintenance(|acc|, H) { SharesAboveMaintenance(acc, H, k); }
    assert spare == Spares(acc, Shares(acc, H), Maintenance(|acc|, H));
  }

  lemma DonorPaid(acc: seq<real>, H: int, lack: seq<real>, spare: seq<real>, i: nat)
    requires i < |acc| && H > 0 && acc[i] >= 0.40 && Lacks(acc, H, lack) && Spare(acc, H, spare)
    ensures i < |spare|
    ensures Shares(acc, H)[i] - Balanced(acc, H)[i] == spare[i] * Ratio(SumR(lack), SumR(spare))
  {
    hide Shares, Maintenance, SumR, Ratio, Balanced, Lacks, Spare, Raised, Capacity;
    SumsOfLackAndSpare(acc, H, lack, spare);
    SpareAt(acc, H, spare, i);
    BalancedAt(acc, H, i);
    KeptOfSpare(Shares(acc, H)[i], Maintenance(|acc|, H), Ratio(SumR(lack), SumR(spare)));
  }

  lemma KeptOfSpare(h: real, m: real, ratio: real)
    ensures h - Kept(h, m, ratio) == (h - m) * ratio
  {
  }

  lemma BelowOne(q: real, L: real, S: real)
    requires S > 0.0 && q * S == L
    ensures q < 1.0 <==> L < S
  {
    SignOfProduct(S, 1.0 - q);
    assert S * (1.0 - q) == S - q * S;
  }

  lemma RatioInFigures(L: real, S: real)
    requires L > EPSILON && S > EPSILON
    ensures if L < S then Ratio(L, S) * S == L else Ratio(L, S) == 1.0
  {
    DivTimes(L, S);
    BelowOne(L / S, L, S);
  }

  lemma PaidFraction(spare: real, L: real, S: real)
    ensures var paid := spare * Ratio(L, S);
      if L <= 0.0000001 || S <= 0.0000001 then paid == 0.0
      else if L < S then paid * S == spare * L
      else paid == spare
  {
    hide Ratio;
    if L <= EPSILON || S <= EPSILON { NoPayment(L, S); }
    if L > EPSILON && S > EPSILON {
      RatioInFigures(L, S);
      var ratio := Ratio(L, S);
      assert spare * ratio * S == spare * (ratio * S);
    }
  }

  lemma KeptInProportion(h: real, g: real, m: real, ratio: real)
    ensures (Kept(h, m, ratio) - m) * (g - m) == (Kept(g, m, ratio) - m) * (h - m)
  {
    var k := 1.0 - ratio;
    assert (h - m) * k * (g - m) == (g - m) * k * (h - m);
  }

  lemma KeptWhole(h: real, m: real)
    ensures Kept(h, m, 0.0) == h
  {
  }

  lemma NothingRaised(acc: seq<real>, H: int)
    requires acc != [] && H > 0
    requires forall k :: 0 <= k < |acc| && acc[k] < 0.40 ==> Shares(acc, H)[k] >= 0.15 * H as real
    ensures Raised(acc, H) == 0.0
  {
    hide Shares, SumR;
    SumRBounds(Deficits(acc, Shares(acc, H), Floor(H)), 0.0, 0.0);
  }

  /** `x` hundredths out of `S`, scaled to a week of `H`. */
  function InProportion(x: int, H: int, S: int): real
    requires S != 0
  {
    x as real * (H as real / S as real)
  }

  /** The second round: everybody's part of the week rounded, but `u`, the first highest, takes the difference. */
  ghost predicate SecondRound(c: seq<int>, a: seq<int>, H: int, rnd: real -> int, u: nat)
    requires |c| == |a| && u < |c| && Sum(c) != 0
  {
    && (forall i :: 0 <= i < |c| && i != u ==> a[i] == rnd(InProportion(c[i], H, Sum(c))))
    && (forall i :: 0 <= i < |c| ==> rnd(InProportion(c[i], H, Sum(c))) <= rnd(InProportion(c[u], H, Sum(c))))
    && (forall i :: 0 <= i < u ==> rnd(InProportion(c[i], H, Sum(c))) < rnd(InProportion(c[u], H, Sum(c))))
    && var left := H - (Sum(a) - a[u]);
    a[u] == if left < 0 then 0 else left
  }

  /** Rounding in figures. Every subject but the one rounded highest gets its rounded hours, and that one
      what is left of the week. Only if less than nothing is left for it, it counts as zero, and everybody
      else is scaled down to the week in a second round. */
  lemma AllocationInFigures(acc: seq<real>, H: int, rnd: real -> int) returns (r: seq<int>, t: nat, u: nat)
    requires acc != [] && H > 0 && Nearest(rnd)
    ensures |r| == |acc| && t < |acc| && u < |acc|
    ensures forall i :: 0 <= i < |r| ==> r[i] == rnd(Balanced(acc, H)[i]) && r[i] <= r[t] && (i < t ==> r[i] < r[t])
    ensures var a, others := Allocation(acc, H, rnd), Sum(r) - r[t];
      if others <= H then a == r[t := H - others]
      else Sum(r[t := 0]) == others && SecondRound(r[t := 0], a, H, rnd, u)
  {
    hide Balanced, Sum, ArgMax, Renormalised, Clamped, AbsorbDrift, SomeNegative, SecondRound;
    r := Rounded(Balanced(acc, H), rnd);
    t, u := ArgMax(r), 0;
    var d := AbsorbDrift(r, H);
    BalancedSigns(acc, H);
    RoundedSigns(Balanced(acc, H), rnd);
    DriftUpdatesTarget(r, H);
    SumUpdate(r, t, 0);
    if SomeNegative(d) {
      NegativeIsTarget(r, H);
      SameUpdate(r, t, r[t] + H - Sum(r));
      u := RenormalisedInFigures(r[t := 0], d, H, rnd);
    } else {
      NotNegative(d, t);
    }
  }

  lemma SameUpdate(r: seq<int>, t: nat, v: int)
    requires t < |r|
    ensures r[t := v][t := 0] == r[t := 0]
  {
  }

  lemma NotNegative(d: seq<int>, t: nat)
    requires !SomeNegative(d) && t < |d|
    ensures d[t] >= 0
  {
  }

  lemma RenormalisedInFigures(c: seq<int>, d: seq<int>, H: int, rnd: real -> int) returns (u: nat)
    requires d != [] && c == Clamped(d) && Sum(c) > 0 && H > 0
    ensures u < |d| && SecondRound(c, Renormalised(d, H, rnd), H, rnd, u)
  {
    hide Sum, ArgMax, Clamped, InProportion, Scaled;
    var r2 := Rounded(Scaled(c, H), rnd);
    u := ArgMax(r2);
    forall i | 0 <= i < |c| ensures r2[i] == rnd(InProportion(c[i], H, Sum(c))) { ScaledPart(c, H, i); }
    var v := r2[u] + H - Sum(r2);
    SumUpdate(r2, u, if v < 0 then 0 else v);
    if Sum(r2) == H { LargestIsNotNegative(r2); }
  }

  lemma LargestIsNotNegative(r: seq<int>)
    requires r != [] && Sum(r) > 0
    ensures r[ArgMax(r)] >= 0
  {
    hide Sum, ArgMax;
    if r[ArgMax(r)] < 0 { SumAtMostZero(r); }
  }

  lemma {:induction false} SumAtMostZero(r: seq<int>)
    requires forall i :: 0 <= i < |r| ==> r[i] <= 0
    ensures Sum(r) <= 0
  {
    if r != [] { SumAtMostZero(r[1..]); }
  }

  lemma ScaledPart(c: seq<int>, H: int, i: nat)
    requires Sum(c) > 0 && i < |c|
    ensures Scaled(c, H)[i] == InProportion(c[i], H, Sum(c))
  {
    ScaledAt(c, H, i);
  }

  /** No weekly hours, no subject's hours. */
  lemma NothingToShare(acc: seq<real>, H: int, rnd: real -> int, i: nat)
    requires i < |acc| && H <= 0
    ensures Allocation(acc, H, rnd)[i] == 0
  {
  }
}
