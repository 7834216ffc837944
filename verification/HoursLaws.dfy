/** What the hour allocation guarantees: conservation, the floor, and order by weakness. */
module HoursLaws {
  import opened Arithmetic
  import opened Hours
  import opened Rounding
  import opened Sums

  // ---- Before rounding ----

  lemma PoolAndMaintenance(n: nat, H: int)
    requires n > 0 && H > 0
    ensures Pool(n, H) >= 0.0 && 0.0 < Maintenance(n, H) <= 0.05 * H as real
    ensures Maintenance(n, H) * n as real + Pool(n, H) == H as real
  {
  }

  lemma WeightSigns(acc: seq<real>)
    ensures forall i :: 0 <= i < |acc| ==> Weights(acc)[i] >= 0.0
    ensures SumR(Weights(acc)) >= 0.0
  {
    if acc != [] {
      WeightSigns(acc[1..]);
      assert Weights(acc)[1..] == Weights(acc[1..]);
    }
  }

  lemma WeightAtMostTotal(w: seq<real>, i: nat)
    requires i < |w| && forall k :: 0 <= k < |w| ==> w[k] >= 0.0
    ensures w[i] <= SumR(w)
  {
    SumRUpdate(w, i, 0.0);
    SumRBoundsBelow(w[i := 0.0]);
  }

  lemma {:induction false} SumRBoundsBelow(s: seq<real>)
    requires forall k :: 0 <= k < |s| ==> s[k] >= 0.0
    ensures SumR(s) >= 0.0
  {
    if s != [] { SumRBoundsBelow(s[1..]); }
  }

  lemma ShareIsLinear(pool: real, w: real, W: real, n: nat, c: real)
    requires n > 0 && W > 0.0 && c * W == pool
    ensures Share(pool, w, W, n) == c * w
  {
    assert pool * w == c * w * W;
    TimesDiv(c * w, W);
  }

  lemma TimesDiv(a: real, b: real)
    requires b != 0.0
    ensures a * b / b == a
  {
  }

  lemma DivTimes(a: real, b: real)
    requires b != 0.0
    ensures a / b * b == a
  {
  }

  lemma ShareIsEven(pool: real, w: real, W: real, n: nat, c: real)
    requires n > 0 && W <= 0.0 && c * n as real == pool
    ensures Share(pool, w, W, n) == c
  {
    TimesDiv(c, n as real);
  }

  lemma SumOfAffine(w: seq<real>, h: seq<real>, c: real, m: real, pool: real)
    requires |h| == |w| && c * SumR(w) == pool
    requires forall i :: 0 <= i < |w| ==> h[i] == c * w[i] + m
    ensures SumR(h) == m * |w| as real + pool
  {
    SumRLinear(w, h, c, m);
  }

  lemma SumOfEqual(h: seq<real>, c: real, m: real, pool: real)
    requires h != [] && c * |h| as real == pool
    requires forall i :: 0 <= i < |h| ==> h[i] == m + c
    ensures SumR(h) == m * |h| as real + pool
  {
    SumRBounds(h, m + c, m + c);
    assert (m + c) * |h| as real == m * |h| as real + c * |h| as real;
  }

  lemma WeightedShares(w: seq<real>, h: seq<real>, c: real, m: real, pool: real)
    requires |h| == |w| && SumR(w) > 0.0 && c * SumR(w) == pool
    requires forall i :: 0 <= i < |w| ==> h[i] == m + Share(pool, w[i], SumR(w), |w|)
    ensures SumR(h) == m * |w| as real + pool
  {
    hide Share, SumR;
    forall i | 0 <= i < |w| ensures h[i] == c * w[i] + m { ShareIsLinear(pool, w[i], SumR(w), |w|, c); }
    SumOfAffine(w, h, c, m, pool);
  }

  lemma EvenShares(w: seq<real>, h: seq<real>, c: real, m: real, pool: real)
    requires w != [] && |h| == |w| && SumR(w) <= 0.0 && c * |w| as real == pool
    requires forall i :: 0 <= i < |w| ==> h[i] == m + Share(pool, w[i], SumR(w), |w|)
    ensures SumR(h) == m * |w| as real + pool
  {
    hide Share, SumR;
    forall i | 0 <= i < |w| ensures h[i] == m + c { ShareIsEven(pool, w[i], SumR(w), |w|, c); }
    SumOfEqual(h, c, m, pool);
  }

  /** The weighted shares hand out the whole week. */
  lemma SharesAddUp(acc: seq<real>, H: int)
    requires acc != [] && H > 0
    ensures SumR(Shares(acc, H)) == H as real
  {
    hide Pool, Maintenance, Share;
    var w, h, pool, m := Weights(acc), Shares(acc, H), Pool(|acc|, H), Maintenance(|acc|, H);
    PoolAndMaintenance(|acc|, H);
    if SumR(w) > 0.0 {
      DivTimes(pool, SumR(w));
      WeightedShares(w, h, pool / SumR(w), m, pool);
    } else {
      DivTimes(pool, |w| as real);
      EvenShares(w, h, pool / |w| as real, m, pool);
    }
  }

  lemma ShareSign(pool: real, w: real, W: real, n: nat)
    requires n > 0 && pool >= 0.0 && w >= 0.0
    ensures Share(pool, w, W, n) >= 0.0
  {
    if W > 0.0 {
      assert pool * w >= 0.0;
    }
  }

  lemma SharesAboveMaintenance(acc: seq<real>, H: int, i: nat)
    requires i < |acc| && H > 0
    ensures Shares(acc, H)[i] >= Maintenance(|acc|, H)
  {
    hide Pool, Maintenance, Share;
    PoolAndMaintenance(|acc|, H);
    WeightSigns(acc);
    ShareSign(Pool(|acc|, H), Weights(acc)[i], SumR(Weights(acc)), |acc|);
  }

  lemma NonNegativeProduct(a: real, b: real)
    requires a >= 0.0 && b >= 0.0
    ensures a * b >= 0.0
  {
  }

  lemma SignOfProduct(a: real, b: real)
    requires a > 0.0
    ensures a * b > 0.0 <==> b > 0.0
    ensures a * b < 0.0 <==> b < 0.0
  {
    if b > 0.0 { assert a * b > 0.0; }
    if b < 0.0 { assert a * -b > 0.0; }
  }

  lemma ProductOrder(a: real, q: real)
    requires a > 0.0
    ensures q < 1.0 ==> q * a < a
    ensures q >= 1.0 ==> q * a >= a
  {
    if q < 1.0 { assert (1.0 - q) * a > 0.0; } else { assert (q - 1.0) * a >= 0.0; }
  }

  lemma QuotientOrder(raised: real, capacity: real, q: real)
    requires capacity > 0.0 && q * capacity == raised
    ensures q < 1.0 <==> raised < capacity
  {
    ProductOrder(capacity, q);
  }

  lemma QuotientSign(raised: real, capacity: real, q: real)
    requires capacity > 0.0 && raised > 0.0 && q * capacity == raised
    ensures q > 0.0
  {
  }

  lemma RatioBounds(raised: real, capacity: real)
    ensures 0.0 <= Ratio(raised, capacity) <= 1.0
    ensures raised > EPSILON && EPSILON < capacity ==>
      Ratio(raised, capacity) * capacity == if raised < capacity then raised else capacity
  {
    if raised > EPSILON && capacity > EPSILON {
      DivTimes(raised, capacity);
      QuotientOrder(raised, capacity, raised / capacity);
      QuotientSign(raised, capacity, raised / capacity);
    }
  }

  /** What a donor keeps of `h` hours when it gives up `ratio` of what it has above its upkeep. */
  function Kept(h: real, m: real, ratio: real): real {
    m + (h - m) * (1.0 - ratio)
  }

  lemma BalancedAt(acc: seq<real>, H: int, i: nat)
    requires i < |acc| && H > 0
    ensures
      var h, m := Shares(acc, H)[i], Maintenance(|acc|, H);
      Balanced(acc, H)[i] ==
      if FailRisk(acc[i]) then MaxR(h, Floor(H))
      else Kept(h, m, Ratio(Raised(acc, H), Capacity(acc, H)))
  {
    hide Shares, Maintenance, Floor, Ratio, SumR;
    SharesAboveMaintenance(acc, H, i);
    var h, m := Shares(acc, H)[i], Maintenance(|acc|, H);
    var ratio := Ratio(Raised(acc, H), Capacity(acc, H));
    assert Spares(acc, Shares(acc, H), m)[i] == if FailRisk(acc[i]) then 0.0 else h - m;
    assert (h - m) * (1.0 - ratio) == h - m - (h - m) * ratio;
  }

  lemma {:induction false} SumOfThree(a: seq<real>, b: seq<real>, c: seq<real>, k: real, r: seq<real>)
    requires |a| == |b| == |c| == |r|
    requires forall i :: 0 <= i < |a| ==> r[i] == a[i] + b[i] - c[i] * k
    ensures SumR(r) == SumR(a) + SumR(b) - SumR(c) * k
  {
    if a != [] { SumOfThree(a[1..], b[1..], c[1..], k, r[1..]); }
  }

  /** What the balancing hands out beyond the weekly total. */
  function Excess(acc: seq<real>, H: int): real
    requires acc != []
  {
    SumR(Balanced(acc, H)) - H as real
  }

  /** The raise that the donors do not pay is handed out twice; nothing else is. */
  lemma ExcessIsUnpaidRaise(acc: seq<real>, H: int)
    requires acc != [] && H > 0
    ensures var raised, capacity := Raised(acc, H), Capacity(acc, H);
      && raised >= 0.0 && capacity >= 0.0
      && Excess(acc, H) ==
         if raised <= EPSILON || capacity <= EPSILON then raised
         else MaxR(0.0, raised - capacity)
  {
    hide Shares, Maintenance, Floor, Ratio, Balanced;
    BalancedSum(acc, H);
    var raised, capacity := Raised(acc, H), Capacity(acc, H);
    RatioBounds(raised, capacity);
    if raised <= EPSILON || capacity <= EPSILON { NoPayment(raised, capacity); }
  }

  lemma BalancedSum(acc: seq<real>, H: int)
    requires acc != [] && H > 0
    ensures var raised, capacity := Raised(acc, H), Capacity(acc, H);
      && raised >= 0.0 && capacity >= 0.0
      && SumR(Balanced(acc, H)) == H as real + raised - Ratio(raised, capacity) * capacity
  {
    hide Shares, Maintenance, Floor, Ratio, SumR;
    var h := Shares(acc, H);
    var d, s := Deficits(acc, h, Floor(H)), Spares(acc, h, Maintenance(|acc|, H));
    SumOfThree(h, d, s, Ratio(SumR(d), SumR(s)), Balanced(acc, H));
    SharesAddUp(acc, H);
    SumRBoundsBelow(d);
    SumRBoundsBelow(s);
  }

  lemma NoPayment(raised: real, capacity: real)
    requires raised <= EPSILON || capacity <= EPSILON
    ensures Ratio(raised, capacity) == 0.0
  {
  }

  /** While any subject is weak, a stable subject gets its upkeep and nothing more. */
  lemma StableGetsUpkeepOnly(acc: seq<real>, H: int, i: nat, weak: nat)
    requires i < |acc| && weak < |acc| && H > 0
    requires acc[i] >= STABLE_ACCURACY && acc[weak] < STABLE_ACCURACY
    ensures Balanced(acc, H)[i] == Maintenance(|acc|, H)
  {
    hide Balanced, Maintenance, Pool, Ratio, Raised, Capacity, SumR;
    WeightSigns(acc);
    WeightAtMostTotal(Weights(acc), weak);
    BalancedAt(acc, H, i);
    assert (Shares(acc, H)[i] - Maintenance(|acc|, H)) * (1.0 - Ratio(Raised(acc, H), Capacity(acc, H))) == 0.0;
  }

  lemma WeightAntitone(a: real, b: real)
    requires a <= b
    ensures SubjectWeight(a) >= SubjectWeight(b) >= 0.0
  {
  }

  lemma ShareMonotone(pool: real, v: real, w: real, W: real, n: nat)
    requires n > 0 && pool >= 0.0 && v <= w
    ensures Share(pool, v, W, n) <= Share(pool, w, W, n)
  {
    if W > 0.0 {
      var c := pool / W;
      DivTimes(pool, W);
      ShareIsLinear(pool, v, W, n, c);
      ShareIsLinear(pool, w, W, n, c);
      assert c >= 0.0;
      NonNegativeProduct(c, w - v);
      assert c * (w - v) == c * w - c * v;
    }
  }

  /** Keeping a fraction of the spare hours respects order, and never reaches above the hours themselves. */
  lemma KeptSpareIsMonotone(h: real, g: real, m: real, ratio: real)
    requires m <= g <= h && 0.0 <= ratio <= 1.0
    ensures m <= Kept(g, m, ratio) <= Kept(h, m, ratio)
    ensures Kept(g, m, ratio) <= g
  {
    NonNegativeProduct(h - g, 1.0 - ratio);
    NonNegativeProduct(g - m, 1.0 - ratio);
    NonNegativeProduct(g - m, ratio);
    assert (h - m) * (1.0 - ratio) == (h - g) * (1.0 - ratio) + (g - m) * (1.0 - ratio);
    assert (g - m) * (1.0 - ratio) == (g - m) - (g - m) * ratio;
  }

  /** Lower accuracy never means fewer hours: through both weight jumps, the raise and the payment. */
  lemma WeakerGetsMore(acc: seq<real>, H: int, i: nat, j: nat)
    requires i < |acc| && j < |acc| && H > 0
    requires acc[i] <= acc[j]
    ensures Balanced(acc, H)[i] >= Balanced(acc, H)[j]
  {
    hide Kept, Maintenance, Shares, Floor, Ratio, Balanced, Raised, Capacity;
    var h, m := Shares(acc, H), Maintenance(|acc|, H);
    var ratio := Ratio(Raised(acc, H), Capacity(acc, H));
    WeakerShareIsLarger(acc, H, i, j);
    BalancedAt(acc, H, i);
    BalancedAt(acc, H, j);
    SharesAboveMaintenance(acc, H, j);
    RatioBounds(Raised(acc, H), Capacity(acc, H));
    KeptSpareIsMonotone(h[i], h[j], m, ratio);
  }

  lemma WeakerShareIsLarger(acc: seq<real>, H: int, i: nat, j: nat)
    requires i < |acc| && j < |acc| && H > 0 && acc[i] <= acc[j]
    ensures Shares(acc, H)[i] >= Shares(acc, H)[j]
  {
    hide Pool, Maintenance, Share, SumR;
    PoolAndMaintenance(|acc|, H);
    WeightAntitone(acc[i], acc[j]);
    ShareMonotone(Pool(|acc|, H), Weights(acc)[j], Weights(acc)[i], SumR(Weights(acc)), |acc|);
  }

  // ---- Conservation ----

  lemma AbsorbDriftSum(r: seq<int>, H: int)
    requires r != []
    ensures Sum(AbsorbDrift(r, H)) == H
  {
    SumUpdate(r, ArgMax(r), r[ArgMax(r)] + H - Sum(r));
  }

  lemma RoundedSigns(h: seq<real>, rnd: real -> int)
    requires Nearest(rnd) && forall i :: 0 <= i < |h| ==> h[i] >= 0.0
    ensures forall i :: 0 <= i < |h| ==> Rounded(h, rnd)[i] >= 0
    ensures forall i :: 0 <= i < |h| && h[i] == 0.0 ==> Rounded(h, rnd)[i] == 0
  {
  }

  lemma BalancedSigns(acc: seq<real>, H: int)
    requires acc != [] && H > 0
    ensures forall i :: 0 <= i < |acc| ==> Balanced(acc, H)[i] >= Maintenance(|acc|, H) > 0.0
  {
    hide Balanced, Shares, Maintenance, Ratio, Floor, Raised, Capacity;
    PoolAndMaintenance(|acc|, H);
    RatioBounds(Raised(acc, H), Capacity(acc, H));
    forall i | 0 <= i < |acc| ensures Balanced(acc, H)[i] >= Maintenance(|acc|, H) {
      BalancedAt(acc, H, i);
      SharesAboveMaintenance(acc, H, i);
      var spare, kept := Shares(acc, H)[i] - Maintenance(|acc|, H), 1.0 - Ratio(Raised(acc, H), Capacity(acc, H));
      NonNegativeProduct(spare, kept);
    }
  }

  lemma ScaledSigns(c: seq<int>, H: int)
    requires H > 0 && forall i :: 0 <= i < |c| ==> c[i] >= 0
    ensures forall i :: 0 <= i < |c| ==> Scaled(c, H)[i] >= 0.0
    ensures forall i :: 0 <= i < |c| && c[i] == 0 ==> Scaled(c, H)[i] == 0.0
  {
    var scale := if Sum(c) > 0 then H as real / Sum(c) as real else 0.0;
    assert scale >= 0.0;
    forall i | 0 <= i < |c| ensures Scaled(c, H)[i] >= 0.0 {
      NonNegativeProduct(c[i] as real, scale);
    }
  }

  /** The allocation gives no subject negative time, whatever the accuracies, the total or the rounding. */
  lemma HoursAreNonNegative(acc: seq<real>, H: int, rnd: real -> int)
    requires acc != [] && Nearest(rnd)
    ensures forall i :: 0 <= i < |acc| ==> Allocation(acc, H, rnd)[i] >= 0
  {
    hide Balanced, Rounded, Scaled;
    if H > 0 {
      var a := AbsorbDrift(Rounded(Balanced(acc, H), rnd), H);
      if SomeNegative(a) {
        ScaledSigns(Clamped(a), H);
        RoundedSigns(Scaled(Clamped(a), H), rnd);
      }
    }
  }

  /** The second drift step would have to make its target negative, and stops at zero instead. */
  ghost predicate Overdrawn(acc: seq<real>, H: int, rnd: real -> int)
    requires acc != []
  {
    var a := AbsorbDrift(Rounded(Balanced(acc, H), rnd), H);
    var r := Rounded(Scaled(Clamped(a), H), rnd);
    SomeNegative(a) && r[ArgMax(r)] + H - Sum(r) < 0
  }

  /** The week is handed out exactly, unless the last clamp bites; then too much is handed out. */
  lemma HoursAddUp(acc: seq<real>, H: int, rnd: real -> int)
    requires acc != [] && H > 0 && Nearest(rnd)
    ensures Sum(Allocation(acc, H, rnd)) >= H
    ensures Sum(Allocation(acc, H, rnd)) == H <==> !Overdrawn(acc, H, rnd)
  {
    hide Balanced, Rounded, Scaled;
    var a := AbsorbDrift(Rounded(Balanced(acc, H), rnd), H);
    AbsorbDriftSum(Rounded(Balanced(acc, H), rnd), H);
    if SomeNegative(a) {
      var r := Rounded(Scaled(Clamped(a), H), rnd);
      ScaledSigns(Clamped(a), H);
      RoundedSigns(Scaled(Clamped(a), H), rnd);
      var t := ArgMax(r);
      SumUpdate(r, t, r[t] + H - Sum(r));
      SumUpdate(r, t, 0);
      if Sum(r) == H { assert r[t] >= 0; }
    }
  }

  lemma {:induction false} SumOfReals(c: seq<int>, s: seq<real>, k: real)
    requires |c| == |s| && forall i :: 0 <= i < |c| ==> s[i] == c[i] as real * k
    ensures SumR(s) == Sum(c) as real * k
  {
    if c != [] { SumOfReals(c[1..], s[1..], k); }
  }

  lemma ScaledSum(c: seq<int>, H: int)
    requires Sum(c) > 0
    ensures SumR(Scaled(c, H)) == H as real
  {
    hide Sum, SumR;
    var k := H as real / Sum(c) as real;
    DivTimes(H as real, Sum(c) as real);
    SumOfReals(c, Scaled(c, H), k);
    assert Sum(c) as real * k == k * Sum(c) as real;
  }

  ghost predicate NearHalf(s: seq<real>, r: seq<int>)
    requires |s| == |r|
  {
    forall i :: 0 <= i < |s| ==> s[i] - 0.5 <= r[i] as real <= s[i] + 0.5
  }

  lemma RoundedIsNear(s: seq<real>, rnd: real -> int)
    requires Nearest(rnd)
    ensures NearHalf(s, Rounded(s, rnd))
  {
  }

  /** Rounding moves the sum of all but one term by at most half a unit each. */
  lemma SumNearExcept(s: seq<real>, r: seq<int>, t: nat)
    requires |s| == |r| && t < |r| && NearHalf(s, r)
    ensures SumR(s) - s[t] - (|s| as real - 1.0) / 2.0 <= (Sum(r) - r[t]) as real
    ensures (Sum(r) - r[t]) as real <= SumR(s) - s[t] + (|s| as real - 1.0) / 2.0
  {
    SumNearWithout(s, r, t, -0.5);
    SumNearWithout(s, r, t, 0.5);
  }

  lemma SumNearWithout(s: seq<real>, r: seq<int>, t: nat, v: real)
    requires |s| == |r| && t < |r| && NearHalf(s, r) && -0.5 <= v <= 0.5
    ensures SumR(s) - s[t] + v - 0.5 * |s| as real <= (Sum(r) - r[t]) as real
    ensures (Sum(r) - r[t]) as real <= SumR(s) - s[t] + v + 0.5 * |s| as real
  {
    hide SumR, Sum;
    SumUpdate(r, t, 0);
    SumRUpdate(s, t, v);
    SumNear(s[t := v], r[t := 0], 0.5);
  }

  lemma SumAtMostOthers(r: seq<int>, t: nat, M: int)
    requires t < |r| && r[t] == 0 && M >= 0 && forall i :: 0 <= i < |r| ==> r[i] <= M
    requires forall i :: 0 <= i < |r| ==> r[i] >= 0
    ensures Sum(r) <= (|r| - 1) * M
  {
    hide Sum;
    SumUpdate(r, t, M);
    SumBounds(r[t := M], 0, M);
    assert M * |r| == (|r| - 1) * M + M;
  }

  lemma DriftUpdatesTarget(r: seq<int>, H: int)
    requires r != []
    ensures AbsorbDrift(r, H) == r[ArgMax(r) := r[ArgMax(r)] + H - Sum(r)]
  {
    hide Sum, ArgMax;
    var t := ArgMax(r);
    if Sum(r) == H { assert r[t := r[t]] == r; }
  }

  lemma OnlyTheUpdatedIsNegative(r: seq<int>, t: nat, v: int)
    requires t < |r| && (forall i :: 0 <= i < |r| ==> r[i] >= 0) && SomeNegative(r[t := v])
    ensures v < 0 && Clamped(r[t := v]) == r[t := 0]
  {
    var a := r[t := v];
    var i :| 0 <= i < |a| && a[i] < 0;
    assert i == t;
    forall k | 0 <= k < |r| ensures Clamped(a)[k] == r[t := 0][k] { }
  }

  lemma NegativeIsTarget(r: seq<int>, H: int)
    requires r != [] && forall i :: 0 <= i < |r| ==> r[i] >= 0
    requires SomeNegative(AbsorbDrift(r, H))
    ensures AbsorbDrift(r, H)[ArgMax(r)] < 0
    ensures Clamped(AbsorbDrift(r, H)) == AbsorbDrift(r, H)[ArgMax(r) := 0]
  {
    hide Sum, ArgMax, AbsorbDrift, SomeNegative, Clamped;
    var t, v := ArgMax(r), r[ArgMax(r)] + H - Sum(r);
    DriftUpdatesTarget(r, H);
    OnlyTheUpdatedIsNegative(r, t, v);
    assert r[t := v][t := 0] == r[t := 0];
  }

  /** Clamping leaves a zero behind, and more than the weekly total on the others. */
  lemma ClampedShape(r: seq<int>, H: int)
    requires r != [] && forall i :: 0 <= i < |r| ==> r[i] >= 0
    requires SomeNegative(AbsorbDrift(r, H))
    ensures AbsorbDrift(r, H)[ArgMax(r)] < 0
    ensures Clamped(AbsorbDrift(r, H))[ArgMax(r)] == 0
    ensures Sum(Clamped(AbsorbDrift(r, H))) > H
  {
    hide Clamped, Sum;
    NegativeIsTarget(r, H);
    AbsorbDriftSum(r, H);
    SumUpdate(AbsorbDrift(r, H), ArgMax(r), 0);
  }

  lemma LargestCoversDrift(n: int, M: int, e: int, H: int)
    requires n >= 1 && 2 * H >= (n - 1) * (n - 2) && 2 * e <= n - 1
    requires H + e <= (n - 1) * M && M >= 0
    ensures M >= e
  {
    if n >= 2 {
      MulMonotone(n - 2, 2 * e, n - 1);
      assert (n - 1) * e == (n - 2) * e + e;
      MulCancel(n - 1, e, M);
    }
  }

  /** A weekly total of (n-1)(n-2)/2 hundredths is always enough for exact conservation. */
  lemma EnoughHoursAreConserved(acc: seq<real>, H: int, rnd: real -> int)
    requires acc != [] && H > 0 && Nearest(rnd)
    requires 2 * H >= (|acc| - 1) * (|acc| - 2)
    ensures !Overdrawn(acc, H, rnd)
    ensures Sum(Allocation(acc, H, rnd)) == H
  {
    hide Balanced, Scaled, Clamped, Allocation, Rounded, AbsorbDrift, ArgMax, Sum, SumR;
    var n := |acc|;
    var r0 := Rounded(Balanced(acc, H), rnd);
    var a := AbsorbDrift(r0, H);
    BalancedSigns(acc, H);
    RoundedSigns(Balanced(acc, H), rnd);
    if SomeNegative(a) {
      ClampedShape(r0, H);
      var t, c := ArgMax(r0), Clamped(a);
      var s := Scaled(c, H);
      var r := Rounded(s, rnd);
      ScaledSum(c, H);
      ScaledSigns(c, H);
      RoundedSigns(s, rnd);
      RoundedIsNear(s, rnd);
      SumNearExcept(s, r, t);
      var M := r[ArgMax(r)];
      SumAtMostOthers(r, t, M);
      LargestCoversDrift(n, M, Sum(r) - H, H);
    }
    HoursAddUp(acc, H, rnd);
  }

  // ---- The fail-risk floor ----

  function Top(b: seq<real>): (m: real)
    requires b != []
    ensures forall i :: 0 <= i < |b| ==> b[i] <= m
    ensures exists i :: 0 <= i < |b| && b[i] == m
  {
    if |b| == 1 then b[0]
    else
      var m := Top(b[1..]);
      assert forall i :: 1 <= i < |b| ==> b[i] == b[1..][i - 1];
      MaxR(b[0], m)
  }

  /** The part of the unpaid raise that the top subject cannot pay without leaving the floor itself. */
  function Debt(acc: seq<real>, H: int): real
    requires acc != []
  {
    MaxR(0.0, Floor(H) + Excess(acc, H) - Top(Balanced(acc, H)))
  }

  /** The drift step in terms of the hours before rounding: the target pays the whole excess. */
  lemma TargetPaysExcess(b: seq<real>, H: int, rnd: real -> int)
    requires b != [] && Nearest(rnd)
    ensures var r := Rounded(b, rnd); var t := ArgMax(r);
      var v := AbsorbDrift(r, H)[t] as real; var slack := (|b| as real - 1.0) / 2.0;
      var pays := SumR(b) - H as real;
      && b[t] - pays - slack <= v <= b[t] - pays + slack
      && Top(b) - 1.0 <= b[t] <= Top(b)
      && forall i :: 0 <= i < |b| && i != t ==> b[i] - 0.5 <= AbsorbDrift(r, H)[i] as real <= b[i] + 0.5
  {
    hide Sum, SumR, ArgMax, Rounded;
    var r := Rounded(b, rnd);
    var t := ArgMax(r);
    RoundedIsNear(b, rnd);
    SumNearExcept(b, r, t);
    assert AbsorbDrift(r, H)[t] == H - (Sum(r) - r[t]);
    var m :| 0 <= m < |b| && b[m] == Top(b);
    assert r[m] <= r[t];
  }

  lemma BalancedFloor(acc: seq<real>, H: int, i: nat)
    requires i < |acc| && H > 0 && FailRisk(acc[i])
    ensures Balanced(acc, H)[i] >= Floor(H)
  {
    hide Balanced, Shares, Floor;
    BalancedAt(acc, H, i);
  }

  /** Every fail-risk subject keeps the floor up to rounding and the debt. */
  lemma FloorKept(acc: seq<real>, H: int, rnd: real -> int, i: nat)
    requires i < |acc| && H > 0 && Nearest(rnd) && FailRisk(acc[i])
    ensures Allocation(acc, H, rnd)[i] as real >= Floor(H) - (|acc| as real + 1.0) / 2.0 - Debt(acc, H)
  {
    hide Balanced, Floor, Rounded, AbsorbDrift, ArgMax, SumR, Renormalised;
    var b := Balanced(acc, H);
    var r := Rounded(b, rnd);
    var a := AbsorbDrift(r, H);
    BalancedFloor(acc, H, i);
    BalancedSigns(acc, H);
    TargetPaysExcess(b, H, rnd);
    assert a[i] as real >= Floor(H) - (|acc| as real + 1.0) / 2.0 - Debt(acc, H);
    if SomeNegative(a) {
      RoundedSigns(b, rnd);
      NegativeIsTarget(r, H);
      HoursAreNonNegative(acc, H, rnd);
    }
  }

  /** When the donors can pay for the raises the debt vanishes (up to the source's tolerance). */
  lemma CoveredFloorKept(acc: seq<real>, H: int, rnd: real -> int, i: nat)
    requires i < |acc| && H > 0 && Nearest(rnd) && FailRisk(acc[i])
    requires Raised(acc, H) <= Capacity(acc, H)
    ensures Allocation(acc, H, rnd)[i] as real >= Floor(H) - (|acc| as real + 1.0) / 2.0 - EPSILON
  {
    hide Balanced, Floor, Allocation, Raised, Capacity, Excess;
    FloorKept(acc, H, rnd, i);
    ExcessIsUnpaidRaise(acc, H);
    BalancedFloor(acc, H, i);
  }

  lemma UnpaidDonorsAreDrained(acc: seq<real>, H: int, k: nat)
    requires k < |acc| && H > 0 && !FailRisk(acc[k])
    requires Excess(acc, H) > 0.0
    ensures Balanced(acc, H)[k] <= Maintenance(|acc|, H) + EPSILON || Raised(acc, H) <= EPSILON
  {
    hide Balanced, Shares, Maintenance, Excess;
    var s := Spares(acc, Shares(acc, H), Maintenance(|acc|, H));
    ExcessIsUnpaidRaise(acc, H);
    BalancedAt(acc, H, k);
    SharesAboveMaintenance(acc, H, k);
    WeightAtMostTotal(s, k);
    RatioBounds(Raised(acc, H), Capacity(acc, H));
    var raised, capacity := Raised(acc, H), Capacity(acc, H);
    var spare := Shares(acc, H)[k] - Maintenance(|acc|, H);
    assert s[k] == spare <= capacity;
    if raised > EPSILON && capacity > EPSILON {
      assert raised > capacity;
      SignOfProduct(capacity, raised / capacity - 1.0);
      assert capacity * (raised / capacity - 1.0) == raised - capacity;
      assert spare * (1.0 - Ratio(raised, capacity)) == 0.0;
    } else if capacity <= EPSILON {
      NoPayment(raised, capacity);
    }
  }

  /** With a single fail-risk subject at most its own floor can be handed out twice. */
  lemma SingleFailRiskExcess(acc: seq<real>, H: int, i: nat)
    requires i < |acc| && H > 0 && FailRisk(acc[i]) && forall j :: 0 <= j < |acc| && j != i ==> !FailRisk(acc[j])
    ensures Excess(acc, H) <= Floor(H)
  {
    hide Balanced, Shares, Maintenance, SumR, Excess;
    var d := Deficits(acc, Shares(acc, H), Floor(H));
    SumRUpdate(d, i, 0.0);
    SumRBounds(d[i := 0.0], 0.0, 0.0);
    SharesAboveMaintenance(acc, H, i);
    PoolAndMaintenance(|acc|, H);
    ExcessIsUnpaidRaise(acc, H);
  }

  /** A debt beyond rounding in a tiny week is never that of a single subject. */
  lemma AnotherFailRisk(acc: seq<real>, H: int, i: nat) returns (j: nat)
    requires i < |acc| && H > 0 && FailRisk(acc[i])
    requires Debt(acc, H) > (|acc| as real - 1.0) / 2.0 && 10 * (|acc| - 1) >= 3 * H
    ensures j < |acc| && j != i && FailRisk(acc[j])
  {
    hide Balanced, Excess;
    if k: nat :| k < |acc| && k != i && FailRisk(acc[k]) {
      j := k;
    } else {
      SingleFailRiskExcess(acc, H, i);
      BalancedFloor(acc, H, i);
      assert false;
    }
  }

  /** Rescaling to a smaller total gives nobody more whole hundredths. */
  lemma ScaledDown(c: seq<int>, H: int, rnd: real -> int, k: nat)
    requires Nearest(rnd) && 0 < H < Sum(c) && k < |c| && c[k] >= 0
    ensures Rounded(Scaled(c, H), rnd)[k] <= c[k]
  {
    hide Sum, Nearest, Rounded, Scaled;
    ScaledIsSmaller(c, H, k);
    RoundedDown(Scaled(c, H), rnd, k, c[k] as real);
    NearestOfInteger(rnd, c[k]);
  }

  lemma ScaledIsSmaller(c: seq<int>, H: int, k: nat)
    requires 0 < H < Sum(c) && k < |c| && c[k] >= 0
    ensures Scaled(c, H)[k] <= c[k] as real
  {
    hide Sum, Scaled;
    FractionIsSmall(H as real, Sum(c) as real);
    PartIsSmaller(c[k] as real, H as real / Sum(c) as real);
    ScaledAt(c, H, k);
  }

  lemma ScaledAt(c: seq<int>, H: int, k: nat)
    requires Sum(c) > 0 && k < |c|
    ensures Scaled(c, H)[k] == c[k] as real * (H as real / Sum(c) as real)
  {
    hide Sum;
  }

  lemma RoundedDown(s: seq<real>, rnd: real -> int, k: nat, x: real)
    requires Nearest(rnd) && k < |s| && s[k] <= x
    ensures Rounded(s, rnd)[k] <= rnd(x)
  {
    hide Nearest;
    NearestMonotone(rnd, s[k], x);
  }

  lemma FractionIsSmall(a: real, b: real)
    requires 0.0 < a < b
    ensures 0.0 <= a / b <= 1.0
  {
    DivTimes(a, b);
    SignOfProduct(b, 1.0 - a / b);
    SignOfProduct(b, a / b);
    assert b * (1.0 - a / b) == b - a;
  }

  lemma PartIsSmaller(x: real, f: real)
    requires x >= 0.0 && f <= 1.0
    ensures x * f <= x
  {
    NonNegativeProduct(x, 1.0 - f);
    assert x * (1.0 - f) == x - x * f;
  }

  /** A debt beyond rounding really breaks the promise: some fail-risk subject ends below the floor. */
  lemma FloorBroken(acc: seq<real>, H: int, rnd: real -> int, i: nat)
    requires i < |acc| && H > 0 && Nearest(rnd) && FailRisk(acc[i])
    requires Debt(acc, H) > (|acc| as real - 1.0) / 2.0
    ensures exists j :: 0 <= j < |acc| && FailRisk(acc[j]) && Allocation(acc, H, rnd)[j] as real < Floor(H)
  {
    hide Balanced, Rounded, AbsorbDrift, ArgMax, Debt, Floor, Renormalised;
    if FailRisk(acc[ArgMax(Rounded(Balanced(acc, H), rnd))]) {
      FailRiskTargetPays(acc, H, rnd);
    } else {
      DonorTargetPays(acc, H, rnd, i);
    }
  }

  /** Where the drift is taken from a fail-risk subject, that one or another one ends below the floor. */
  lemma FailRiskTargetPays(acc: seq<real>, H: int, rnd: real -> int)
    requires acc != [] && H > 0 && Nearest(rnd) && FailRisk(acc[ArgMax(Rounded(Balanced(acc, H), rnd))])
    requires Debt(acc, H) > (|acc| as real - 1.0) / 2.0
    ensures exists j :: 0 <= j < |acc| && FailRisk(acc[j]) && Allocation(acc, H, rnd)[j] as real < Floor(H)
  {
    hide Balanced, Rounded, AbsorbDrift, ArgMax, SumR, Sum, Maintenance, Renormalised, Clamped, Scaled;
    var b := Balanced(acc, H);
    var r := Rounded(b, rnd);
    var a, t := AbsorbDrift(r, H), ArgMax(r);
    BalancedFloor(acc, H, t);
    TargetPaysExcess(b, H, rnd);
    assert a[t] as real < Floor(H);
    if SomeNegative(a) {
      BalancedSigns(acc, H);
      RoundedSigns(b, rnd);
      ClampedShape(r, H);
      if 2 * H > |acc| {
        ClampedTargetGetsNothing(a, H, rnd, t);
      } else {
        var j := AnotherFailRisk(acc, H, t);
        OneGetsNothing(a, H, rnd, t, j);
      }
    }
  }

  /** When one share is clamped to zero, no two subjects can both end with something. */
  lemma OneGetsNothing(a: seq<int>, H: int, rnd: real -> int, t: nat, j: nat)
    requires t < |a| && j < |a| && j != t && Nearest(rnd) && H > 0 && Clamped(a)[t] == 0
    ensures Renormalised(a, H, rnd)[t] == 0 || Renormalised(a, H, rnd)[j] == 0
  {
    hide Clamped, Scaled, Rounded, ArgMax, Sum;
    var s := Scaled(Clamped(a), H);
    ScaledSigns(Clamped(a), H);
    RoundedSigns(s, rnd);
  }

  /** Where the drift is taken from a donor, the fail-risk subjects were rounded below the floor already. */
  lemma DonorTargetPays(acc: seq<real>, H: int, rnd: real -> int, i: nat)
    requires i < |acc| && H > 0 && Nearest(rnd) && FailRisk(acc[i])
    requires !FailRisk(acc[ArgMax(Rounded(Balanced(acc, H), rnd))])
    requires Debt(acc, H) > (|acc| as real - 1.0) / 2.0
    ensures exists j :: 0 <= j < |acc| && FailRisk(acc[j]) && Allocation(acc, H, rnd)[j] as real < Floor(H)
  {
    hide Balanced, Rounded, ArgMax, SumR, Sum, Scaled, Debt, Clamped;
    var b := Balanced(acc, H);
    var r := Rounded(b, rnd);
    var a, t := AbsorbDrift(r, H), ArgMax(r);
    DonorTargetIsLow(acc, H, rnd, i);
    if SomeNegative(a) {
      BalancedSigns(acc, H);
      RoundedSigns(b, rnd);
      ClampedShape(r, H);
      NegativeIsTarget(r, H);
      var c := Clamped(a);
      var r2 := Rounded(Scaled(c, H), rnd);
      var j := i;
      if ArgMax(r2) == i {
        DonorOverdraft(acc, H, rnd);
        j := AnotherFailRisk(acc, H, i);
      }
      ScaledDown(c, H, rnd, j);
      assert c[j] == r[j] <= r[t];
      assert Allocation(acc, H, rnd)[j] == r2[j];
    } else {
      assert Allocation(acc, H, rnd)[i] == r[i];
    }
  }

  /** Where a donor is rounded highest although raises are unpaid, everybody is rounded below the floor. */
  lemma DrainedTargetIsLow(acc: seq<real>, H: int, rnd: real -> int)
    requires acc != [] && H > 0 && Nearest(rnd) && Excess(acc, H) > 0.0 && Raised(acc, H) > EPSILON
    requires !FailRisk(acc[ArgMax(Rounded(Balanced(acc, H), rnd))])
    ensures var r := Rounded(Balanced(acc, H), rnd);
      r[ArgMax(r)] as real < Floor(H) && r[ArgMax(r)] as real <= 0.05 * H as real + 0.5 + EPSILON
  {
    hide Balanced, ArgMax, SumR, Sum, Maintenance, Raised, Capacity, Excess;
    var b := Balanced(acc, H);
    var t := ArgMax(Rounded(b, rnd));
    UnpaidDonorsAreDrained(acc, H, t);
    PoolAndMaintenance(|acc|, H);
    assert b[t] <= 0.05 * H as real + EPSILON;
    RoundedIsNear(b, rnd);
  }

  lemma DonorTargetIsLow(acc: seq<real>, H: int, rnd: real -> int, i: nat)
    requires i < |acc| && H > 0 && Nearest(rnd) && FailRisk(acc[i])
    requires !FailRisk(acc[ArgMax(Rounded(Balanced(acc, H), rnd))])
    requires Debt(acc, H) > (|acc| as real - 1.0) / 2.0
    ensures H <= 10
    ensures var r := Rounded(Balanced(acc, H), rnd); r[ArgMax(r)] as real < Floor(H) && r[ArgMax(r)] <= 1
  {
    hide Balanced, Rounded, ArgMax, SumR, Sum, Maintenance, Raised, Capacity, Debt, Excess;
    if H > 10 { TargetIsFailRisk(acc, H, rnd, i); }
    DebtNeedsRaise(acc, H, i);
    DrainedTargetIsLow(acc, H, rnd);
  }

  /** A donor can be overdrawn only by many others. */
  lemma DonorOverdraft(acc: seq<real>, H: int, rnd: real -> int)
    requires acc != [] && 0 < H <= 10
    requires var r := Rounded(Balanced(acc, H), rnd);
      && (forall k :: 0 <= k < |r| ==> 0 <= r[k] <= 1) && SomeNegative(AbsorbDrift(r, H))
    ensures |acc| - 1 > H
  {
    hide Balanced, Rounded, ArgMax, Sum;
    var r := Rounded(Balanced(acc, H), rnd);
    var t := ArgMax(r);
    SumUpdate(r, t, 0);
    SumUpdate(r, t, 1);
    SumBounds(r[t := 1], 0, 1);
    NegativeIsTarget(r, H);
  }

  lemma TargetIsFailRisk(acc: seq<real>, H: int, rnd: real -> int, i: nat)
    requires i < |acc| && Nearest(rnd) && FailRisk(acc[i]) && H > 10
    requires Debt(acc, H) > (|acc| as real - 1.0) / 2.0
    ensures FailRisk(acc[ArgMax(Rounded(Balanced(acc, H), rnd))])
  {
    hide Balanced, AbsorbDrift, ArgMax, SumR, Sum, Maintenance, Raised, Capacity;
    var b := Balanced(acc, H);
    var r := Rounded(b, rnd);
    var t := ArgMax(r);
    BalancedFloor(acc, H, i);
    ExcessIsUnpaidRaise(acc, H);
    assert Excess(acc, H) > 0.0 && Raised(acc, H) > EPSILON by { DebtNeedsRaise(acc, H, i); }
    assert r[i] <= r[t];
    if !FailRisk(acc[t]) {
      UnpaidDonorsAreDrained(acc, H, t);
      PoolAndMaintenance(|acc|, H);
      assert false;
    }
  }

  lemma DebtNeedsRaise(acc: seq<real>, H: int, i: nat)
    requires i < |acc| && FailRisk(acc[i]) && H > 0
    requires Debt(acc, H) > (|acc| as real - 1.0) / 2.0
    ensures Excess(acc, H) > 0.0 && Raised(acc, H) > EPSILON
  {
    hide Balanced, SumR, Maintenance, Raised, Capacity, Excess;
    BalancedFloor(acc, H, i);
    ExcessIsUnpaidRaise(acc, H);
    if |acc| == 1 { SingleSubjectTakesAll(acc, H); }
  }

  lemma SingleSubjectTakesAll(acc: seq<real>, H: int)
    requires |acc| == 1 && H > 0
    ensures Raised(acc, H) == 0.0
  {
    hide Shares;
    SharesAddUp(acc, H);
    assert SumR(Shares(acc, H)) == Shares(acc, H)[0];
    SumRBounds(Deficits(acc, Shares(acc, H), Floor(H)), 0.0, 0.0);
  }

  lemma ClampedTargetGetsNothing(a: seq<int>, H: int, rnd: real -> int, t: nat)
    requires t < |a| && Nearest(rnd) && H > 0 && 2 * H > |a|
    requires Clamped(a)[t] == 0 && Sum(Clamped(a)) > 0
    ensures Renormalised(a, H, rnd)[t] == 0
  {
    hide Clamped, Scaled, Rounded, ArgMax, Sum, SumR;
    var s := Scaled(Clamped(a), H);
    var r := Rounded(s, rnd);
    ScaledSigns(Clamped(a), H);
    RoundedSigns(s, rnd);
    RoundedIsNear(s, rnd);
    ScaledSum(Clamped(a), H);
    if ArgMax(r) == t {
      SumRBounds(s, 0.0, 0.5);
      assert false;
    }
  }

  // ---- Where the floor holds by itself, and where no allocation can hold it ----

  ghost predicate Fractions(acc: seq<real>) {
    forall i :: 0 <= i < |acc| ==> 0.0 <= acc[i] <= 1.0
  }

  /** With at most five subjects the weighted share alone reaches the floor: the raise never fires. */
  lemma FiveSubjectsNeedNoRaise(acc: seq<real>, H: int)
    requires 1 <= |acc| <= 5 && H > 0 && Fractions(acc)
    ensures forall i :: 0 <= i < |acc| && FailRisk(acc[i]) ==> Shares(acc, H)[i] >= Floor(H)
    ensures Raised(acc, H) == 0.0 && Balanced(acc, H) == Shares(acc, H)
  {
    hide Shares, Floor, SumR;
    forall i | 0 <= i < |acc| && FailRisk(acc[i]) ensures Shares(acc, H)[i] >= Floor(H) {
      FailRiskShare(acc, H, i);
    }
    var d := Deficits(acc, Shares(acc, H), Floor(H));
    SumRBounds(d, 0.0, 0.0);
    NoPayment(SumR(d), Capacity(acc, H));
  }

  lemma FailRiskWeight(acc: seq<real>, i: nat)
    requires i < |acc| <= 5 && Fractions(acc) && FailRisk(acc[i])
    ensures var w := Weights(acc); 1.1 <= w[i] <= SumR(w) <= w[i] + 6.0
  {
    hide SumR;
    var w := Weights(acc);
    SumRUpdate(w, i, 1.5);
    SumRBounds(w[i := 1.5], 0.0, 1.5);
    WeightSigns(acc);
    WeightAtMostTotal(w, i);
  }

  lemma FailRiskShare(acc: seq<real>, H: int, i: nat)
    requires i < |acc| <= 5 && H > 0 && Fractions(acc) && FailRisk(acc[i])
    ensures Shares(acc, H)[i] >= Floor(H)
  {
    hide SumR, Share, Pool, Maintenance, Weights;
    var w, pool := Weights(acc), Pool(|acc|, H);
    FailRiskWeight(acc, i);
    var c := pool / SumR(w);
    DivTimes(pool, SumR(w));
    ShareIsLinear(pool, w[i], SumR(w), |acc|, c);
    SmallGroupPool(|acc|, H);
    TenthOfPool(pool, w[i], SumR(w), c, H as real);
  }

  lemma SmallGroupPool(n: nat, H: int)
    requires 0 < n <= 5 && H > 0
    ensures Pool(n, H) >= 0.75 * H as real
    ensures Maintenance(n, H) == 0.05 * H as real
  {
    var upkeep := H as real * MAINTENANCE_RATIO;
    assert upkeep * n as real <= upkeep * 5.0;
  }

  lemma TenthOfPool(pool: real, w: real, W: real, c: real, H: real)
    requires H > 0.0 && pool >= 0.75 * H && w >= 1.1 && 0.0 < W <= w + 6.0 && c * W == pool
    ensures c * w >= 0.1 * H
  {
    SignOfProduct(W, c);
    SignOfProduct(c, w - 1.1);
    SignOfProduct(c, w + 6.0 - W);
    assert c * (w + 6.0 - W) == c * w + c * 6.0 - pool;
    assert c * (w - 1.1) == c * w - c * 1.1;
    assert 1.1 * c <= c * w && c * w + 6.0 * c >= 0.75 * H;
  }

  /** Five is sharp: with six subjects a fail-risk share can fall short of the floor. */
  lemma SixSubjectsMayNeedTheRaise(H: int)
    requires H > 0
    ensures Shares([0.39, 0.0, 0.0, 0.0, 0.0, 0.0], H)[0] < Floor(H)
  {
    var acc := [0.39, 0.0, 0.0, 0.0, 0.0, 0.0];
    var w := Weights(acc);
    SumRUpdate(w, 0, 1.5);
    SumRBounds(w[0 := 1.5], 1.5, 1.5);
    assert SumR(w) == 8.61;
    assert Pool(6, H) == 0.7 * H as real;
  }

  function FailRiskCount(acc: seq<real>): nat {
    if acc == [] then 0 else (if FailRisk(acc[0]) then 1 else 0) + FailRiskCount(acc[1..])
  }

  lemma OneMoreTimes(n: nat, f: real)
    ensures (1 + n) as real * f == f + n as real * f
  {
    assert (1 + n) as real == 1.0 + n as real;
  }

  lemma {:induction false} FloorsTakeRoom(acc: seq<real>, a: seq<int>, f: real)
    requires |a| == |acc| && f >= 0.0
    requires forall i :: 0 <= i < |a| ==> a[i] >= 0 && (FailRisk(acc[i]) ==> a[i] as real >= f)
    ensures Sum(a) as real >= FailRiskCount(acc) as real * f
  {
    if a != [] {
      FloorsTakeRoom(acc[1..], a[1..], f);
      OneMoreTimes(FailRiskCount(acc[1..]), f);
    }
  }

  /** The same for hours before rounding. */
  lemma {:induction false} FloorsTakeRoomBefore(acc: seq<real>, b: seq<real>, f: real)
    requires |b| == |acc| && f >= 0.0
    requires forall i :: 0 <= i < |b| ==> b[i] >= 0.0 && (FailRisk(acc[i]) ==> b[i] >= f)
    ensures SumR(b) >= FailRiskCount(acc) as real * f
  {
    if b != [] {
      FloorsTakeRoomBefore(acc[1..], b[1..], f);
      OneMoreTimes(FailRiskCount(acc[1..]), f);
    }
  }

  ghost predicate SomeBelowFloor(acc: seq<real>, H: int, rnd: real -> int)
    requires acc != []
  {
    exists i :: 0 <= i < |acc| && FailRisk(acc[i]) && Allocation(acc, H, rnd)[i] as real < Floor(H)
  }

  /** Seven fail-risk subjects cannot all have 15% of the week, whatever its length and the rounding. */
  lemma SevenFailRiskSubjectsBreakTheFloor(acc: seq<real>, H: int, rnd: real -> int)
    requires FailRiskCount(acc) >= 7 && H > 0 && Nearest(rnd)
    ensures acc != [] && SomeBelowFloor(acc, H, rnd)
  {
    hide Allocation, Overdrawn, Sum, Floor;
    assert acc != [];
    if Overdrawn(acc, H, rnd) {
      SevenOverdrawn(acc, H, rnd);
    } else {
      var a := Allocation(acc, H, rnd);
      HoursAddUp(acc, H, rnd);
      HoursAreNonNegative(acc, H, rnd);
      SevenFloors(FailRiskCount(acc), H);
      if !SomeBelowFloor(acc, H, rnd) {
        FloorsTakeRoom(acc, a, Floor(H));
        assert false;
      }
    }
  }

  /** When the last clamp bites, both drift targets end with nothing, and nobody else gains by the rescaling. */
  lemma OverdrawnShape(acc: seq<real>, H: int, rnd: real -> int)
    requires acc != [] && H > 0 && Nearest(rnd) && Overdrawn(acc, H, rnd)
    ensures var r := Rounded(Balanced(acc, H), rnd); var t, a := ArgMax(r), Allocation(acc, H, rnd);
      && a[t] == 0
      && exists u :: 0 <= u < |acc| && a[u] == 0 && forall j :: 0 <= j < |acc| && j != t && j != u ==> a[j] <= r[t]
  {
    hide Balanced, Rounded, ArgMax, Sum, Scaled, Clamped, SomeNegative, AbsorbDrift;
    var r := Rounded(Balanced(acc, H), rnd);
    var t, d := ArgMax(r), AbsorbDrift(r, H);
    var c := Clamped(d);
    var r2 := Rounded(Scaled(c, H), rnd);
    var u := ArgMax(r2);
    BalancedSigns(acc, H);
    RoundedSigns(Balanced(acc, H), rnd);
    ClampedShape(r, H);
    ScaledSigns(c, H);
    RoundedSigns(Scaled(c, H), rnd);
    if u == t { SumOfZeros(r2); }
    forall j | 0 <= j < |acc| && j != t && j != u ensures r2[j] <= r[t] {
      ScaledDown(c, H, rnd, j);
      NegativeIsTarget(r, H);
      OthersUntouched(r, H, j);
    }
  }

  lemma OthersUntouched(r: seq<int>, H: int, j: nat)
    requires r != [] && j < |r| && j != ArgMax(r)
    ensures AbsorbDrift(r, H)[j] == r[j]
  {
  }

  lemma SumOfZeros(r: seq<int>)
    requires r != [] && (forall i :: 0 <= i < |r| ==> r[i] >= 0) && r[ArgMax(r)] == 0
    ensures Sum(r) == 0
  {
    hide Sum;
    SumBounds(r, 0, 0);
  }

  lemma SevenOverdrawn(acc: seq<real>, H: int, rnd: real -> int)
    requires acc != [] && FailRiskCount(acc) >= 7 && H > 0 && Nearest(rnd) && Overdrawn(acc, H, rnd)
    ensures SomeBelowFloor(acc, H, rnd)
  {
    hide Allocation, Overdrawn, Balanced, Rounded, ArgMax;
    var r := Rounded(Balanced(acc, H), rnd);
    var t, a := ArgMax(r), Allocation(acc, H, rnd);
    OverdrawnShape(acc, H, rnd);
    var u :| 0 <= u < |acc| && a[u] == 0 && forall j :: 0 <= j < |acc| && j != t && j != u ==> a[j] <= r[t];
    var j := SomeFailRisk(acc);
    if !FailRisk(acc[t]) && j != u {
      SevenLeaveExcess(acc, H);
      DrainedTargetIsLow(acc, H, rnd);
    }
    if FailRisk(acc[t]) { assert a[t] as real < Floor(H); }
    if !FailRisk(acc[t]) { assert a[j] as real < Floor(H); }
  }

  lemma {:induction false} SomeFailRisk(acc: seq<real>) returns (j: nat)
    requires FailRiskCount(acc) > 0
    ensures j < |acc| && FailRisk(acc[j])
  {
    if FailRisk(acc[0]) {
      j := 0;
    } else {
      j := SomeFailRisk(acc[1..]);
      j := j + 1;
    }
  }

  lemma SevenLeaveExcess(acc: seq<real>, H: int)
    requires acc != [] && FailRiskCount(acc) >= 7 && H > 0
    ensures Excess(acc, H) > EPSILON && Raised(acc, H) > EPSILON
  {
    hide Balanced, Raised, Capacity, SumR, FailRiskCount;
    var b := Balanced(acc, H);
    BalancedSigns(acc, H);
    forall i | 0 <= i < |b| && FailRisk(acc[i]) ensures b[i] >= Floor(H) { BalancedFloor(acc, H, i); }
    FloorsTakeRoomBefore(acc, b, Floor(H));
    MoreThanSeven(FailRiskCount(acc), H);
    ExcessIsUnpaidRaise(acc, H);
  }

  lemma MoreThanSeven(count: nat, H: int)
    requires count >= 7 && H > 0
    ensures count as real * Floor(H) >= 1.05 * H as real
  {
    NonNegativeProduct(count as real - 7.0, Floor(H));
    assert (count as real - 7.0) * Floor(H) == count as real * Floor(H) - 7.0 * Floor(H);
  }

  // ---- Exactly when the floor is kept up to rounding ----

  /** Does the drift step leave its target, a fail-risk subject, further below the floor than rounding explains? */
  ghost predicate DriftBreaksFloor(acc: seq<real>, H: int, rnd: real -> int)
    requires acc != []
  {
    var r := Rounded(Balanced(acc, H), rnd);
    var left := H - (Sum(r) - r[ArgMax(r)]);
    FailRisk(acc[ArgMax(r)]) && (if left < 0 then 0 else left) as real < Floor(H) - (|acc| as real + 1.0) / 2.0
  }

  ghost predicate KeepsFloor(acc: seq<real>, H: int, rnd: real -> int)
    requires acc != []
  {
    forall i :: 0 <= i < |acc| && FailRisk(acc[i]) ==>
      Allocation(acc, H, rnd)[i] as real >= Floor(H) - (|acc| as real + 1.0) / 2.0
  }

  /** Every fail-risk subject keeps the floor up to rounding unless the drift step itself takes it away: it
      is enough to look at what is left for the subject that was rounded highest. */
  lemma FloorKeptIff(acc: seq<real>, H: int, rnd: real -> int)
    requires acc != [] && H > 0 && Nearest(rnd)
    ensures KeepsFloor(acc, H, rnd) <==> !DriftBreaksFloor(acc, H, rnd)
  {
    hide Allocation, Floor, Rounded, Balanced, ArgMax, Sum;
    if DriftBreaksFloor(acc, H, rnd) {
      BrokenByDrift(acc, H, rnd);
    } else {
      forall i | 0 <= i < |acc| && FailRisk(acc[i])
        ensures Allocation(acc, H, rnd)[i] as real >= Floor(H) - (|acc| as real + 1.0) / 2.0
      {
        KeptWithoutDrift(acc, H, rnd, i);
      }
    }
  }

  lemma BrokenByDrift(acc: seq<real>, H: int, rnd: real -> int)
    requires acc != [] && H > 0 && Nearest(rnd) && DriftBreaksFloor(acc, H, rnd)
    ensures !KeepsFloor(acc, H, rnd)
  {
    hide Rounded, Balanced, ArgMax, Sum, SomeNegative, Renormalised, Clamped, AbsorbDrift;
    var r := Rounded(Balanced(acc, H), rnd);
    var t, a := ArgMax(r), AbsorbDrift(r, H);
    DriftUpdatesTarget(r, H);
    if SomeNegative(a) {
      BalancedSigns(acc, H);
      RoundedSigns(Balanced(acc, H), rnd);
      ClampedShape(r, H);
      ClampedTargetGetsNothing(a, H, rnd, t);
    } else {
      TargetNotNegative(a, t);
    }
  }

  lemma TargetNotNegative(a: seq<int>, t: nat)
    requires !SomeNegative(a) && t < |a|
    ensures a[t] >= 0
  {
  }

  lemma KeptWithoutDrift(acc: seq<real>, H: int, rnd: real -> int, i: nat)
    requires i < |acc| && H > 0 && Nearest(rnd) && FailRisk(acc[i]) && !DriftBreaksFloor(acc, H, rnd)
    ensures Allocation(acc, H, rnd)[i] as real >= Floor(H) - (|acc| as real + 1.0) / 2.0
  {
    hide Rounded, Balanced, ArgMax, Sum, SomeNegative, Renormalised, Clamped, AbsorbDrift, Floor;
    var b := Balanced(acc, H);
    var r := Rounded(b, rnd);
    var t, a := ArgMax(r), AbsorbDrift(r, H);
    DriftUpdatesTarget(r, H);
    BalancedFloor(acc, H, i);
    RoundedIsNear(b, rnd);
    if SomeNegative(a) {
      HoursAreNonNegative(acc, H, rnd);
      BalancedSigns(acc, H);
      RoundedSigns(b, rnd);
      NegativeIsTarget(r, H);
      if !FailRisk(acc[t]) { NegativeDonorMeansTinyFloor(acc, H, rnd, i); }
    } else {
      TargetNotNegative(a, t);
    }
  }

  /** A donor is overdrawn only where the floor itself is within rounding. */
  lemma NegativeDonorMeansTinyFloor(acc: seq<real>, H: int, rnd: real -> int, i: nat)
    requires i < |acc| && H > 0 && Nearest(rnd) && FailRisk(acc[i])
    requires var r := Rounded(Balanced(acc, H), rnd);
      !FailRisk(acc[ArgMax(r)]) && AbsorbDrift(r, H)[ArgMax(r)] < 0
    ensures Floor(H) <= (|acc| as real + 1.0) / 2.0
  {
    hide Rounded, Balanced, ArgMax, Sum, AbsorbDrift, Raised, Maintenance, Capacity;
    var b := Balanced(acc, H);
    var t := ArgMax(Rounded(b, rnd));
    TargetPaysExcess(b, H, rnd);
    BalancedFloor(acc, H, i);
    PoolAndMaintenance(|acc|, H);
    ExcessIsUnpaidRaise(acc, H);
    if Excess(acc, H) > 0.0 { UnpaidDonorsAreDrained(acc, H, t); }
  }

  lemma SevenFloors(count: nat, H: int)
    requires count >= 7 && H > 0
    ensures Floor(H) > 0.0 && count as real * Floor(H) > H as real
  {
    assert (count as real - 7.0) * Floor(H) >= 0.0;
  }

  lemma QuotientBetween(a: real, b: real)
    requires b > 0.0 && b < 2.0 * a < 2.0 * b
    ensures 0.5 < a / b < 1.0
  {
    DivTimes(a, b);
    SignOfProduct(b, a / b - 0.5);
    SignOfProduct(b, 1.0 - a / b);
    assert b * (a / b - 0.5) == a - b * 0.5;
    assert b * (1.0 - a / b) == b - a;
  }

  lemma StableSubjectsShareEvenly(acc: seq<real>, H: int)
    requires acc != [] && H > 0 && forall i :: 0 <= i < |acc| ==> acc[i] >= STABLE_ACCURACY
    ensures forall i :: 0 <= i < |acc| ==> Balanced(acc, H)[i] == H as real / |acc| as real
  {
    hide SumR, Pool, Maintenance, Share;
    var n := |acc|;
    var w, p, m := Weights(acc), Pool(n, H), Maintenance(n, H);
    SumRBounds(w, 0.0, 0.0);
    SumRBounds(Deficits(acc, Shares(acc, H), Floor(H)), 0.0, 0.0);
    NoPayment(Raised(acc, H), Capacity(acc, H));
    PoolAndMaintenance(n, H);
    DivTimes(p, n as real);
    TimesDiv(m + p / n as real, n as real);
    forall i | 0 <= i < n ensures Balanced(acc, H)[i] == H as real / n as real {
      ShareIsEven(p, w[i], SumR(w), n, p / n as real);
      assert (m + p / n as real) * n as real == H as real by {
        assert m * n as real + p / n as real * n as real == H as real;
      }
    }
  }

  lemma TinyWeekFirstRound(acc: seq<real>, H: int, rnd: real -> int)
    requires Nearest(rnd) && forall i :: 0 <= i < |acc| ==> acc[i] >= STABLE_ACCURACY
    requires |acc| < 2 * H && H < |acc| - 2
    ensures AbsorbDrift(Rounded(Balanced(acc, H), rnd), H) == seq(|acc|, i => if i == 0 then 1 + H - |acc| else 1)
  {
    hide Balanced, Sum, ArgMax, SumR;
    var b, n := Balanced(acc, H), |acc|;
    TinyShares(acc, H);
    RoundsToOnes(b, rnd);
    var r := Rounded(b, rnd);
    SumBounds(r, 1, 1);
    assert r[0] == 1 && r[ArgMax(r)] == 1;
    assert AbsorbDrift(r, H) == r[0 := 1 + H - n];
  }

  lemma TinyShares(acc: seq<real>, H: int)
    requires |acc| < 2 * H && H < |acc| && forall i :: 0 <= i < |acc| ==> acc[i] >= STABLE_ACCURACY
    ensures forall i :: 0 <= i < |acc| ==> 0.5 < Balanced(acc, H)[i] < 1.0
  {
    hide Balanced;
    StableSubjectsShareEvenly(acc, H);
    QuotientBetween(H as real, |acc| as real);
  }

  lemma RoundsToOnes(b: seq<real>, rnd: real -> int)
    requires Nearest(rnd) && forall i :: 0 <= i < |b| ==> 0.5 < b[i] < 1.0
    ensures forall i :: 0 <= i < |b| ==> Rounded(b, rnd)[i] == 1
  {
  }

  lemma TinyWeekSecondRound(n: nat, c: seq<int>, H: int, rnd: real -> int)
    requires Nearest(rnd) && n < 2 * H && H < n - 2
    requires |c| == n && c[0] == 0 && forall i :: 1 <= i < n ==> c[i] == 1
    ensures Sum(c) == n - 1
    ensures Rounded(Scaled(c, H), rnd) == c && ArgMax(c) == 1
  {
    hide Sum, ArgMax, Scaled, Rounded;
    SumUpdate(c, 0, 1);
    SumBounds(c[0 := 1], 1, 1);
    TinyScaled(n, c, H);
    RoundsBack(c, Scaled(c, H), rnd);
    assert c[1] == 1;
  }

  lemma TinyScaled(n: nat, c: seq<int>, H: int)
    requires n < 2 * H && H < n - 2 && |c| == n && c[0] == 0 && Sum(c) == n - 1
    requires forall i :: 1 <= i < n ==> c[i] == 1
    ensures Scaled(c, H)[0] == 0.0 && forall i :: 1 <= i < n ==> 0.5 < Scaled(c, H)[i] < 1.0
  {
    hide Sum;
    QuotientBetween(H as real, (n - 1) as real);
  }

  lemma RoundsBack(c: seq<int>, s: seq<real>, rnd: real -> int)
    requires Nearest(rnd) && |s| == |c| > 0 && c[0] == 0 && s[0] == 0.0
    requires forall i :: 1 <= i < |c| ==> c[i] == 1 && 0.5 < s[i] < 1.0
    ensures Rounded(s, rnd) == c
  {
  }

  /** Tiny weeks are not conserved: with n stable subjects and n/2 < H < n-2 the code hands out n-2. */
  lemma TinyWeeksOverspend(acc: seq<real>, H: int, rnd: real -> int)
    requires Nearest(rnd) && (forall i :: 0 <= i < |acc| ==> acc[i] >= STABLE_ACCURACY)
    requires |acc| < 2 * H && H < |acc| - 2
    ensures Sum(Allocation(acc, H, rnd)) == |acc| - 2
    ensures Overdrawn(acc, H, rnd)
  {
    hide Balanced, Sum, ArgMax, Rounded, Scaled;
    TinyWeekFirstRound(acc, H, rnd);
    var a := AbsorbDrift(Rounded(Balanced(acc, H), rnd), H);
    assert a[0] < 0;
    var c := Clamped(a);
    TinyWeekSecondRound(|acc|, c, H, rnd);
    SumUpdate(c, 1, 0);
  }
}
