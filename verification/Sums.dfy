/** Sums over sequences of integers and of reals. */
module Sums {

  function Sum(s: seq<int>): int {
    if s == [] then 0 else s[0] + Sum(s[1..])
  }

  lemma {:induction false} SumConcat(s: seq<int>, t: seq<int>)
    ensures Sum(s + t) == Sum(s) + Sum(t)
  {
    if s == [] {
      assert s + t == t;
    } else {
      assert (s + t)[1..] == s[1..] + t;
      SumConcat(s[1..], t);
    }
  }

  lemma SumAppend(s: seq<int>, x: int)
    ensures Sum(s + [x]) == Sum(s) + x
  {
    SumConcat(s, [x]);
  }

  lemma {:induction false} SumUpdate(s: seq<int>, i: nat, x: int)
    requires i < |s|
    ensures Sum(s[i := x]) == Sum(s) - s[i] + x
  {
    if i == 0 {
      assert s[i := x][1..] == s[1..];
    } else {
      assert s[i := x][1..] == s[1..][i - 1 := x];
      SumUpdate(s[1..], i - 1, x);
    }
  }

  lemma {:induction false} SumBounds(s: seq<int>, lo: int, hi: int)
    requires forall i :: 0 <= i < |s| ==> lo <= s[i] <= hi
    ensures lo * |s| <= Sum(s) <= hi * |s|
  {
    if s != [] { SumBounds(s[1..], lo, hi); }
  }

  function SumR(s: seq<real>): real {
    if s == [] then 0.0 else s[0] + SumR(s[1..])
  }

  lemma {:induction false} SumRAppend(s: seq<real>, x: real)
    ensures SumR(s + [x]) == SumR(s) + x
  {
    if s != [] {
      assert (s + [x])[1..] == s[1..] + [x];
      SumRAppend(s[1..], x);
    }
  }

  lemma {:induction false} SumRUpdate(s: seq<real>, i: nat, x: real)
    requires i < |s|
    ensures SumR(s[i := x]) == SumR(s) - s[i] + x
  {
    if i == 0 {
      assert s[i := x][1..] == s[1..];
    } else {
      assert s[i := x][1..] == s[1..][i - 1 := x];
      SumRUpdate(s[1..], i - 1, x);
    }
  }

  lemma LinearStep(a: real, b: real, x: real, rest: real, n: int)
    ensures a * x + b + (a * rest + b * (n - 1) as real) == a * (x + rest) + b * n as real
  {
    assert a * (x + rest) == a * x + a * rest;
    assert (n - 1) as real == n as real - 1.0;
    assert b * (n as real - 1.0) == b * n as real - b;
  }

  /** Sums are linear in the terms: t = a * s + b. */
  lemma {:induction false} SumRLinear(s: seq<real>, t: seq<real>, a: real, b: real)
    requires |s| == |t|
    requires forall i :: 0 <= i < |s| ==> t[i] == a * s[i] + b
    ensures SumR(t) == a * SumR(s) + b * |s| as real
  {
    if s != [] {
      SumRLinear(s[1..], t[1..], a, b);
      LinearStep(a, b, s[0], SumR(s[1..]), |s|);
    }
  }

  lemma {:induction false} SumRBounds(s: seq<real>, lo: real, hi: real)
    requires forall i :: 0 <= i < |s| ==> lo <= s[i] <= hi
    ensures lo * |s| as real <= SumR(s) <= hi * |s| as real
  {
    if s != [] {
      SumRBounds(s[1..], lo, hi);
      assert (|s| - 1) as real == |s| as real - 1.0;
    }
  }

  lemma NearStep(x: real, y: int, R: real, T: int, d: real, n: nat)
    requires x - d <= y as real <= x + d
    requires R - d * n as real <= T as real <= R + d * n as real
    ensures x + R - d * (n + 1) as real <= (y + T) as real <= x + R + d * (n + 1) as real
  {
    OneMoreTerm(d, n);
    assert (y + T) as real == y as real + T as real;
  }

  /** An integer sequence within `d` of a real one, term by term, has a sum within |s|*d of it. */
  lemma {:induction false} SumNear(s: seq<real>, t: seq<int>, d: real)
    requires |s| == |t|
    requires forall i :: 0 <= i < |s| ==> s[i] - d <= t[i] as real <= s[i] + d
    ensures SumR(s) - d * |s| as real <= Sum(t) as real <= SumR(s) + d * |s| as real
  {
    if s != [] {
      SumNear(s[1..], t[1..], d);
      NearStep(s[0], t[0], SumR(s[1..]), Sum(t[1..]), d, |s[1..]|);
      assert |s| == |s[1..]| + 1;
    }
  }

  lemma OneMoreTerm(d: real, n: int)
    ensures d * (n + 1) as real == d * n as real + d
  {
    assert (n + 1) as real == n as real + 1.0;
  }
}
