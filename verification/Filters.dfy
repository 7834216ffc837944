/** Parts of a sequence: the elements that pass a test, the first ones, and where an element first stands. */
module Filters {

  function Where<T>(s: seq<T>, p: T -> bool): seq<T> {
    if s == [] then []
    else Where(s[..|s| - 1], p) + if p(s[|s| - 1]) then [s[|s| - 1]] else []
  }

  lemma {:induction false} WhereConcat<T>(s: seq<T>, t: seq<T>, p: T -> bool)
    ensures Where(s + t, p) == Where(s, p) + Where(t, p)
  {
    if t == [] {
      assert s + t == s;
    } else {
      assert (s + t)[..|s + t| - 1] == s + t[..|t| - 1];
      WhereConcat(s, t[..|t| - 1], p);
    }
  }

  lemma {:induction false} WhereMembers<T>(s: seq<T>, p: T -> bool)
    ensures forall x :: x in Where(s, p) <==> x in s && p(x)
  {
    if s != [] {
      WhereMembers(s[..|s| - 1], p);
      assert s == s[..|s| - 1] + [s[|s| - 1]];
    }
  }

  lemma WhereAppend<T>(s: seq<T>, x: T, p: T -> bool)
    ensures Where(s + [x], p) == Where(s, p) + if p(x) then [x] else []
  {
    assert (s + [x])[..|s|] == s;
  }

  /** The position of the first `x` in `s`, or past the end if there is none. */
  function FirstIndex<T(==)>(s: seq<T>, x: T): (i: nat)
    ensures i <= |s| && (i < |s| ==> s[i] == x) && forall j :: 0 <= j < i ==> s[j] != x
  {
    if s == [] then 0
    else
      var i := FirstIndex(s[..|s| - 1], x);
      if i < |s| - 1 || s[|s| - 1] == x then i else |s|
  }

  lemma FirstIndexAppend<T>(s: seq<T>, y: T, x: T)
    ensures FirstIndex(s + [y], x) == if FirstIndex(s, x) < |s| || y == x then FirstIndex(s, x) else |s| + 1
  {
    assert (s + [y])[..|s|] == s;
  }

  lemma {:induction false} WhereAll<T>(s: seq<T>, p: T -> bool)
    requires forall i :: 0 <= i < |s| ==> p(s[i])
    ensures Where(s, p) == s
  {
    if s != [] {
      WhereAll(s[..|s| - 1], p);
      assert s == s[..|s| - 1] + [s[|s| - 1]];
    }
  }

  lemma {:induction false} WhereNone<T>(s: seq<T>, p: T -> bool)
    requires forall i :: 0 <= i < |s| ==> !p(s[i])
    ensures Where(s, p) == []
  {
    if s != [] { WhereNone(s[..|s| - 1], p); }
  }

  lemma WhereBehind<T>(s: seq<T>, t: seq<T>, p: T -> bool)
    requires (forall i :: 0 <= i < |s| ==> !p(s[i])) && forall i :: 0 <= i < |t| ==> p(t[i])
    ensures Where(s + t, p) == t
  {
    WhereConcat(s, t, p);
    WhereNone(s, p);
    WhereAll(t, p);
    assert [] + t == t;
  }

  /** A test that exactly the elements from `k` on pass. */
  lemma WhereSuffix<T>(s: seq<T>, p: T -> bool, k: nat)
    requires k <= |s| && (forall i :: 0 <= i < k ==> !p(s[i])) && forall i :: k <= i < |s| ==> p(s[i])
    ensures Where(s, p) == s[k..]
  {
    var front, back := s[..k], s[k..];
    assert s == front + back;
    forall i | 0 <= i < |front| ensures !p(front[i]) { assert front[i] == s[i]; }
    forall i | 0 <= i < |back| ensures p(back[i]) { assert back[i] == s[k + i]; }
    WhereBehind(front, back, p);
  }

  /** The first `n` elements, or all if there are fewer. */
  function Take<T>(s: seq<T>, n: nat): (t: seq<T>)
    ensures t <= s && |t| == if n < |s| then n else |s|
  {
    if n < |s| then s[..n] else s
  }
}
