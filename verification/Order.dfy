/** The order Python gives to tuples and strings, and `sorted(..., key=...)` by such keys. */
module Order {
  import opened Filters

  /** Lexicographic order on strings, by code point. */
  predicate StrLe(a: string, b: string) {
    |a| == 0 || (|b| > 0 && (a[0] < b[0] || (a[0] == b[0] && StrLe(a[1..], b[1..]))))
  }

  /** Do the two strings agree before position `k`, and is the first one smaller there? */
  ghost predicate SmallerAt(a: string, b: string, k: nat) {
    k < |a| && k < |b| && (forall i :: 0 <= i < k ==> a[i] == b[i]) && a[k] < b[k]
  }

  ghost predicate PrefixOf(a: string, b: string) {
    |a| <= |b| && forall i :: 0 <= i < |a| ==> a[i] == b[i]
  }

  lemma BehindSameHead(a: string, b: string, k: nat)
    requires a != [] && b != [] && a[0] == b[0]
    ensures SmallerAt(a[1..], b[1..], k) <==> SmallerAt(a, b, k + 1)
    ensures PrefixOf(a[1..], b[1..]) <==> PrefixOf(a, b)
  {
    assert forall i :: 0 <= i < |a| - 1 ==> a[1..][i] == a[i + 1];
    assert forall i :: 0 <= i < |b| - 1 ==> b[1..][i] == b[i + 1];
    if SmallerAt(a[1..], b[1..], k) {
      forall i | 0 <= i < k + 1 ensures a[i] == b[i] {
        if i > 0 { assert a[1..][i - 1] == b[1..][i - 1]; }
      }
    }
    if PrefixOf(a[1..], b[1..]) {
      forall i | 0 <= i < |a| ensures a[i] == b[i] {
        if i > 0 { assert a[1..][i - 1] == b[1..][i - 1]; }
      }
    }
  }

  /** What the order means: a prefix comes first; otherwise the first differing character decides. */
  lemma {:induction false} StrLeMeans(a: string, b: string)
    ensures StrLe(a, b) <==> PrefixOf(a, b) || exists k: nat :: SmallerAt(a, b, k)
  {
    if a != [] && b != [] && a[0] == b[0] {
      StrLeMeans(a[1..], b[1..]);
      BehindSameHead(a, b, 0);
      if k: nat :| SmallerAt(a[1..], b[1..], k) { BehindSameHead(a, b, k); }
      if k: nat :| SmallerAt(a, b, k) { BehindSameHead(a, b, k - 1); }
    } else if a != [] && b != [] && a[0] < b[0] {
      assert SmallerAt(a, b, 0);
    }
  }

  predicate StrLt(a: string, b: string) {
    a != b && StrLe(a, b)
  }

  lemma {:induction false} StrAntisymmetric(a: string, b: string)
    requires StrLe(a, b) && StrLe(b, a)
    ensures a == b
  {
    if |a| > 0 {
      StrAntisymmetric(a[1..], b[1..]);
      assert a == [a[0]] + a[1..] && b == [b[0]] + b[1..];
    }
  }

  lemma {:induction false} StrTotal(a: string, b: string)
    ensures StrLe(a, b) || StrLe(b, a)
  {
    if |a| > 0 && |b| > 0 { StrTotal(a[1..], b[1..]); }
  }

  lemma {:induction false} StrTransitive(a: string, b: string, c: string)
    requires StrLe(a, b) && StrLe(b, c)
    ensures StrLe(a, c)
  {
    if |a| > 0 && a[0] == b[0] == c[0] { StrTransitive(a[1..], b[1..], c[1..]); }
  }

  /** A sort key: a Python tuple of two integers and a string, with further parts around them where
      a caller needs them. The order of comparison is that of `KeyLe`. */
  datatype Key = Key(major: int, minor: int, id: string,
                     nameonly first: string := "", nameonly lead: real := 0.0, nameonly last: int := 0)

  predicate KeyLe(a: Key, b: Key) {
    if a.first != b.first then StrLe(a.first, b.first)
    else if a.lead != b.lead then a.lead < b.lead
    else if a.major != b.major then a.major < b.major
    else if a.minor != b.minor then a.minor < b.minor
    else if a.id != b.id then StrLe(a.id, b.id)
    else a.last <= b.last
  }

  lemma KeyOrder(a: Key, b: Key)
    ensures KeyLe(a, b) || KeyLe(b, a)
    ensures KeyLe(a, b) && KeyLe(b, a) ==> a == b
  {
    StrTotal(a.first, b.first);
    StrTotal(a.id, b.id);
    if StrLe(a.first, b.first) && StrLe(b.first, a.first) { StrAntisymmetric(a.first, b.first); }
    if StrLe(a.id, b.id) && StrLe(b.id, a.id) { StrAntisymmetric(a.id, b.id); }
  }

  lemma KeyTransitive(a: Key, b: Key, c: Key)
    requires KeyLe(a, b) && KeyLe(b, c)
    ensures KeyLe(a, c)
  {
    hide StrLe;
    if StrLe(a.first, b.first) && StrLe(b.first, c.first) { StrTransitive(a.first, b.first, c.first); }
    if StrLe(a.id, b.id) && StrLe(b.id, c.id) { StrTransitive(a.id, b.id, c.id); }
    if StrLe(a.first, b.first) && StrLe(b.first, a.first) { StrAntisymmetric(a.first, b.first); }
    if StrLe(a.id, b.id) && StrLe(b.id, a.id) { StrAntisymmetric(a.id, b.id); }
  }

  function Insert<T>(x: T, s: seq<T>, key: T -> Key): seq<T> {
    if s == [] || KeyLe(key(x), key(s[0])) then [x] + s else [s[0]] + Insert(x, s[1..], key)
  }

  /** The stable sort of `xs` by `key`. */
  function SortBy<T>(xs: seq<T>, key: T -> Key): seq<T> {
    if xs == [] then [] else Insert(xs[0], SortBy(xs[1..], key), key)
  }

  function KeyedBy<T>(key: T -> Key, k: Key): T -> bool {
    (x: T) => key(x) == k
  }

  lemma {:induction false} InsertIsStable<T>(x: T, s: seq<T>, key: T -> Key, k: Key)
    ensures Where(Insert(x, s, key), KeyedBy(key, k)) == Where([x] + s, KeyedBy(key, k))
  {
    hide KeyLe, Where;
    if s != [] && !KeyLe(key(x), key(s[0])) {
      var p := KeyedBy(key, k);
      KeyOrder(key(x), key(s[0]));
      InsertIsStable(x, s[1..], key, k);
      WhereConcat([s[0]], Insert(x, s[1..], key), p);
      WhereConcat([x], s[1..], p);
      WhereConcat([x] + [s[0]], s[1..], p);
      WhereConcat([s[0]] + [x], s[1..], p);
      TwoWays(x, s[0], key, k);
      assert [x] + s == [x] + [s[0]] + s[1..];
      WhereConcat([s[0]], [x] + s[1..], p);
      assert [s[0]] + ([x] + s[1..]) == [s[0]] + [x] + s[1..];
    }
  }

  lemma TwoWays<T>(x: T, y: T, key: T -> Key, k: Key)
    requires key(x) != key(y)
    ensures Where([x] + [y], KeyedBy(key, k)) == Where([y] + [x], KeyedBy(key, k))
  {
    assert [x][..0] == [] && [y][..0] == [];
    WhereAppend([x], y, KeyedBy(key, k));
    WhereAppend([y], x, KeyedBy(key, k));
  }

  /** Elements of the same key stay in the order they came in. */
  lemma {:induction false} SortByIsStable<T>(xs: seq<T>, key: T -> Key, k: Key)
    ensures Where(SortBy(xs, key), KeyedBy(key, k)) == Where(xs, KeyedBy(key, k))
  {
    hide KeyLe, Where;
    if xs != [] {
      SortByIsStable(xs[1..], key, k);
      InsertIsStable(xs[0], SortBy(xs[1..], key), key, k);
      WhereConcat([xs[0]], SortBy(xs[1..], key), KeyedBy(key, k));
      WhereConcat([xs[0]], xs[1..], KeyedBy(key, k));
      assert xs == [xs[0]] + xs[1..];
    }
  }

  ghost predicate Sorted<T>(s: seq<T>, key: T -> Key) {
    forall i, j :: 0 <= i < j < |s| ==> KeyLe(key(s[i]), key(s[j]))
  }

  lemma {:induction false} InsertElements<T>(x: T, s: seq<T>, key: T -> Key)
    ensures multiset(Insert(x, s, key)) == multiset{x} + multiset(s)
  {
    if s != [] && !KeyLe(key(x), key(s[0])) {
      InsertElements(x, s[1..], key);
      assert s == [s[0]] + s[1..];
    }
  }

  lemma {:induction false} InsertSorts<T>(x: T, s: seq<T>, key: T -> Key)
    requires Sorted(s, key)
    ensures Sorted(Insert(x, s, key), key)
  {
    var r := Insert(x, s, key);
    if s != [] {
      KeyOrder(key(x), key(s[0]));
      if KeyLe(key(x), key(s[0])) {
        forall k | 0 <= k < |s| ensures KeyLe(key(x), key(s[k])) {
          if k > 0 { KeyTransitive(key(x), key(s[0]), key(s[k])); }
        }
        SortedCons(x, s, key);
      } else {
        var t := Insert(x, s[1..], key);
        InsertSorts(x, s[1..], key);
        InsertElements(x, s[1..], key);
        forall k | 0 <= k < |t| ensures KeyLe(key(s[0]), key(t[k])) {
          assert t[k] in multiset(t);
          assert t[k] == x || t[k] in s[1..];
        }
        SortedCons(s[0], t, key);
      }
    }
  }

  lemma SortedCons<T>(x: T, s: seq<T>, key: T -> Key)
    requires Sorted(s, key)
    requires forall k :: 0 <= k < |s| ==> KeyLe(key(x), key(s[k]))
    ensures Sorted([x] + s, key)
  {
    var r := [x] + s;
    forall i, j | 0 <= i < j < |r| ensures KeyLe(key(r[i]), key(r[j])) {
      assert r[j] == s[j - 1];
    }
  }

  lemma {:induction false} SortBySorts<T>(xs: seq<T>, key: T -> Key)
    ensures multiset(SortBy(xs, key)) == multiset(xs)
    ensures |SortBy(xs, key)| == |xs|
    ensures forall x :: x in SortBy(xs, key) <==> x in xs
    ensures Sorted(SortBy(xs, key), key)
  {
    if xs != [] {
      SortBySorts(xs[1..], key);
      InsertElements(xs[0], SortBy(xs[1..], key), key);
      InsertSorts(xs[0], SortBy(xs[1..], key), key);
      assert xs == [xs[0]] + xs[1..];
    }
    SameElements(SortBy(xs, key), xs);
  }

  lemma SameElements<T>(s: seq<T>, t: seq<T>)
    requires multiset(s) == multiset(t)
    ensures |s| == |t|
    ensures forall x :: x in s <==> x in t
  {
    assert |multiset(s)| == |s| && |multiset(t)| == |t|;
    forall x ensures x in s <==> x in t {
      assert x in s <==> x in multiset(s);
      assert x in t <==> x in multiset(t);
    }
  }

  ghost predicate Injective<T>(s: seq<T>, key: T -> Key) {
    forall x, y :: x in s && y in s && key(x) == key(y) ==> x == y
  }

  lemma HeadsAgree<T>(s: seq<T>, t: seq<T>, key: T -> Key)
    requires s != [] && Sorted(s, key) && Sorted(t, key)
    requires multiset(s) == multiset(t)
    requires Injective(s, key)
    ensures t != [] && s[0] == t[0]
  {
    SameElements(s, t);
    var a, b := s[0], t[0];
    assert a in t && b in s;
    var i :| 0 <= i < |t| && t[i] == a;
    var j :| 0 <= j < |s| && s[j] == b;
    KeyOrder(key(a), key(b));
  }

  /** Two sorted arrangements of the same elements are equal when no two of them share a key. */
  lemma {:induction false} SortedUnique<T>(s: seq<T>, t: seq<T>, key: T -> Key)
    requires Sorted(s, key) && Sorted(t, key)
    requires multiset(s) == multiset(t)
    requires Injective(s, key)
    ensures s == t
  {
    if s == [] {
      assert |multiset(t)| == |t|;
    } else {
      HeadsAgree(s, t, key);
      var a, s1, t1 := s[0], s[1..], t[1..];
      TailElements(s);
      TailElements(t);
      SortedTail(s, key);
      SortedTail(t, key);
      InjectiveTail(s, s1, key);
      SortedUnique(s1, t1, key);
    }
  }

  lemma TailElements<T>(s: seq<T>)
    requires s != []
    ensures s == [s[0]] + s[1..] && multiset(s[1..]) == multiset(s) - multiset{s[0]}
    ensures forall x :: x in s[1..] ==> x in s
  {
    assert s == [s[0]] + s[1..];
  }

  lemma SortedTail<T>(s: seq<T>, key: T -> Key)
    requires s != [] && Sorted(s, key)
    ensures Sorted(s[1..], key)
  {
  }

  lemma InjectiveTail<T>(s: seq<T>, t: seq<T>, key: T -> Key)
    requires Injective(s, key)
    requires forall x :: x in t ==> x in s
    ensures Injective(t, key)
  {
  }

  /** Sorting forgets the input order when keys are distinct. */
  lemma SortByIgnoresOrder<T>(xs: seq<T>, ys: seq<T>, key: T -> Key)
    requires multiset(xs) == multiset(ys)
    requires Injective(xs, key)
    ensures SortBy(xs, key) == SortBy(ys, key)
  {
    var s, t := SortBy(xs, key), SortBy(ys, key);
    assert multiset(s) == multiset(t) && Sorted(s, key) && Sorted(t, key) by {
      SortBySorts(xs, key);
      SortBySorts(ys, key);
    }
    assert Injective(s, key) by {
      SortBySorts(xs, key);
      InjectiveTail(xs, s, key);
    }
    SortedUnique(s, t, key);
  }

  /** In a sorted sequence nothing outside a prefix sorts before something inside it. */
  lemma PrefixComesFirst<T>(s: seq<T>, k: nat, key: T -> Key, x: T, y: T)
    requires Sorted(s, key) && k <= |s|
    requires x in s[..k] && y in s && y !in s[..k]
    ensures KeyLe(key(x), key(y))
  {
    var a :| 0 <= a < k && s[a] == x;
    var b :| 0 <= b < |s| && s[b] == y;
    assert forall c :: 0 <= c < k ==> s[c] == s[..k][c];
  }

  ghost predicate Distinct<T>(s: seq<T>) {
    forall i, j :: 0 <= i < j < |s| ==> s[i] != s[j]
  }

  /** A sequence without repeats stays without repeats when rearranged. */
  lemma DistinctSameElements<T>(s: seq<T>, t: seq<T>)
    requires multiset(s) == multiset(t)
    requires Distinct(s)
    ensures Distinct(t)
  {
    forall i, j | 0 <= i < j < |t| ensures t[i] != t[j] {
      AtMostOnce(s, t[i]);
      if t[i] == t[j] { TwiceCounts(t, i, j); }
    }
  }

  lemma TwiceCounts<T>(t: seq<T>, i: nat, j: nat)
    requires i < j < |t| && t[i] == t[j]
    ensures multiset(t)[t[i]] >= 2
  {
    assert t == t[..i] + [t[i]] + t[i + 1..j] + [t[j]] + t[j + 1..];
  }

  lemma {:induction false} AtMostOnce<T>(s: seq<T>, x: T)
    requires Distinct(s)
    ensures multiset(s)[x] <= 1
  {
    if s != [] {
      assert s == [s[0]] + s[1..];
      AtMostOnce(s[1..], x);
      if x == s[0] { assert x !in s[1..]; }
    }
  }

  /** The elements of a set, each once, in some order. */
  method SetToSeq<T(==)>(elements: set<T>) returns (s: seq<T>)
    ensures Distinct(s) && |s| == |elements| && forall x :: x in s <==> x in elements
  {
    s := [];
    var rest := elements;
    while rest != {}
      invariant Distinct(s) && |s| + |rest| == |elements|
      invariant forall x :: x in elements <==> x in s || x in rest
      invariant forall x :: x in s ==> x !in rest
      decreases |rest|
    {
      var x :| x in rest;
      s, rest := s + [x], rest - {x};
    }
  }
}
