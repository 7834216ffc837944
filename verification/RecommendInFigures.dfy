/** Recommendations in the figures of their specification: what a question scores, how the ranking follows
    the scores, what is skipped, and in which order a cold start goes round. */
module RecommendInFigures {
  import opened Filters
  import opened Order
  import opened Recommend
  import opened Rounding
  import opened Text
  import opened Wrappers

  // ---- What a question scores ----

  /** Is there a concept mastered to less than one half and a tag of the question, one within the other? */
  ghost predicate Practises(st: SubjectState, item: Item) {
    exists m, tag :: m in st.concepts && tag in item.tags && m.mastery < 0.5
                     && (Contains(tag, m.concept) || Contains(m.concept, tag))
  }

  lemma WeakMatchMeans(st: SubjectState, item: Item)
    ensures WeakMatch(Some(st), item.tags) <==> Practises(st, item)
  {
    hide Contains;
    if WeakMatch(Some(st), item.tags) {
      var i :| 0 <= i < |st.concepts| && WeakIn(st.concepts[i], item.tags);
      var k :| 0 <= k < |item.tags| && (Contains(item.tags[k], st.concepts[i].concept)
                                        || Contains(st.concepts[i].concept, item.tags[k]));
      assert st.concepts[i] in st.concepts && item.tags[k] in item.tags;
    }
    if Practises(st, item) {
      var m, tag :| m in st.concepts && tag in item.tags && m.mastery < 0.5
        && (Contains(tag, m.concept) || Contains(m.concept, tag));
      var i :| 0 <= i < |st.concepts| && st.concepts[i] == m;
      var k :| 0 <= k < |item.tags| && item.tags[k] == tag;
      assert Touches(m.concept, item.tags);
      assert WeakIn(st.concepts[i], item.tags);
    }
  }

  /** Is the user pressed for time, and the question known to take at most a minute and a half? */
  predicate ShortEnough(st: SubjectState, item: Item) {
    st.timePressure && item.seconds.Some? && item.seconds.value <= 90.0
  }

  /** What a subject's accuracy is worth: its weakness, and one and a half more below the fail line. */
  function WeaknessWorth(accuracy: real): real {
    if accuracy < 0.0 then 2.5
    else if accuracy < 0.40 then 2.5 - accuracy
    else if accuracy <= 1.0 then 1.0 - accuracy
    else 0.0
  }

  /** The points, up to rounding, in ten-thousandths: 0.8 for a weak concept, 0.2 for a short question under
      time pressure, half a point off for an attempt; one half for a subject nothing is known about. */
  lemma PointsInFigures(item: Item, st: SubjectState, attempted: set<string>, rnd: real -> int)
    requires Nearest(rnd)
    ensures var exact := WeaknessWorth(st.accuracy)
        + (if Practises(st, item) then 0.8 else 0.0)
        + (if ShortEnough(st, item) then 0.2 else 0.0)
        - if item.id in attempted then 0.5 else 0.0;
      10000.0 * exact - 0.5 <= Points(item, Some(st), attempted, rnd) as real <= 10000.0 * exact + 0.5
    ensures Points(item, None, attempted, rnd) == if item.id in attempted then 0 else 5000
  {
    hide Practises, WeakMatch;
    WeakMatchMeans(st, item);
    NearestOfInteger(rnd, if item.id in attempted then 0 else 5000);
    UnknownScores(item, attempted);
    var x := 10000.0 * Score(item, Some(st), attempted);
    assert x - 0.5 <= rnd(x) as real <= x + 0.5;
  }

  lemma UnknownScores(item: Item, attempted: set<string>)
    ensures Score(item, None, attempted) == if item.id in attempted then 0.0 else 0.5
  {
  }

  /** The state that counts for a subject is the last one given for it. */
  ghost predicate LastFor(states: seq<SubjectState>, subject: string, i: nat) {
    i < |states| && states[i].subject == subject && forall j :: i < j < |states| ==> states[j].subject != subject
  }

  lemma {:induction false} StateOfMeans(states: seq<SubjectState>, subject: string)
    ensures StateOf(states, subject).None? <==> forall i :: 0 <= i < |states| ==> states[i].subject != subject
    ensures StateOf(states, subject).Some? ==>
      exists i: nat :: LastFor(states, subject, i) && StateOf(states, subject) == Some(states[i])
  {
    if states != [] {
      var n := |states| - 1;
      StateOfMeans(states[..n], subject);
      if states[n].subject == subject {
        assert LastFor(states, subject, n);
      } else {
        if StateOf(states, subject).Some? {
          var i: nat :| LastFor(states[..n], subject, i) && StateOf(states[..n], subject) == Some(states[..n][i]);
          assert LastFor(states, subject, i) && states[i] == states[..n][i];
        }
        forall i | 0 <= i < n ensures states[i] == states[..n][i] {}
      }
    }
  }

  /** Of items with the same id the first one given is kept. */
  lemma {:induction false} FirstItemsAreFirst(items: seq<Item>, x: Item)
    ensures x in FirstItems(items) <==>
            exists i :: 0 <= i < |items| && items[i] == x && forall j :: 0 <= j < i ==> items[j].id != x.id
  {
    if items != [] {
      var n := |items| - 1;
      FirstItemsAreFirst(items[..n], x);
      FirstItemsDistinct(items[..n]);
      assert forall i :: 0 <= i < n ==> items[..n][i] == items[i];
      if HasId(FirstItems(items[..n]), items[n].id) {
        var k :| 0 <= k < |FirstItems(items[..n])| && FirstItems(items[..n])[k].id == items[n].id;
        assert FirstItems(items[..n])[k] in items[..n];
      }
      if j :| 0 <= j < n && items[j].id == items[n].id { assert items[..n][j] in items[..n]; }
    }
  }

  // ---- The ranking ----

  ghost function PointsOf(states: seq<SubjectState>, attempted: set<string>, rnd: real -> int, x: Item): int {
    Points(x, StateOf(states, x.subject), attempted, rnd)
  }

  /** The ranking holds the items, those of more points first and equal ones by id. */
  lemma RankingFollowsPoints(states: seq<SubjectState>, items: seq<Item>, attempted: set<string>, rnd: real -> int,
                             i: nat, j: nat)
    requires i < j < |Ranked(states, items, attempted, rnd)|
    ensures var r := Ranked(states, items, attempted, rnd);
      var p, q := PointsOf(states, attempted, rnd, r[i]), PointsOf(states, attempted, rnd, r[j]);
      multiset(r) == multiset(items) && (p > q || (p == q && StrLe(r[i].id, r[j].id)))
  {
    hide Points, StateOf, StrLe;
    var r, key := Ranked(states, items, attempted, rnd), PointsKey(states, attempted, rnd);
    SortBySorts(items, key);
    StrTotal(r[i].id, r[j].id);
    assert KeyLe(key(r[i]), key(r[j]));
  }

  lemma NotAmong(front: seq<Item>, r: seq<Item>, j: nat)
    requires front <= r && j < |r| && r[j] !in front
    ensures j >= |front|
  {
  }

  /** Nothing left out has more points than anything recommended, or as many and a smaller id; and as many
      are recommended as asked for or available. */
  lemma NothingBetterIsLeftOut(states: seq<SubjectState>, items: seq<Item>, attempted: set<string>,
                               rnd: real -> int, n: nat, x: Item, y: Item)
    ensures var solve := Take(Ranked(states, items, attempted, rnd), n);
      var p, q := PointsOf(states, attempted, rnd, x), PointsOf(states, attempted, rnd, y);
      && |solve| == (if n < |items| then n else |items|)
      && (x in solve ==> x in items)
      && (x in solve && y in items && y !in solve ==> p > q || (p == q && StrLe(x.id, y.id)))
  {
    hide Points, StateOf, StrLe;
    var r := Ranked(states, items, attempted, rnd);
    SortBySorts(items, PointsKey(states, attempted, rnd));
    var solve := Take(r, n);
    assert solve == r[..|solve|];
    if x in solve && y in items && y !in solve {
      var i :| 0 <= i < |solve| && r[i] == x;
      var j :| 0 <= j < |r| && r[j] == y;
      NotAmong(solve, r, j);
      RankingFollowsPoints(states, items, attempted, rnd, i, j);
    }
  }

  // ---- Skips ----

  ghost predicate Stable(states: seq<SubjectState>, solve: seq<Item>, x: Item) {
    && StateOf(states, x.subject).Some? && StateOf(states, x.subject).value.accuracy >= 0.75
    && forall s :: s in solve ==> s.id != x.id
  }

  ghost predicate StablerFirst(states: seq<SubjectState>, x: Item, y: Item) {
    var s, t := StateOf(states, x.subject), StateOf(states, y.subject);
    && s.Some? && t.Some?
    && (s.value.accuracy > t.value.accuracy || (s.value.accuracy == t.value.accuracy && StrLe(x.id, y.id)))
  }

  lemma SkippableMeans(states: seq<SubjectState>, solve: seq<Item>, x: Item)
    ensures Skippable(states, solve, x) <==> Stable(states, solve, x)
  {
    if HasId(solve, x.id) {
      var i :| 0 <= i < |solve| && solve[i].id == x.id;
      assert solve[i] in solve;
    }
  }

  lemma SkipOrder(states: seq<SubjectState>, x: Item, y: Item)
    requires StateOf(states, x.subject).Some? && StateOf(states, y.subject).Some?
    requires KeyLe(SkipKey(states)(x), SkipKey(states)(y))
    ensures StablerFirst(states, x, y)
  {
    hide StrLe, StateOf;
    StrTotal(x.id, y.id);
  }

  /** Skipped are questions of subjects answered right in at least three of four cases that are not
      recommended, the most stable subject first and then by id; no such question goes unmentioned before
      the number asked for is reached, and none left out would have come earlier. */
  lemma SkipsInFigures(states: seq<SubjectState>, items: seq<Item>, solve: seq<Item>, n: nat)
    ensures var skips := Skips(states, items, solve, n);
      && |skips| <= n
      && (forall x :: x in skips ==> x in items && Stable(states, solve, x))
      && (forall i, j :: 0 <= i < j < |skips| ==> StablerFirst(states, skips[i], skips[j]))
      && (forall y :: y in items && Stable(states, solve, y) && y !in skips ==>
            |skips| == n && forall x :: x in skips ==> StablerFirst(states, x, y))
  {
    hide StateOf, KeyLe, SkipKey, StablerFirst;
    var skips, c, key := Skips(states, items, solve, n), SkipCandidates(states, items, solve), SkipKey(states);
    var sorted := SortBy(c, key);
    SortBySorts(c, key);
    assert skips == sorted[..|skips|];
    forall x ensures Skippable(states, solve, x) <==> Stable(states, solve, x) { SkippableMeans(states, solve, x); }
    forall i, j | 0 <= i < j < |skips| ensures StablerFirst(states, skips[i], skips[j]) {
      assert skips[i] in c && skips[j] in c && KeyLe(key(sorted[i]), key(sorted[j]));
      SkipOrder(states, skips[i], skips[j]);
    }
    forall y | y in items && Stable(states, solve, y) && y !in skips
      ensures |skips| == n && forall x :: x in skips ==> StablerFirst(states, x, y)
    {
      assert y in sorted && (|skips| == |sorted| ==> skips == sorted);
      forall x | x in skips ensures StablerFirst(states, x, y) {
        PrefixComesFirst(sorted, |skips|, key, x, y);
        assert Stable(states, solve, x) && Stable(states, solve, y);
        SkipOrder(states, x, y);
      }
    }
  }

  // ---- The order of a cold start ----

  lemma {:induction false} HeadsAscend(groups: seq<seq<Item>>, subjects: seq<string>, n: nat)
    requires Grouped(groups, subjects) && Ascending(subjects)
    ensures var h := Heads(groups, n);
      && (forall x :: x in h ==> x.subject in subjects)
      && (forall i, j :: 0 <= i < j < |h| ==> StrLt(h[i].subject, h[j].subject))
    decreases |groups|
  {
    hide StrLt;
    if groups != [] && n > 0 {
      var m := if groups[0] == [] then n else n - 1;
      GroupedRest(groups, subjects);
      HeadsAscend(groups[1..], subjects[1..], m);
      if groups[0] != [] {
        var rest := Heads(groups[1..], n - 1);
        forall j | 0 <= j < |rest| ensures StrLt(groups[0][0].subject, rest[j].subject) {
          assert rest[j] in rest;
          var k :| 0 <= k < |subjects| - 1 && subjects[1..][k] == rest[j].subject;
          assert StrLt(subjects[0], subjects[k + 1]);
        }
      }
    }
  }

  lemma {:induction false} RoundRobinSubjects(groups: seq<seq<Item>>, subjects: seq<string>, n: nat, x: Item)
    requires Grouped(groups, subjects) && Ascending(subjects) && x in RoundRobin(groups, n)
    ensures x.subject in subjects
    decreases Total(groups)
  {
    hide Heads, Tails, Ascending;
    TailsShrink(groups);
    HeadsAscend(groups, subjects, n);
    GroupedTails(groups, subjects);
    if x !in Heads(groups, n) { RoundRobinSubjects(Tails(groups), subjects, n - |Heads(groups, n)|, x); }
  }

  /** The round in which an entry was taken: how many of its subject were taken before. */
  function Round(entries: seq<Item>, i: nat): nat
    requires i < |entries|
  {
    |OfSubject(entries[..i], entries[i].subject)|
  }

  lemma NoneOf(s: seq<Item>, subject: string)
    requires forall x :: x in s ==> x.subject != subject
    ensures OfSubject(s, subject) == []
  {
    WhereNone(s, (x: Item) => x.subject == subject);
  }

  lemma RoundInHeads(groups: seq<seq<Item>>, subjects: seq<string>, n: nat, more: seq<Item>, i: nat)
    requires Grouped(groups, subjects) && Ascending(subjects) && i < |Heads(groups, n)|
    ensures Round(Heads(groups, n) + more, i) == 0
  {
    hide Heads, OfSubject, StrLe;
    var h := Heads(groups, n);
    HeadsAscend(groups, subjects, n);
    assert (h + more)[..i] == h[..i];
    NoneOf(h[..i], h[i].subject);
  }

  lemma RoundAfterHeads(groups: seq<seq<Item>>, subjects: seq<string>, n: nat, i: nat)
    requires Grouped(groups, subjects) && Ascending(subjects) && n > 0 && !AllEmpty(groups)
    requires |Heads(groups, n)| <= i < |RoundRobin(groups, n)|
    ensures var h := Heads(groups, n);
      var rest := RoundRobin(Tails(groups), n - |h|);
      RoundRobin(groups, n) == h + rest && Round(h + rest, i) == 1 + Round(rest, i - |h|)
  {
    hide Heads, OfSubject, Tails, Grouped, Ascending, RoundRobin, AllEmpty;
    OnePass(groups, n);
    var h := Heads(groups, n);
    var rest := RoundRobin(Tails(groups), n - |h|);
    var x := rest[i - |h|];
    assert (h + rest)[i] == x && x in rest && (h + rest)[..i] == h + rest[..i - |h|];
    GroupedTails(groups, subjects);
    RoundRobinSubjects(Tails(groups), subjects, n - |h|, x);
    var k :| 0 <= k < |subjects| && subjects[k] == x.subject;
    OfSubjectConcat(h, rest[..i - |h|], x.subject);
    OneOfEachLeft(groups, subjects, n, k, x);
  }

  lemma OneOfEachLeft(groups: seq<seq<Item>>, subjects: seq<string>, n: nat, k: nat, x: Item)
    requires Grouped(groups, subjects) && k < |subjects| && x.subject == subjects[k]
    requires x in RoundRobin(Tails(groups), n - |Heads(groups, n)|)
    ensures |OfSubject(Heads(groups, n), subjects[k])| == 1
  {
    hide Heads, OfSubject;
    var h := Heads(groups, n);
    HeadsOf(groups, subjects, n, k);
    GroupedTails(groups, subjects);
    RoundRobinTakesPrefixes(Tails(groups), subjects, n - |h|, k);
    OfSubjectMembers(RoundRobin(Tails(groups), n - |h|), subjects[k]);
    assert x in OfSubject(RoundRobin(Tails(groups), n - |h|), subjects[k]);
  }

  /** Entries come round by round, and within a round in ascending order of subjects. */
  lemma {:induction false} RoundByRound(groups: seq<seq<Item>>, subjects: seq<string>, n: nat, i: nat, j: nat)
    requires Grouped(groups, subjects) && Ascending(subjects) && i < j < |RoundRobin(groups, n)|
    ensures var e := RoundRobin(groups, n);
      Round(e, i) < Round(e, j) || (Round(e, i) == Round(e, j) && StrLt(e[i].subject, e[j].subject))
    decreases Total(groups)
  {
    hide Heads, Tails, Round, StrLt, Grouped, Ascending;
    var h := Heads(groups, n);
    var rest := RoundRobin(Tails(groups), n - |h|);
    TailsShrink(groups);
    GroupedTails(groups, subjects);
    OnePass(groups, n);
    if i < |h| { RoundInHeads(groups, subjects, n, rest, i); }
    if j < |h| {
      RoundInHeads(groups, subjects, n, rest, j);
      HeadsAscend(groups, subjects, n);
    } else {
      RoundAfterHeads(groups, subjects, n, j);
      if i >= |h| {
        RoundAfterHeads(groups, subjects, n, i);
        RoundByRound(Tails(groups), subjects, n - |h|, i - |h|, j - |h|);
      }
    }
  }

  /** An entry of round `k` is the `k`-th of its subject among the entries. */
  lemma RoundIsPosition(e: seq<Item>, i: nat)
    requires i < |e|
    ensures Round(e, i) < |OfSubject(e, e[i].subject)| && OfSubject(e, e[i].subject)[Round(e, i)] == e[i]
  {
    hide OfSubject;
    var s := e[i].subject;
    assert e == e[..i] + ([e[i]] + e[i + 1..]);
    OfSubjectConcat(e[..i], [e[i]] + e[i + 1..], s);
    OfSubjectConcat([e[i]], e[i + 1..], s);
    OfSubjectOne(e[i], s);
  }

  lemma {:induction false} WhereSorted(s: seq<Item>, p: Item -> bool, key: Item -> Key)
    requires Sorted(s, key)
    ensures Sorted(Where(s, p), key)
  {
    hide KeyLe;
    if s != [] {
      var n := |s| - 1;
      WhereSorted(s[..n], p, key);
      WhereMembers(s[..n], p);
      var front := Where(s[..n], p);
      forall a | 0 <= a < |front| ensures KeyLe(key(front[a]), key(s[n])) {
        assert front[a] in front;
        var b :| 0 <= b < n && s[..n][b] == front[a];
      }
    }
  }

  /** The items of a subject, by id. */
  lemma GroupIsSorted(items: seq<Item>, subject: string)
    ensures var mine := OfSubject(SortBy(items, IdKey()), subject);
      && (forall x :: x in mine <==> x in items && x.subject == subject)
      && (forall a, b :: 0 <= a < b < |mine| ==> StrLe(mine[a].id, mine[b].id))
  {
    hide StrLe;
    var sorted := SortBy(items, IdKey());
    SortBySorts(items, IdKey());
    OfSubjectMembers(sorted, subject);
    WhereSorted(sorted, (x: Item) => x.subject == subject, IdKey());
    var mine := OfSubject(sorted, subject);
    forall a, b | 0 <= a < b < |mine| ensures StrLe(mine[a].id, mine[b].id) {
      StrTotal(mine[a].id, mine[b].id);
      assert KeyLe(IdKey()(mine[a]), IdKey()(mine[b]));
    }
  }

  /** The order of a cold start: round by round, the subjects of a round in ascending order, and in each
      round the next item of a subject by id. */
  lemma ColdStartOrder(items: seq<Item>, n: nat, entries: seq<Item>, i: nat, j: nat)
    requires ColdStart(items, n, entries) && i <= j < |entries|
    ensures i < j ==>
      || Round(entries, i) < Round(entries, j)
      || (Round(entries, i) == Round(entries, j) && StrLt(entries[i].subject, entries[j].subject))
    ensures exists mine: seq<Item> ::
      && (forall x :: x in mine <==> x in items && x.subject == entries[i].subject)
      && (forall a, b :: 0 <= a < b < |mine| ==> StrLe(mine[a].id, mine[b].id))
      && Round(entries, i) < |mine| && entries[i] == mine[Round(entries, i)]
  {
    hide Heads, RoundRobin, Round, StrLe, Total, OfSubject;
    var subjects :| IsSubjectList(items, subjects) && entries == RoundRobin(GroupsOf(items, subjects), n);
    var groups := GroupsOf(items, subjects);
    GroupsAreGrouped(items, subjects);
    if i < j { RoundByRound(groups, subjects, n, i, j); }
    RoundIsPosition(entries, i);
    RoundRobinSubjects(groups, subjects, n, entries[i]);
    assert entries[i].subject in SubjectsIn(items);
    ColdStartShape(items, n, entries);
    var mine := OfSubject(SortBy(items, IdKey()), entries[i].subject);
    GroupIsSorted(items, entries[i].subject);
    assert Round(entries, i) < |mine| && entries[i] == mine[Round(entries, i)];
  }
}
