/** Problem recommendation: weighted scores with the fail-risk subjects first, and a balanced
    round robin over the subjects while nothing is known about the user. */
module Recommend {
  import opened Filters
  import opened Order
  import opened Rounding
  import opened Text
  import opened Wrappers

  datatype Item = Item(id: string, subject: string, tags: seq<string>, seconds: Option<real>)

  datatype Mastery = Mastery(concept: string, mastery: real)

  datatype SubjectState = SubjectState(subject: string, accuracy: real, concepts: seq<Mastery>, timePressure: bool)

  const FAIL_RISK_ACCURACY := 0.40
  const STABLE_ACCURACY := 0.75
  const WEAK_CONCEPT_MASTERY := 0.50
  const NEUTRAL_ACCURACY := 0.50
  const SHORT_PROBLEM_SECONDS := 90.0
  const WEIGHT_SUBJECT_WEAKNESS := 1.0
  const WEIGHT_FAIL_RISK_BONUS := 1.5
  const WEIGHT_WEAK_CONCEPT_MATCH := 0.8
  const WEIGHT_TIME_FIT := 0.2
  const PENALTY_ATTEMPTED := 0.5

  // ---- Scores ----

  predicate Touches(concept: string, tags: seq<string>) {
    exists k :: 0 <= k < |tags| && (Contains(tags[k], concept) || Contains(concept, tags[k]))
  }

  predicate WeakIn(m: Mastery, tags: seq<string>) {
    m.mastery < WEAK_CONCEPT_MASTERY && Touches(m.concept, tags)
  }

  /** Does the item practise a concept the user is weak in? Counted once, however many match. */
  predicate WeakMatch(state: Option<SubjectState>, tags: seq<string>) {
    state.Some? && exists i :: 0 <= i < |state.value.concepts| && WeakIn(state.value.concepts[i], tags)
  }

  predicate FailRisk(state: Option<SubjectState>) {
    state.Some? && state.value.accuracy < FAIL_RISK_ACCURACY
  }

  predicate TimeFit(state: Option<SubjectState>, item: Item) {
    state.Some? && state.value.timePressure && item.seconds.Some? && item.seconds.value <= SHORT_PROBLEM_SECONDS
  }

  function Clamp(a: real): real {
    if a < 0.0 then 0.0 else if a > 1.0 then 1.0 else a
  }

  function Score(item: Item, state: Option<SubjectState>, attempted: set<string>): real {
    WEIGHT_SUBJECT_WEAKNESS * (1.0 - Clamp(if state.None? then NEUTRAL_ACCURACY else state.value.accuracy))
    + (if FailRisk(state) then WEIGHT_FAIL_RISK_BONUS else 0.0)
    + (if WeakMatch(state, item.tags) then WEIGHT_WEAK_CONCEPT_MATCH else 0.0)
    - (if item.id in attempted then PENALTY_ATTEMPTED else 0.0)
    + (if TimeFit(state, item) then WEIGHT_TIME_FIT else 0.0)
  }

  function Points(item: Item, state: Option<SubjectState>, attempted: set<string>, rnd: real -> int): int {
    rnd(10000.0 * Score(item, state, attempted))
  }

  method MatchesWeakConcept(state: Option<SubjectState>, tags: seq<string>) returns (matched: bool)
    ensures matched == WeakMatch(state, tags)
  {
    matched := false;
    if state.None? { return; }
    var concepts := state.value.concepts;
    for i := 0 to |concepts|
      invariant matched <==> exists k :: 0 <= k < i && WeakIn(concepts[k], tags)
    {
      if concepts[i].mastery < WEAK_CONCEPT_MASTERY {
        for t := 0 to |tags|
          invariant forall k :: 0 <= k < t ==>
            !Contains(tags[k], concepts[i].concept) && !Contains(concepts[i].concept, tags[k])
        {
          if Contains(tags[t], concepts[i].concept) || Contains(concepts[i].concept, tags[t]) {
            matched := true;
            break;
          }
        }
      }
    }
  }

  method ScoreItem(item: Item, state: Option<SubjectState>, attempted: set<string>, rnd: real -> int)
    returns (points: int)
    ensures points == Points(item, state, attempted, rnd)
  {
    var accuracy := if state.None? then NEUTRAL_ACCURACY else state.value.accuracy;
    var score := WEIGHT_SUBJECT_WEAKNESS * (1.0 - Clamp(accuracy));
    if state.Some? && accuracy < FAIL_RISK_ACCURACY { score := score + WEIGHT_FAIL_RISK_BONUS; }
    var matched := MatchesWeakConcept(state, item.tags);
    if matched { score := score + WEIGHT_WEAK_CONCEPT_MATCH; }
    if item.id in attempted { score := score - PENALTY_ATTEMPTED; }
    if state.Some? && state.value.timePressure && item.seconds.Some? && item.seconds.value <= SHORT_PROBLEM_SECONDS {
      score := score + WEIGHT_TIME_FIT;
    }
    points := rnd(10000.0 * score);
  }

  /** The invariant the weights were chosen for: without regard to attempts, more than 2.1 for every
      fail-risk question and at most 1.6 for every other one. */
  lemma ScoreGap(item: Item, state: Option<SubjectState>, attempted: set<string>)
    ensures var s := Score(item, state, attempted) + (if item.id in attempted then PENALTY_ATTEMPTED else 0.0);
      if FailRisk(state) then s > 2.1 else s <= 1.6
  {
  }

  /** Fail-risk first, rounding included: half a point ahead unless the fail-risk question alone was
      attempted, and not behind even then. `FailRiskTiesIff` says when it is still ahead. */
  lemma FailRiskOutscores(a: Item, sa: Option<SubjectState>, b: Item, sb: Option<SubjectState>,
                          attempted: set<string>, rnd: real -> int)
    requires Nearest(rnd) && FailRisk(sa) && !FailRisk(sb)
    ensures (a.id in attempted ==> b.id in attempted) ==>
      Points(a, sa, attempted, rnd) >= Points(b, sb, attempted, rnd) + 5000
    ensures Points(a, sa, attempted, rnd) >= 16000 >= Points(b, sb, attempted, rnd)
         || Points(a, sa, attempted, rnd) >= Points(b, sb, attempted, rnd) + 5000
  {
    ScoreGap(a, sa, attempted);
    ScoreGap(b, sb, attempted);
  }

  /** A fail-risk question with nothing in its favour but its subject, hardly below the fail line: once
      attempted it is rounded down to 1.6. The edge itself goes as the rounding takes 16000.5. */
  ghost predicate HardlyFailing(item: Item, state: Option<SubjectState>, rnd: real -> int)
    requires FailRisk(state)
  {
    && !WeakMatch(state, item.tags) && !TimeFit(state, item)
    && (state.value.accuracy > 0.39995 || (state.value.accuracy == 0.39995 && rnd(16000.5) == 16000))
  }

  /** Any other question with everything in its favour, hardly above the fail line: it is rounded up to 1.6. */
  ghost predicate HardlySafe(item: Item, state: Option<SubjectState>, rnd: real -> int) {
    && WeakMatch(state, item.tags) && TimeFit(state, item)
    && (state.value.accuracy < 0.40005 || (state.value.accuracy == 0.40005 && rnd(15999.5) == 16000))
  }

  lemma HardlyFailingScores(a: Item, sa: Option<SubjectState>, attempted: set<string>, rnd: real -> int)
    requires Nearest(rnd) && FailRisk(sa) && a.id in attempted
    ensures Points(a, sa, attempted, rnd) >= 16000
    ensures Points(a, sa, attempted, rnd) == 16000 <==> HardlyFailing(a, sa, rnd)
  {
    hide WeakMatch, TimeFit;
    ScoreGap(a, sa, attempted);
    var x := 10000.0 * Score(a, sa, attempted);
    assert x - 0.5 <= rnd(x) as real <= x + 0.5;
    if !WeakMatch(sa, a.tags) && !TimeFit(sa, a) && sa.value.accuracy >= 0.0 {
      assert x == 20000.0 - 10000.0 * sa.value.accuracy;
    }
  }

  lemma HardlySafeScores(b: Item, sb: Option<SubjectState>, attempted: set<string>, rnd: real -> int)
    requires Nearest(rnd) && !FailRisk(sb) && b.id !in attempted
    ensures Points(b, sb, attempted, rnd) <= 16000
    ensures Points(b, sb, attempted, rnd) == 16000 <==> HardlySafe(b, sb, rnd)
  {
    hide WeakMatch;
    ScoreGap(b, sb, attempted);
    var x := 10000.0 * Score(b, sb, attempted);
    assert x - 0.5 <= rnd(x) as real <= x + 0.5;
    if WeakMatch(sb, b.tags) && TimeFit(sb, b) && sb.value.accuracy <= 1.0 {
      assert x == 20000.0 - 10000.0 * sb.value.accuracy;
    }
  }

  /** When an attempted fail-risk question is no longer ahead of an untried other one: exactly when the
      first is hardly failing and the second hardly safe, and then they tie. */
  lemma FailRiskTiesIff(a: Item, sa: Option<SubjectState>, b: Item, sb: Option<SubjectState>,
                        attempted: set<string>, rnd: real -> int)
    requires Nearest(rnd) && FailRisk(sa) && !FailRisk(sb)
    requires a.id in attempted && b.id !in attempted
    ensures if HardlyFailing(a, sa, rnd) && HardlySafe(b, sb, rnd)
      then Points(a, sa, attempted, rnd) == Points(b, sb, attempted, rnd)
      else Points(a, sa, attempted, rnd) > Points(b, sb, attempted, rnd)
  {
    hide HardlyFailing, HardlySafe;
    HardlyFailingScores(a, sa, attempted, rnd);
    HardlySafeScores(b, sb, attempted, rnd);
  }

  /** The other signals pull the way they should: an attempt costs half a point, and of two users who
      differ in accuracy alone the weaker one gets at least as many points. */
  lemma SignalsPullRight(a: Item, b: Item, s: SubjectState, t: SubjectState, attempted: set<string>, rnd: real -> int)
    requires Nearest(rnd) && a == b.(id := a.id)
    ensures a.id in attempted && b.id !in attempted ==>
      4999 <= Points(b, Some(s), attempted, rnd) - Points(a, Some(s), attempted, rnd) <= 5001
    ensures t == s.(accuracy := t.accuracy) && t.accuracy <= s.accuracy ==>
      Points(a, Some(t), attempted, rnd) >= Points(a, Some(s), attempted, rnd)
  {
    if t == s.(accuracy := t.accuracy) && t.accuracy <= s.accuracy {
      assert WeakMatch(Some(t), a.tags) == WeakMatch(Some(s), a.tags);
      NearestMonotone(rnd, 10000.0 * Score(a, Some(s), attempted), 10000.0 * Score(a, Some(t), attempted));
    }
  }

  /** Such ties exist, whatever the rounding. */
  lemma AttemptedFailRiskMayTie(rnd: real -> int)
    requires Nearest(rnd)
    ensures var weak := Mastery("c", 0.0);
      var sa := Some(SubjectState("a", 0.399999, [], false));
      var sb := Some(SubjectState("b", 0.4, [weak], true));
      Points(Item("1", "a", [], None), sa, {"1"}, rnd) == Points(Item("2", "b", ["c"], Some(60.0)), sb, {"1"}, rnd)
  {
    var weak := Mastery("c", 0.0);
    var sb := Some(SubjectState("b", 0.4, [weak], true));
    assert "c"[0..1] == "c" && OccursAt("c", "c", 0);
    assert Contains(["c"][0], "c");
    assert Touches("c", ["c"]);
    assert [weak][0] == weak && WeakIn(weak, ["c"]);
    assert WeakMatch(sb, ["c"]);
  }

  // ---- Ranking ----

  predicate HasId(items: seq<Item>, id: string) {
    exists i :: 0 <= i < |items| && items[i].id == id
  }

  /** The first item of each id. */
  function FirstItems(items: seq<Item>): seq<Item> {
    if items == [] then []
    else
      var front, last := FirstItems(items[..|items| - 1]), items[|items| - 1];
      if HasId(front, last.id) then front else front + [last]
  }

  lemma HasIdAppend(items: seq<Item>, x: Item, id: string)
    ensures HasId(items + [x], id) <==> HasId(items, id) || x.id == id
  {
    assert (items + [x])[|items|] == x;
    if HasId(items, id) {
      var i :| 0 <= i < |items| && items[i].id == id;
      assert (items + [x])[i].id == id;
    }
  }

  ghost predicate DistinctIds(items: seq<Item>) {
    forall i, j :: 0 <= i < j < |items| ==> items[i].id != items[j].id
  }

  lemma {:induction false} FirstItemsDistinct(items: seq<Item>)
    ensures DistinctIds(FirstItems(items))
    ensures forall x :: x in FirstItems(items) ==> x in items
    ensures forall x :: x in items ==> HasId(FirstItems(items), x.id)
  {
    if items != [] {
      var n := |items| - 1;
      FirstItemsDistinct(items[..n]);
      assert items == items[..n] + [items[n]];
      forall id
        ensures HasId(FirstItems(items[..n]) + [items[n]], id)
           <==> HasId(FirstItems(items[..n]), id) || items[n].id == id
      {
        HasIdAppend(FirstItems(items[..n]), items[n], id);
      }
    }
  }

  method UniqueItems(items: seq<Item>) returns (unique: seq<Item>)
    ensures unique == FirstItems(items)
  {
    unique := [];
    var seen: set<string> := {};
    for k := 0 to |items|
      invariant unique == FirstItems(items[..k])
      invariant forall id :: id in seen <==> HasId(unique, id)
    {
      assert items[..k + 1][..k] == items[..k];
      if items[k].id in seen { continue; }
      seen := seen + {items[k].id};
      forall id ensures HasId(unique + [items[k]], id) <==> HasId(unique, id) || items[k].id == id {
        HasIdAppend(unique, items[k], id);
      }
      unique := unique + [items[k]];
    }
    assert items[..|items|] == items;
  }

  /** The state of a subject; the last one given wins. */
  function StateOf(states: seq<SubjectState>, subject: string): Option<SubjectState> {
    if states == [] then None
    else if states[|states| - 1].subject == subject then Some(states[|states| - 1])
    else StateOf(states[..|states| - 1], subject)
  }

  method IndexStates(states: seq<SubjectState>) returns (index: map<string, SubjectState>)
    ensures forall s :: StateOf(states, s) == if s in index then Some(index[s]) else None
  {
    index := map[];
    for k := 0 to |states|
      invariant forall s :: StateOf(states[..k], s) == if s in index then Some(index[s]) else None
    {
      assert states[..k + 1][..k] == states[..k];
      index := index[states[k].subject := states[k]];
    }
    assert states[..|states|] == states;
  }

  function PointsKey(states: seq<SubjectState>, attempted: set<string>, rnd: real -> int): Item -> Key {
    (x: Item) => Key(-Points(x, StateOf(states, x.subject), attempted, rnd), 0, x.id)
  }

  /** Highest points first, equal points by id. */
  function Ranked(states: seq<SubjectState>, items: seq<Item>, attempted: set<string>, rnd: real -> int): seq<Item> {
    SortBy(items, PointsKey(states, attempted, rnd))
  }

  /** In the ranking every fail-risk question stands before every other of equal attempt status. */
  lemma FailRiskRanksFirst(states: seq<SubjectState>, items: seq<Item>, attempted: set<string>, rnd: real -> int,
                           i: nat, j: nat)
    requires Nearest(rnd)
    requires var r := Ranked(states, items, attempted, rnd);
      && i < |r| && j < |r| && FailRisk(StateOf(states, r[i].subject)) && !FailRisk(StateOf(states, r[j].subject))
      && (r[i].id in attempted <==> r[j].id in attempted)
    ensures i < j
  {
    hide Score, StateOf, FailRisk, Points;
    var r, key := Ranked(states, items, attempted, rnd), PointsKey(states, attempted, rnd);
    SortBySorts(items, key);
    FailRiskOutscores(r[i], StateOf(states, r[i].subject), r[j], StateOf(states, r[j].subject), attempted, rnd);
    assert j < i ==> KeyLe(key(r[j]), key(r[i]));
  }

  /** At unequal attempt status too a fail-risk question comes first, unless it alone was attempted,
      the two tie at the fail line, and the other one has the smaller id. */
  lemma FailRiskRanksFirstIff(states: seq<SubjectState>, items: seq<Item>, attempted: set<string>, rnd: real -> int,
                              i: nat, j: nat)
    requires Nearest(rnd)
    requires var r := Ranked(states, items, attempted, rnd);
      && i < |r| && j < |r| && FailRisk(StateOf(states, r[i].subject)) && !FailRisk(StateOf(states, r[j].subject))
      && r[i].id != r[j].id
    ensures var r := Ranked(states, items, attempted, rnd);
      var sa, sb := StateOf(states, r[i].subject), StateOf(states, r[j].subject);
      i < j <==> !(r[i].id in attempted && r[j].id !in attempted
                   && HardlyFailing(r[i], sa, rnd) && HardlySafe(r[j], sb, rnd) && StrLe(r[j].id, r[i].id))
  {
    hide Score, StateOf, FailRisk, Points, HardlyFailing, HardlySafe;
    var r, key := Ranked(states, items, attempted, rnd), PointsKey(states, attempted, rnd);
    var sa, sb := StateOf(states, r[i].subject), StateOf(states, r[j].subject);
    SortBySorts(items, key);
    FailRiskOutscores(r[i], sa, r[j], sb, attempted, rnd);
    if r[i].id in attempted && r[j].id !in attempted { FailRiskTiesIff(r[i], sa, r[j], sb, attempted, rnd); }
    assert i < j ==> KeyLe(key(r[i]), key(r[j]));
    assert j < i ==> KeyLe(key(r[j]), key(r[i]));
    KeyOrder(key(r[i]), key(r[j]));
  }

  /** Hence no other question is recommended while a fail-risk question of its attempt status is left out. */
  lemma FailRiskChosenFirst(states: seq<SubjectState>, items: seq<Item>, attempted: set<string>, rnd: real -> int,
                            n: nat, a: Item, b: Item)
    requires Nearest(rnd) && a in items && FailRisk(StateOf(states, a.subject))
    requires b in Take(Ranked(states, items, attempted, rnd), n) && !FailRisk(StateOf(states, b.subject))
    requires a.id in attempted <==> b.id in attempted
    ensures a in Take(Ranked(states, items, attempted, rnd), n)
  {
    var r := Ranked(states, items, attempted, rnd);
    SortBySorts(items, PointsKey(states, attempted, rnd));
    assert a in r;
    var i :| 0 <= i < |r| && r[i] == a;
    var t := Take(r, n);
    var j :| 0 <= j < |t| && t[j] == b;
    FailRiskRanksFirst(states, items, attempted, rnd, i, j);
    assert t[i] == a;
  }

  // ---- What to skip ----

  predicate Skippable(states: seq<SubjectState>, solve: seq<Item>, x: Item) {
    var st := StateOf(states, x.subject);
    st.Some? && st.value.accuracy >= STABLE_ACCURACY && !HasId(solve, x.id)
  }

  function SkipCandidates(states: seq<SubjectState>, items: seq<Item>, solve: seq<Item>): (c: seq<Item>)
    ensures forall x :: x in c <==> x in items && Skippable(states, solve, x)
  {
    if items == [] then []
    else
      var last := items[|items| - 1];
      SkipCandidates(states, items[..|items| - 1], solve) + if Skippable(states, solve, last) then [last] else []
  }

  /** The most stable subjects first, then by id. */
  function SkipKey(states: seq<SubjectState>): Item -> Key {
    (x: Item) =>
      var st := StateOf(states, x.subject);
      Key(0, 0, x.id, lead := if st.Some? then -st.value.accuracy else 0.0)
  }

  function Skips(states: seq<SubjectState>, items: seq<Item>, solve: seq<Item>, n: nat): seq<Item> {
    Take(SortBy(SkipCandidates(states, items, solve), SkipKey(states)), n)
  }

  /** As many skips as asked for or available; only stable subjects, never something recommended, and
      none passed over was more stable. */
  lemma SkipsAreStable(states: seq<SubjectState>, items: seq<Item>, solve: seq<Item>, n: nat, x: Item, y: Item)
    ensures var skips, candidates := Skips(states, items, solve, n), SkipCandidates(states, items, solve);
      |skips| == if n < |candidates| then n else |candidates|
    ensures x in Skips(states, items, solve, n) ==>
      x in items && Skippable(states, solve, x) && !FailRisk(StateOf(states, x.subject))
    ensures var skips := Skips(states, items, solve, n);
      (x in skips && y in items && Skippable(states, solve, y) && y !in skips) ==>
      StateOf(states, y.subject).value.accuracy <= StateOf(states, x.subject).value.accuracy
  {
    var c := SkipCandidates(states, items, solve);
    var key := SkipKey(states);
    var sorted := SortBy(c, key);
    SortBySorts(c, key);
    var t := Take(sorted, n);
    assert t == sorted[..|t|];
    if x in t {
      assert x in sorted;
      if y in items && Skippable(states, solve, y) && y !in t { PrefixComesFirst(sorted, |t|, key, x, y); }
    }
  }

  // ---- Cold start: round robin over the subjects ----

  function IdKey(): Item -> Key {
    (x: Item) => Key(0, 0, x.id)
  }

  function OfSubject(items: seq<Item>, subject: string): seq<Item> {
    Where(items, (x: Item) => x.subject == subject)
  }

  /** One pass: the next item of every subject that has one, until `n` are taken. */
  function Heads(groups: seq<seq<Item>>, n: nat): (h: seq<Item>)
    ensures |h| <= n
    decreases |groups|
  {
    if groups == [] || n == 0 then []
    else if groups[0] == [] then Heads(groups[1..], n)
    else [groups[0][0]] + Heads(groups[1..], n - 1)
  }

  function Tail(g: seq<Item>): seq<Item> {
    if g == [] then [] else g[1..]
  }

  function Tails(groups: seq<seq<Item>>): (t: seq<seq<Item>>)
    ensures |t| == |groups|
  {
    seq(|groups|, k requires 0 <= k < |groups| => Tail(groups[k]))
  }

  predicate AllEmpty(groups: seq<seq<Item>>) {
    forall k :: 0 <= k < |groups| ==> groups[k] == []
  }

  function Total(groups: seq<seq<Item>>): nat {
    if groups == [] then 0 else |groups[0]| + Total(groups[1..])
  }

  lemma {:induction false} TailsShrink(groups: seq<seq<Item>>)
    ensures Total(Tails(groups)) <= Total(groups)
    ensures !AllEmpty(groups) ==> Total(Tails(groups)) < Total(groups)
    ensures AllEmpty(groups) ==> Total(groups) == 0
  {
    if groups != [] {
      TailsShrink(groups[1..]);
      assert Tails(groups)[1..] == Tails(groups[1..]);
    }
  }

  /** Pass after pass until `n` items are taken or nothing is left. */
  function RoundRobin(groups: seq<seq<Item>>, n: nat): seq<Item>
    decreases Total(groups)
  {
    if n == 0 || AllEmpty(groups) then []
    else
      TailsShrink(groups);
      Heads(groups, n) + RoundRobin(Tails(groups), n - |Heads(groups, n)|)
  }

  /** The subjects in order, and each one's items in order of id. */
  function GroupsOf(items: seq<Item>, subjects: seq<string>): (g: seq<seq<Item>>)
    ensures |g| == |subjects|
  {
    seq(|subjects|, k requires 0 <= k < |subjects| => OfSubject(SortBy(items, IdKey()), subjects[k]))
  }

  lemma {:induction false} HeadsLength(groups: seq<seq<Item>>, n: nat)
    ensures |Heads(groups, n)| < n ==> |Heads(groups, n)| + Total(Tails(groups)) == Total(groups)
    ensures |Heads(groups, n)| <= Total(groups)
    decreases |groups|
  {
    if groups != [] && n > 0 {
      assert Tails(groups)[1..] == Tails(groups[1..]);
      HeadsLength(groups[1..], if groups[0] == [] then n else n - 1);
    }
  }

  /** Exactly as many entries as asked for, or as there are items. */
  lemma {:induction false} RoundRobinLength(groups: seq<seq<Item>>, n: nat)
    ensures |RoundRobin(groups, n)| == if n < Total(groups) then n else Total(groups)
    decreases Total(groups)
  {
    TailsShrink(groups);
    if n > 0 && !AllEmpty(groups) {
      HeadsLength(groups, n);
      RoundRobinLength(Tails(groups), n - |Heads(groups, n)|);
    }
  }

  /** Group `k` holds only items of the `k`-th subject, and the subjects differ. */
  ghost predicate Grouped(groups: seq<seq<Item>>, subjects: seq<string>) {
    && |groups| == |subjects| && Distinct(subjects)
    && forall k, x :: 0 <= k < |groups| && x in groups[k] ==> x.subject == subjects[k]
  }

  lemma OfSubjectConcat(s: seq<Item>, t: seq<Item>, subject: string)
    ensures OfSubject(s + t, subject) == OfSubject(s, subject) + OfSubject(t, subject)
  {
    WhereConcat(s, t, (x: Item) => x.subject == subject);
  }

  lemma OfSubjectOne(x: Item, subject: string)
    ensures OfSubject([x], subject) == if x.subject == subject then [x] else []
  {
    OfSubjectAppend([], x, subject);
    assert [] + [x] == [x];
  }

  lemma OfSubjectAppend(s: seq<Item>, x: Item, subject: string)
    ensures OfSubject(s + [x], subject) == OfSubject(s, subject) + if x.subject == subject then [x] else []
  {
    WhereAppend(s, x, (x: Item) => x.subject == subject);
  }

  /** How the first group takes part in a pass. */
  lemma HeadsStep(groups: seq<seq<Item>>, n: nat, s: string)
    requires groups != [] && n > 0
    ensures var rest := Heads(groups[1..], if groups[0] == [] then n else n - 1);
      OfSubject(Heads(groups, n), s) ==
      (if groups[0] != [] && groups[0][0].subject == s then [groups[0][0]] else []) + OfSubject(rest, s)
  {
    hide OfSubject;
    if groups[0] != [] {
      OfSubjectConcat([groups[0][0]], Heads(groups[1..], n - 1), s);
      OfSubjectOne(groups[0][0], s);
    }
  }

  lemma GroupedRest(groups: seq<seq<Item>>, subjects: seq<string>)
    requires Grouped(groups, subjects) && groups != []
    ensures Grouped(groups[1..], subjects[1..])
    ensures groups[0] != [] ==> groups[0][0].subject == subjects[0]
    ensures subjects[0] !in subjects[1..]
  {
    if groups[0] != [] { assert groups[0][0] in groups[0]; }
  }

  lemma {:induction false} HeadsOfStranger(groups: seq<seq<Item>>, subjects: seq<string>, n: nat, s: string)
    requires Grouped(groups, subjects) && s !in subjects
    ensures OfSubject(Heads(groups, n), s) == []
    decreases |groups|
  {
    hide OfSubject, Grouped;
    if groups == [] || n == 0 {
      NothingOf(s);
    } else {
      HeadsStep(groups, n, s);
      GroupedRest(groups, subjects);
      assert subjects == [subjects[0]] + subjects[1..] by { GroupedLengths(groups, subjects); }
      HeadsOfStranger(groups[1..], subjects[1..], if groups[0] == [] then n else n - 1, s);
    }
  }

  lemma GroupedLengths(groups: seq<seq<Item>>, subjects: seq<string>)
    requires Grouped(groups, subjects)
    ensures |groups| == |subjects|
  {
  }

  lemma NothingOf(subject: string)
    ensures OfSubject([], subject) == []
  {
  }

  /** In one pass a subject gives its next item or nothing; nothing only if it has none, or the quota is met. */
  lemma {:induction false} HeadsOf(groups: seq<seq<Item>>, subjects: seq<string>, n: nat, k: nat)
    requires Grouped(groups, subjects) && k < |groups|
    ensures var mine := OfSubject(Heads(groups, n), subjects[k]);
      || (groups[k] != [] && mine == [groups[k][0]])
      || (mine == [] && (groups[k] == [] || |Heads(groups, n)| == n))
    decreases |groups|
  {
    hide OfSubject, Grouped;
    GroupedLengths(groups, subjects);
    if n == 0 {
      NothingOf(subjects[k]);
    } else {
      var m := if groups[0] == [] then n else n - 1;
      HeadsStep(groups, n, subjects[k]);
      GroupedRest(groups, subjects);
      if k == 0 {
        HeadsOfStranger(groups[1..], subjects[1..], m, subjects[0]);
      } else {
        HeadsOf(groups[1..], subjects[1..], m, k - 1);
        assert subjects[k] == subjects[1..][k - 1] && subjects[k] in subjects[1..];
      }
    }
  }

  lemma GroupedTails(groups: seq<seq<Item>>, subjects: seq<string>)
    requires Grouped(groups, subjects)
    ensures Grouped(Tails(groups), subjects)
  {
  }

  /** How many items the round robin takes from group `k`. */
  ghost function Taken(groups: seq<seq<Item>>, subjects: seq<string>, n: nat, k: nat): nat
    requires k < |subjects|
  {
    |OfSubject(RoundRobin(groups, n), subjects[k])|
  }

  /** One pass, seen from one subject. */
  lemma PassOf(groups: seq<seq<Item>>, subjects: seq<string>, n: nat, k: nat)
    requires Grouped(groups, subjects) && k < |groups| && n > 0 && !AllEmpty(groups)
    ensures Total(Tails(groups)) < Total(groups) && Grouped(Tails(groups), subjects)
    ensures var h := Heads(groups, n);
      var rest := OfSubject(RoundRobin(Tails(groups), n - |h|), subjects[k]);
      var mine := OfSubject(RoundRobin(groups, n), subjects[k]);
      && (|h| == n ==> rest == [])
      && ((groups[k] != [] && mine == [groups[k][0]] + rest) || (mine == rest && (groups[k] == [] || |h| == n)))
  {
    hide Heads, Tails, Grouped, OfSubject;
    var h := Heads(groups, n);
    TailsShrink(groups);
    GroupedTails(groups, subjects);
    OfSubjectConcat(h, RoundRobin(Tails(groups), n - |h|), subjects[k]);
    HeadsOf(groups, subjects, n, k);
    if |h| == n { NothingOf(subjects[k]); }
  }

  /** What is taken from a subject is a prefix of its items, in their order. */
  lemma {:induction false} RoundRobinTakesPrefixes(groups: seq<seq<Item>>, subjects: seq<string>, n: nat, k: nat)
    requires Grouped(groups, subjects) && k < |groups|
    ensures OfSubject(RoundRobin(groups, n), subjects[k]) <= groups[k]
    decreases Total(groups)
  {
    hide Heads, OfSubject;
    if n == 0 || AllEmpty(groups) {
      NothingOf(subjects[k]);
    } else {
      PassOf(groups, subjects, n, k);
      RoundRobinTakesPrefixes(Tails(groups), subjects, n - |Heads(groups, n)|, k);
      assert Tails(groups)[k] == Tail(groups[k]);
    }
  }

  /** No subject gets more than one item ahead of another that still has items to give. */
  lemma {:induction false} RoundRobinIsBalanced(groups: seq<seq<Item>>, subjects: seq<string>, n: nat, j: nat, k: nat)
    requires Grouped(groups, subjects) && j < |groups| && k < |groups|
    ensures Taken(groups, subjects, n, j) <= Taken(groups, subjects, n, k) + 1
         || Taken(groups, subjects, n, k) == |groups[k]|
    decreases Total(groups)
  {
    hide Heads, OfSubject;
    if n == 0 || AllEmpty(groups) {
      NothingOf(subjects[j]);
    } else {
      PassOf(groups, subjects, n, j);
      PassOf(groups, subjects, n, k);
      RoundRobinIsBalanced(Tails(groups), subjects, n - |Heads(groups, n)|, j, k);
      RoundRobinTakesPrefixes(Tails(groups), subjects, n - |Heads(groups, n)|, k);
      assert Tails(groups)[k] == Tail(groups[k]);
    }
  }

  // ---- The cold-start recommendation ----

  function SubjectsIn(items: seq<Item>): (s: set<string>) {
    set x | x in items :: x.subject
  }

  ghost predicate Ascending(s: seq<string>) {
    forall i, j :: 0 <= i < j < |s| ==> StrLt(s[i], s[j])
  }

  function Self(): string -> Key {
    s => Key(0, 0, s)
  }

  /** A set of names in ascending order. */
  method SortedNames(names: set<string>) returns (s: seq<string>)
    ensures Ascending(s) && Distinct(s) && forall x :: x in s <==> x in names
  {
    var out := SetToSeq(names);
    s := SortBy(out, Self());
    SortBySorts(out, Self());
    DistinctSameElements(out, s);
    assert forall i, j :: 0 <= i < j < |s| ==> KeyLe(Self()(s[i]), Self()(s[j]));
  }

  /** `subjects` lists the subjects of the items in ascending order, each once. */
  ghost predicate IsSubjectList(items: seq<Item>, subjects: seq<string>) {
    Ascending(subjects) && Distinct(subjects) && forall s :: s in subjects <==> s in SubjectsIn(items)
  }

  /** What a cold start recommends. */
  ghost predicate ColdStart(items: seq<Item>, n: nat, entries: seq<Item>) {
    exists subjects :: IsSubjectList(items, subjects) && entries == RoundRobin(GroupsOf(items, subjects), n)
  }

  lemma HeadsExist(groups: seq<seq<Item>>, n: nat)
    requires n > 0 && !AllEmpty(groups)
    ensures |Heads(groups, n)| > 0
  {
    HeadsLength(groups, n);
    TailsShrink(groups);
  }

  /** One pass over the queues, popping the front of each in turn until `n` entries are there. */
  method Pass(queues: array<seq<Item>>, entries: seq<Item>, n: nat) returns (out: seq<Item>)
    requires |entries| < n
    modifies queues
    ensures out == entries + Heads(old(queues[..]), n - |entries|)
    ensures |out| < n ==> queues[..] == Tails(old(queues[..]))
  {
    ghost var q := queues[..];
    out := entries;
    for k := 0 to queues.Length
      invariant |out| <= n
      invariant out + Heads(q[k..], n - |out|) == entries + Heads(q, n - |entries|)
      invariant forall i :: 0 <= i < queues.Length ==> queues[i] == if i < k then Tail(q[i]) else q[i]
    {
      if |out| >= n {
        break;
      }
      assert q[k..][0] == q[k] && q[k..][1..] == q[k + 1..];
      if queues[k] == [] {
        continue;
      }
      assert out + ([q[k][0]] + Heads(q[k + 1..], n - |out| - 1))
          == (out + [q[k][0]]) + Heads(q[k + 1..], n - |out| - 1);
      out := out + [queues[k][0]];
      queues[k] := queues[k][1..];
    }
  }

  /** The entries so far, and what the queues still hold, lead to the round robin over `groups`. */
  ghost predicate LeadsTo(entries: seq<Item>, queues: seq<seq<Item>>, groups: seq<seq<Item>>, n: nat) {
    |entries| <= n && entries + RoundRobin(queues, n - |entries|) == RoundRobin(groups, n)
  }

  lemma PassLeadsOn(entries: seq<Item>, queues: seq<seq<Item>>, groups: seq<seq<Item>>, n: nat, out: seq<Item>,
                    after: seq<seq<Item>>)
    requires LeadsTo(entries, queues, groups, n) && |entries| < n && !AllEmpty(queues)
    requires out == entries + Heads(queues, n - |entries|)
    requires |out| < n ==> after == Tails(queues)
    ensures LeadsTo(out, after, groups, n) && |entries| < |out|
  {
    hide Heads, Tails, RoundRobin, AllEmpty;
    var m := n - |entries|;
    var h := Heads(queues, m);
    HeadsExist(queues, m);
    OnePass(queues, m);
    assert entries + (h + RoundRobin(Tails(queues), m - |h|)) == out + RoundRobin(Tails(queues), m - |h|);
    if |out| == n {
      NothingMore(after);
      NothingMore(Tails(queues));
    }
  }

  lemma OnePass(groups: seq<seq<Item>>, n: nat)
    requires n > 0 && !AllEmpty(groups)
    ensures RoundRobin(groups, n) == Heads(groups, n) + RoundRobin(Tails(groups), n - |Heads(groups, n)|)
  {
    hide Heads, Tails;
    TailsShrink(groups);
  }

  lemma NothingMore(groups: seq<seq<Item>>)
    ensures RoundRobin(groups, 0) == []
  {
  }

  lemma LeadsToEnd(entries: seq<Item>, queues: seq<seq<Item>>, groups: seq<seq<Item>>, n: nat)
    requires LeadsTo(entries, queues, groups, n) && (|entries| == n || AllEmpty(queues))
    ensures entries == RoundRobin(groups, n)
  {
    assert RoundRobin(queues, n - |entries|) == [];
  }

  method BalancedSolveEntries(items: seq<Item>, n: nat) returns (entries: seq<Item>)
    ensures ColdStart(items, n, entries)
  {
    hide Heads, Tails, RoundRobin, Total, OfSubject, LeadsTo;
    var sorted := SortBy(items, IdKey());
    var subjects := SortedNames(SubjectsIn(items));
    var queues := new seq<Item>[|subjects|](k requires 0 <= k < |subjects| => OfSubject(sorted, subjects[k]));
    ghost var groups := GroupsOf(items, subjects);
    assert queues[..] == groups;
    entries := [];
    LeadsToStart(groups, n);
    while |entries| < n && exists k :: 0 <= k < queues.Length && queues[k] != []
      invariant |entries| <= n && LeadsTo(entries, queues[..], groups, n)
      decreases n - |entries|
    {
      ghost var q := queues[..];
      ghost var before := entries;
      ghost var k :| 0 <= k < queues.Length && queues[k] != [];
      assert q[k] != [];
      entries := Pass(queues, entries, n);
      PassLeadsOn(before, q, groups, n, entries, queues[..]);
    }
    LeadsToEnd(entries, queues[..], groups, n);
  }

  lemma LeadsToStart(groups: seq<seq<Item>>, n: nat)
    ensures LeadsTo([], groups, groups, n)
  {
  }

  lemma {:induction false} TotalUpdate(groups: seq<seq<Item>>, k: nat, g: seq<Item>)
    requires k < |groups|
    ensures Total(groups[k := g]) == Total(groups) - |groups[k]| + |g|
  {
    if k == 0 {
      assert groups[k := g][1..] == groups[1..];
    } else {
      assert groups[k := g][1..] == groups[1..][k - 1 := g];
      TotalUpdate(groups[1..], k - 1, g);
    }
  }

  function Split(items: seq<Item>, subjects: seq<string>): (g: seq<seq<Item>>)
    ensures |g| == |subjects|
  {
    seq(|subjects|, k requires 0 <= k < |subjects| => OfSubject(items, subjects[k]))
  }

  lemma NothingSplit(subjects: seq<string>)
    ensures AllEmpty(Split([], subjects))
  {
  }

  /** Splitting by subject loses nothing. */
  lemma {:induction false} SplitTotal(items: seq<Item>, subjects: seq<string>)
    requires Distinct(subjects) && forall x :: x in items ==> x.subject in subjects
    ensures Total(Split(items, subjects)) == |items|
  {
    hide OfSubject, Total;
    var groups := Split(items, subjects);
    if items == [] {
      NothingSplit(subjects);
      TailsShrink(groups);
    } else {
      var n := |items| - 1;
      var x := items[n];
      SplitTotal(items[..n], subjects);
      var before := Split(items[..n], subjects);
      var k :| 0 <= k < |subjects| && subjects[k] == x.subject;
      TotalUpdate(before, k, before[k] + [x]);
      assert items == items[..n] + [x];
      forall j | 0 <= j < |subjects| ensures groups[j] == if j == k then before[j] + [x] else before[j] {
        OfSubjectAppend(items[..n], x, subjects[j]);
      }
      assert groups == before[k := before[k] + [x]];
    }
  }

  lemma OfSubjectMembers(items: seq<Item>, subject: string)
    ensures forall x :: x in OfSubject(items, subject) <==> x in items && x.subject == subject
  {
    WhereMembers(items, (x: Item) => x.subject == subject);
  }

  lemma GroupsAreGrouped(items: seq<Item>, subjects: seq<string>)
    requires IsSubjectList(items, subjects)
    ensures Grouped(GroupsOf(items, subjects), subjects)
    ensures Total(GroupsOf(items, subjects)) == |items|
  {
    var sorted := SortBy(items, IdKey());
    SortBySorts(items, IdKey());
    forall k, x | 0 <= k < |subjects| && x in OfSubject(sorted, subjects[k]) ensures x.subject == subjects[k] {
      OfSubjectMembers(sorted, subjects[k]);
    }
    forall x | x in sorted ensures x.subject in subjects {
      assert x in items && x.subject in SubjectsIn(items);
    }
    SplitTotal(sorted, subjects);
    assert GroupsOf(items, subjects) == Split(sorted, subjects);
  }

  /** What a cold start promises: as many entries as asked for or available; of every subject the
      first ones by id; and no subject more than one ahead of another that is not exhausted. */
  lemma ColdStartShape(items: seq<Item>, n: nat, entries: seq<Item>)
    requires ColdStart(items, n, entries)
    ensures |entries| == if n < |items| then n else |items|
    ensures forall s :: s in SubjectsIn(items) ==> OfSubject(entries, s) <= OfSubject(SortBy(items, IdKey()), s)
    ensures forall s, t :: s in SubjectsIn(items) && t in SubjectsIn(items) ==>
      || |OfSubject(entries, s)| <= |OfSubject(entries, t)| + 1
      || OfSubject(entries, t) == OfSubject(SortBy(items, IdKey()), t)
  {
    var subjects :| IsSubjectList(items, subjects) && entries == RoundRobin(GroupsOf(items, subjects), n);
    var groups := GroupsOf(items, subjects);
    GroupsAreGrouped(items, subjects);
    RoundRobinLength(groups, n);
    forall s | s in SubjectsIn(items)
      ensures OfSubject(entries, s) <= OfSubject(SortBy(items, IdKey()), s)
    {
      var k :| 0 <= k < |subjects| && subjects[k] == s;
      RoundRobinTakesPrefixes(groups, subjects, n, k);
    }
    forall s, t | s in SubjectsIn(items) && t in SubjectsIn(items)
      ensures |OfSubject(entries, s)| <= |OfSubject(entries, t)| + 1
           || OfSubject(entries, t) == OfSubject(SortBy(items, IdKey()), t)
    {
      var j :| 0 <= j < |subjects| && subjects[j] == s;
      var k :| 0 <= k < |subjects| && subjects[k] == t;
      RoundRobinIsBalanced(groups, subjects, n, j, k);
      RoundRobinTakesPrefixes(groups, subjects, n, k);
    }
  }

  lemma SameNames(s: seq<string>, t: seq<string>)
    requires Ascending(s) && Ascending(t) && Distinct(s) && Distinct(t) && forall x :: x in s <==> x in t
    ensures s == t
  {
    forall x ensures multiset(s)[x] == multiset(t)[x] {
      AtMostOnce(s, x);
      AtMostOnce(t, x);
      assert x in s <==> x in multiset(s);
      assert x in t <==> x in multiset(t);
    }
    assert multiset(s) == multiset(t);
    SortedUnique(s, t, Self());
  }

  /** With distinct ids the input order does not matter. */
  lemma ColdStartIgnoresOrder(items: seq<Item>, shuffled: seq<Item>, n: nat, entries: seq<Item>, others: seq<Item>)
    requires multiset(items) == multiset(shuffled) && DistinctIds(items)
    requires ColdStart(items, n, entries) && ColdStart(shuffled, n, others)
    ensures entries == others
  {
    var s :| IsSubjectList(items, s) && entries == RoundRobin(GroupsOf(items, s), n);
    var t :| IsSubjectList(shuffled, t) && others == RoundRobin(GroupsOf(shuffled, t), n);
    SameElements(items, shuffled);
    assert SubjectsIn(items) == SubjectsIn(shuffled);
    SameNames(s, t);
    SortByIgnoresOrder(items, shuffled, IdKey());
  }

  // ---- The recommendation ----

  /** The scored rows carry the items, and sort like them. */
  ghost predicate RowsOf(rows: seq<(int, Item)>, items: seq<Item>, key: Item -> Key) {
    |rows| == |items| && forall i :: 0 <= i < |rows| ==> rows[i].1 == items[i] && RowKey()(rows[i]) == key(items[i])
  }

  lemma {:induction false} InsertRow(row: (int, Item), rows: seq<(int, Item)>, items: seq<Item>, key: Item -> Key)
    requires RowsOf(rows, items, key) && RowKey()(row) == key(row.1)
    ensures RowsOf(Insert(row, rows, RowKey()), Insert(row.1, items, key), key)
  {
    if rows != [] { InsertRow(row, rows[1..], items[1..], key); }
  }

  lemma {:induction false} SortRows(rows: seq<(int, Item)>, items: seq<Item>, key: Item -> Key)
    requires RowsOf(rows, items, key)
    ensures RowsOf(SortBy(rows, RowKey()), SortBy(items, key), key)
  {
    if rows != [] {
      SortRows(rows[1..], items[1..], key);
      InsertRow(rows[0], SortBy(rows[1..], RowKey()), SortBy(items[1..], key), key);
    }
  }

  /** Negative counts ask for nothing. */
  method RecommendProblems(states: seq<SubjectState>, maps: seq<Item>, attempted: set<string>,
                           nSolve: int, nSkip: int, rnd: real -> int) returns (solve: seq<Item>, skip: seq<Item>)
    ensures states == [] ==> ColdStart(FirstItems(maps), if nSolve < 0 then 0 else nSolve, solve) && skip == []
    ensures states != [] ==>
      && solve == Take(Ranked(states, FirstItems(maps), attempted, rnd), if nSolve < 0 then 0 else nSolve)
      && skip == Skips(states, FirstItems(maps), solve, if nSkip < 0 then 0 else nSkip)
  {
    var solveCount, skipCount := if nSolve < 0 then 0 else nSolve, if nSkip < 0 then 0 else nSkip;
    var items := UniqueItems(maps);
    if states == [] {
      solve := BalancedSolveEntries(items, solveCount);
      return solve, [];
    }
    var index := IndexStates(states);
    var scored: seq<(int, Item)> := [];
    for k := 0 to |items|
      invariant |scored| == k
      invariant forall i :: 0 <= i < k ==>
        scored[i] == (Points(items[i], StateOf(states, items[i].subject), attempted, rnd), items[i])
    {
      var state := if items[k].subject in index then Some(index[items[k].subject]) else None;
      var points := ScoreItem(items[k], state, attempted, rnd);
      scored := scored + [(points, items[k])];
    }
    var rows := SortBy(scored, RowKey());
    SortRows(scored, items, PointsKey(states, attempted, rnd));
    var ranked := seq(|rows|, i requires 0 <= i < |rows| => rows[i].1);
    assert ranked == Ranked(states, items, attempted, rnd);
    solve := Take(ranked, solveCount);
    skip := Skips(states, items, solve, skipCount);
  }

  function RowKey(): ((int, Item)) -> Key {
    (row: (int, Item)) => Key(-row.0, 0, row.1.id)
  }
}
