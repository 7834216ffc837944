/** The tutorials of a week in the figures of their specification: how many, in which weeks, and in which
    order. */
module TutorialsInFigures {
  import opened Arithmetic
  import opened Filters
  import opened Order
  import opened StageWeeks
  import opened Tutorials

  /** The teaching weeks before week `n`. */
  ghost function TeachingBefore(stages: seq<Stage>, n: nat): set<nat> {
    set k: nat | k < n && k < |stages| && stages[k] in {Intro, PostLecture, ObjectiveEntry}
  }

  lemma {:induction false} RankIsCount(stages: seq<Stage>, n: nat)
    requires n <= |stages|
    ensures Rank(stages, n) == |TeachingBefore(stages, n)|
  {
    if n > 0 {
      RankIsCount(stages, n - 1);
      var before := TeachingBefore(stages, n - 1);
      assert TeachingBefore(stages, n) == before + if Teaching(stages[n - 1]) then {n - 1} else {};
    }
  }

  /** `per` is `m` divided by `T`, rounded up. */
  predicate Ceiling(per: nat, m: nat, T: nat) {
    T * per >= m && (per > 0 ==> T * (per - 1) < m)
  }

  lemma PerWeekIsCeiling(m: nat, T: nat, per: nat)
    requires T > 0
    ensures Ceiling(per, m, T) <==> per == PerWeek(m, T)
  {
    var q := PerWeek(m, T);
    ChunksFit(m, T);
    assert q > 0 ==> T * (q - 1) == T * q - T;
    if Ceiling(per, m, T) && per != q {
      if per < q { MulMonotone(T, per, q - 1); } else { MulMonotone(T, q, per - 1); }
    }
  }

  /** The load of a week. Of a subject's `m` tutorials each of the `T` teaching weeks, the first, second and
      third stage's, holds `m` divided by `T`, rounded up, until they run out; the other weeks hold none. */
  lemma LoadInFigures(catalogue: seq<Tutorial>, subjects: seq<string>, stages: seq<Stage>, i: nat, subject: string,
                      per: nat)
    requires i < |stages| && Distinct(subjects) && subject in subjects
    requires Ceiling(per, |OfSubject(catalogue, subject)|, |TeachingBefore(stages, |stages|)|)
    ensures var load := |OfSubject(Focus(catalogue, subjects, stages)[i], subject)|;
      var m, r := |OfSubject(catalogue, subject)|, |TeachingBefore(stages, i)|;
      if stages[i] !in {Intro, PostLecture, ObjectiveEntry} then load == 0
      else if r * per >= m then load == 0
      else load == if r * per + per <= m then per else m - r * per
  {
    hide PerWeek, Chunk, CatalogueFor, OfSubject, TeachingBefore, SlotContent, Ceiling;
    RankIsCount(stages, i);
    RankIsCount(stages, |stages|);
    var T, r, tuts := Rank(stages, |stages|), Rank(stages, i), CatalogueFor(catalogue, subject);
    CatalogueSize(catalogue, subject);
    if Teaching(stages[i]) {
      RankIncreases(stages, i, |stages|);
      PerWeekIsCeiling(|tuts|, T, per);
      SlotShare(catalogue, subjects, T, r, subject);
      ChunkIsSlice(tuts, per, r, r * per);
    } else {
      OfSubjectAll([], "", subject);
    }
  }

  lemma CatalogueSize(catalogue: seq<Tutorial>, subject: string)
    ensures |CatalogueFor(catalogue, subject)| == |OfSubject(catalogue, subject)|
  {
    SortBySorts(OfSubject(catalogue, subject), TutorialKey());
  }

  /** The study order: introductory tutorials first, then by priority, then by id; and exactly the subject's
      tutorials, each as often as the catalogue has it. */
  lemma StudyOrder(catalogue: seq<Tutorial>, subject: string, a: nat, b: nat)
    requires a < b < |CatalogueFor(catalogue, subject)|
    ensures var tuts := CatalogueFor(catalogue, subject);
      var x, y := tuts[a], tuts[b];
      || (x.introLow && !y.introLow)
      || (x.introLow == y.introLow && x.priority < y.priority)
      || (x.introLow == y.introLow && x.priority == y.priority && StrLe(x.id, y.id))
    ensures multiset(CatalogueFor(catalogue, subject)) == multiset(OfSubject(catalogue, subject))
    ensures forall t :: t in OfSubject(catalogue, subject) <==> t in catalogue && t.subject == subject
  {
    hide StrLe;
    var of, tuts := OfSubject(catalogue, subject), CatalogueFor(catalogue, subject);
    SortBySorts(of, TutorialKey());
    OfSubjectMembers(catalogue, subject);
    StrTotal(tuts[a].id, tuts[b].id);
    assert KeyLe(TutorialKey()(tuts[a]), TutorialKey()(tuts[b]));
  }

  /** Do the tutorials come subject by subject, in the order in which the subjects are planned? */
  ghost predicate InTurn(subjects: seq<string>, week: seq<Tutorial>) {
    && (forall t :: t in week ==> t.subject in subjects)
    && forall a, b :: 0 <= a < b < |week| ==>
         FirstIndex(subjects, week[a].subject) <= FirstIndex(subjects, week[b].subject)
  }

  lemma {:induction false} SlotInTurn(catalogue: seq<Tutorial>, subjects: seq<string>, T: nat, slot: nat)
    requires T > 0 && Distinct(subjects)
    ensures InTurn(subjects, SlotContent(catalogue, subjects, T, slot))
  {
    hide Chunk, PerWeek, CatalogueFor, InTurn;
    if subjects == [] {
      NothingInTurn(subjects);
    } else {
      var n := |subjects| - 1;
      var tuts := CatalogueFor(catalogue, subjects[n]);
      var chunk := Chunk(tuts, PerWeek(|tuts|, T), slot);
      SlotInTurn(catalogue, subjects[..n], T, slot);
      ChunkMembers(tuts, PerWeek(|tuts|, T), slot);
      CatalogueForMembers(catalogue, subjects[n]);
      NextInTurn(subjects, SlotContent(catalogue, subjects[..n], T, slot), chunk);
    }
  }

  /** One more subject's chunk. */
  lemma NextInTurn(subjects: seq<string>, front: seq<Tutorial>, chunk: seq<Tutorial>)
    requires subjects != [] && Distinct(subjects) && InTurn(subjects[..|subjects| - 1], front)
    requires forall t :: t in chunk ==> t.subject == subjects[|subjects| - 1]
    ensures InTurn(subjects, front + chunk)
  {
    hide FirstIndex;
    var n, week := |subjects| - 1, front + chunk;
    assert subjects == subjects[..n] + [subjects[n]];
    forall t | t in front ensures FirstIndex(subjects, t.subject) == FirstIndex(subjects[..n], t.subject) < n {
      FirstIndexAppend(subjects[..n], subjects[n], t.subject);
      MemberIsFound(subjects[..n], t.subject);
    }
    forall t | t in chunk ensures FirstIndex(subjects, t.subject) == FirstIndex(subjects, subjects[n]) >= n {
      FirstIndexAppend(subjects[..n], subjects[n], subjects[n]);
      LastIsNew(subjects);
    }
    forall a, b | 0 <= a < b < |week|
      ensures FirstIndex(subjects, week[a].subject) <= FirstIndex(subjects, week[b].subject)
    {
      if b < |front| { assert week[a] == front[a] && week[b] == front[b]; }
      if b >= |front| { assert week[b] in chunk && (week[a] in front || week[a] in chunk); }
    }
  }

  lemma LastIsNew(s: seq<string>)
    requires s != [] && Distinct(s)
    ensures FirstIndex(s[..|s| - 1], s[|s| - 1]) == |s| - 1
  {
    hide FirstIndex;
  }

  lemma MemberIsFound(s: seq<string>, x: string)
    requires x in s
    ensures FirstIndex(s, x) < |s|
  {
  }

  /** Within a week the subjects come in turn. */
  lemma SubjectsInTurn(catalogue: seq<Tutorial>, subjects: seq<string>, stages: seq<Stage>, i: nat)
    requires i < |stages| && Distinct(subjects)
    ensures InTurn(subjects, Focus(catalogue, subjects, stages)[i])
  {
    hide InTurn, SlotContent, Rank;
    if Rank(stages, |stages|) > 0 && Teaching(stages[i]) {
      SlotInTurn(catalogue, subjects, Rank(stages, |stages|), Rank(stages, i));
    } else {
      NothingInTurn(subjects);
    }
  }

  lemma NothingInTurn(subjects: seq<string>)
    ensures InTurn(subjects, [])
  {
  }
}
