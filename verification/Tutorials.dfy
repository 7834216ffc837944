/** Which tutorials are studied in which week. */
module Tutorials {
  import opened Filters
  import opened Order
  import opened StageWeeks

  datatype Tutorial = Tutorial(subject: string, introLow: bool, priority: int, id: string)

  predicate Teaching(s: Stage) {
    s == Intro || s == PostLecture || s == ObjectiveEntry
  }

  function TutorialKey(): Tutorial -> Key {
    (t: Tutorial) => Key(if t.introLow then 0 else 1, t.priority, t.id)
  }

  function OfSubject(s: seq<Tutorial>, subject: string): seq<Tutorial> {
    Where(s, (t: Tutorial) => t.subject == subject)
  }

  /** A subject's tutorials in study order: introductory first, then by priority and id. */
  function CatalogueFor(catalogue: seq<Tutorial>, subject: string): seq<Tutorial> {
    SortBy(OfSubject(catalogue, subject), TutorialKey())
  }

  /** The number of teaching weeks among the first `i`. */
  function Rank(stages: seq<Stage>, i: nat): (r: nat)
    requires i <= |stages|
    ensures r <= i
  {
    if i == 0 then 0 else Rank(stages, i - 1) + if Teaching(stages[i - 1]) then 1 else 0
  }

  function PerWeek(m: nat, T: nat): nat
    requires T > 0
  {
    (m + T - 1) / T
  }

  /** What falls to the teaching week number `slot` when it holds `per` tutorials a week. */
  function Chunk(tuts: seq<Tutorial>, per: nat, slot: nat): seq<Tutorial> {
    tuts[Cut(slot * per, |tuts|)..Cut((slot + 1) * per, |tuts|)]
  }

  function Cut(x: nat, m: nat): (c: nat)
    ensures c <= m && c <= x
  {
    if x < m then x else m
  }

  /** A teaching week's tutorials: one chunk for each planned subject in turn. */
  function SlotContent(catalogue: seq<Tutorial>, subjects: seq<string>, T: nat, slot: nat): seq<Tutorial>
    requires T > 0
  {
    if subjects == [] then []
    else
      var tuts := CatalogueFor(catalogue, subjects[|subjects| - 1]);
      SlotContent(catalogue, subjects[..|subjects| - 1], T, slot) + Chunk(tuts, PerWeek(|tuts|, T), slot)
  }

  /** The tutorials of week `i`. */
  function WeekContent(catalogue: seq<Tutorial>, subjects: seq<string>, stages: seq<Stage>, i: nat): seq<Tutorial>
    requires i < |stages|
  {
    var T := Rank(stages, |stages|);
    if T > 0 && Teaching(stages[i]) then SlotContent(catalogue, subjects, T, Rank(stages, i)) else []
  }

  /** The tutorials of every week. */
  function Focus(catalogue: seq<Tutorial>, subjects: seq<string>, stages: seq<Stage>): (f: seq<seq<Tutorial>>)
    ensures |f| == |stages|
  {
    seq(|stages|, i requires 0 <= i < |stages| => WeekContent(catalogue, subjects, stages, i))
  }

  /** Is `i` the teaching week number `r`? */
  ghost predicate IsSlot(stages: seq<Stage>, i: nat, r: nat) {
    i < |stages| && Teaching(stages[i]) && Rank(stages, i) == r
  }

  function TeachingWeeks(stages: seq<Stage>, n: nat): (idx: seq<nat>)
    requires n <= |stages|
    ensures |idx| == Rank(stages, n)
    ensures forall r :: 0 <= r < |idx| ==> idx[r] < n && IsSlot(stages, idx[r], r)
  {
    if n == 0 then [] else TeachingWeeks(stages, n - 1) + if Teaching(stages[n - 1]) then [n - 1] else []
  }

  /** Different teaching weeks have different numbers, below the total. */
  lemma {:induction false} RankIncreases(stages: seq<Stage>, i: nat, j: nat)
    requires i < j <= |stages|
    ensures Rank(stages, i) <= Rank(stages, j)
    ensures Teaching(stages[i]) ==> Rank(stages, i) < Rank(stages, j)
  {
    if i + 1 < j { RankIncreases(stages, i, j - 1); }
  }

  lemma SlotsAreUnique(stages: seq<Stage>, i: nat, j: nat)
    requires i < |stages| && j < |stages| && Teaching(stages[i]) && Teaching(stages[j])
    requires Rank(stages, i) == Rank(stages, j)
    ensures i == j
  {
    if i < j { RankIncreases(stages, i, j); }
    if j < i { RankIncreases(stages, j, i); }
  }

  lemma ChunksFit(m: nat, T: nat)
    requires T > 0
    ensures T * PerWeek(m, T) >= m
    ensures m > 0 ==> PerWeek(m, T) > 0
  {
    var q := (m + T - 1) / T;
    assert m + T - 1 == T * q + (m + T - 1) % T;
  }

  /** The slice that the loop takes from position `slot * per` on. */
  lemma ChunkIsSlice(tuts: seq<Tutorial>, per: nat, slot: nat, start: nat)
    requires start == slot * per
    ensures (slot + 1) * per == start + per
    ensures start < |tuts| ==> Chunk(tuts, per, slot) == tuts[start..Cut(start + per, |tuts|)]
    ensures start >= |tuts| ==> Chunk(tuts, per, slot) == []
  {
    assert (slot + 1) * per == slot * per + per;
  }

  /** A week's share of one subject's tutorials when only the first `slots` teaching weeks are filled. */
  ghost function Portion(tuts: seq<Tutorial>, T: nat, stages: seq<Stage>, i: nat, slots: nat): seq<Tutorial>
    requires i < |stages| && T > 0
  {
    if Teaching(stages[i]) && Rank(stages, i) < slots then Chunk(tuts, PerWeek(|tuts|, T), Rank(stages, i)) else []
  }

  lemma NextPortion(tuts: seq<Tutorial>, T: nat, stages: seq<Stage>, slot: nat, week: nat)
    requires T > 0 && IsSlot(stages, week, slot)
    ensures Portion(tuts, T, stages, week, slot) == []
    ensures Portion(tuts, T, stages, week, slot + 1) == Chunk(tuts, PerWeek(|tuts|, T), slot)
    ensures forall i: nat :: i < |stages| && i != week ==>
      Portion(tuts, T, stages, i, slot + 1) == Portion(tuts, T, stages, i, slot)
  {
    hide Chunk, PerWeek;
    forall i: nat | i < |stages| && i != week
      ensures Portion(tuts, T, stages, i, slot + 1) == Portion(tuts, T, stages, i, slot)
    {
      if Teaching(stages[i]) && Rank(stages, i) == slot { SlotsAreUnique(stages, i, week); }
    }
  }

  /** Append one chunk to one week, tutorial by tutorial. */
  method AppendChunk(tuts: seq<Tutorial>, start: nat, end: nat, week: nat, focus: array<seq<Tutorial>>)
    requires week < focus.Length && start <= end <= |tuts|
    modifies focus
    ensures focus[week] == old(focus[week]) + tuts[start..end]
    ensures forall i :: 0 <= i < focus.Length && i != week ==> focus[i] == old(focus[i])
  {
    for j := start to end
      invariant focus[week] == old(focus[week]) + tuts[start..j]
      invariant forall i :: 0 <= i < focus.Length && i != week ==> focus[i] == old(focus[i])
    {
      assert tuts[start..j + 1] == tuts[start..j] + [tuts[j]];
      focus[week] := focus[week] + [tuts[j]];
    }
  }

  /** Append one subject's chunks to the teaching weeks, slot by slot. */
  method AssignSubject(tuts: seq<Tutorial>, teaching: seq<nat>, focus: array<seq<Tutorial>>, stages: seq<Stage>)
    requires focus.Length == |stages| && teaching == TeachingWeeks(stages, |stages|)
    requires tuts != [] && teaching != []
    modifies focus
    ensures forall i: nat :: i < |stages| ==>
      focus[i] == old(focus[i]) + Portion(tuts, |teaching|, stages, i, |teaching|)
  {
    hide Chunk, PerWeek, Rank, TeachingWeeks, Portion;
    var T := |teaching|;
    var per := PerWeek(|tuts|, T);
    ChunksFit(|tuts|, T);
    var slot, start: nat := 0, 0;
    NoPortion(tuts, T, stages);
    while start < |tuts|
      invariant start == slot * per && slot <= T
      invariant forall i: nat :: i < |stages| ==> focus[i] == old(focus[i]) + Portion(tuts, T, stages, i, slot)
      decreases |tuts| - start
    {
      if slot >= T {
        break;
      }
      ChunkIsSlice(tuts, per, slot, start);
      NextPortion(tuts, T, stages, slot, teaching[slot]);
      AppendChunk(tuts, start, Cut(start + per, |tuts|), teaching[slot], focus);
      slot, start := slot + 1, start + per;
    }
    forall i: nat | i < |stages| ensures Portion(tuts, T, stages, i, T) == Portion(tuts, T, stages, i, slot) {
      RestIsEmpty(tuts, T, stages, i, slot);
    }
  }

  lemma NoPortion(tuts: seq<Tutorial>, T: nat, stages: seq<Stage>)
    requires T > 0
    ensures forall i: nat :: i < |stages| ==> Portion(tuts, T, stages, i, 0) == []
  {
  }

  /** Whenever the loop stops, nothing is left for the later teaching weeks. */
  lemma RestIsEmpty(tuts: seq<Tutorial>, T: nat, stages: seq<Stage>, i: nat, slot: nat)
    requires i < |stages| && 0 < T && slot <= T
    requires slot == T || slot * PerWeek(|tuts|, T) >= |tuts|
    ensures Portion(tuts, T, stages, i, T) == Portion(tuts, T, stages, i, slot)
  {
    hide Chunk, PerWeek;
    var per, r := PerWeek(|tuts|, T), Rank(stages, i);
    if Teaching(stages[i]) && slot <= r < T {
      assert r * per >= slot * per by { assert (r - slot) * per >= 0; }
      ChunkIsSlice(tuts, per, r, r * per);
    }
  }

  method AssignTutorials(catalogue: seq<Tutorial>, subjects: seq<string>, stages: seq<Stage>)
    returns (plan: seq<seq<Tutorial>>)
    ensures plan == Focus(catalogue, subjects, stages)
  {
    hide Chunk, PerWeek, Rank, CatalogueFor;
    var focus := new seq<Tutorial>[|stages|](_ => []);
    var teaching := TeachingWeeks(stages, |stages|);
    var T := |teaching|;
    for k := 0 to |subjects|
      invariant forall i: nat :: i < |stages| ==> focus[i] == WeekContent(catalogue, subjects[..k], stages, i)
    {
      assert subjects[..k + 1][..k] == subjects[..k];
      var tuts := CatalogueFor(catalogue, subjects[k]);
      forall i: nat | i < |stages| && T > 0
        ensures WeekContent(catalogue, subjects[..k + 1], stages, i)
             == WeekContent(catalogue, subjects[..k], stages, i) + Portion(tuts, T, stages, i, T)
      {
        if Teaching(stages[i]) { RankIncreases(stages, i, |stages|); }
      }
      if tuts == [] || T == 0 {
        if T > 0 { NothingToAssign(T, stages); }
        continue;
      }
      AssignSubject(tuts, teaching, focus, stages);
    }
    assert subjects[..|subjects|] == subjects;
    plan := focus[..];
  }

  lemma NothingToAssign(T: nat, stages: seq<Stage>)
    requires T > 0
    ensures forall i: nat :: i < |stages| ==> Portion([], T, stages, i, T) == []
  {
  }

  // ---- Every tutorial exactly once, in order ----

  /** What the whole plan schedules for one subject, week after week. */
  function ScheduledFor(f: seq<seq<Tutorial>>, subject: string): seq<Tutorial> {
    if f == [] then [] else ScheduledFor(f[..|f| - 1], subject) + OfSubject(f[|f| - 1], subject)
  }

  lemma OfSubjectConcat(s: seq<Tutorial>, t: seq<Tutorial>, subject: string)
    ensures OfSubject(s + t, subject) == OfSubject(s, subject) + OfSubject(t, subject)
  {
    WhereConcat(s, t, (x: Tutorial) => x.subject == subject);
  }

  lemma {:induction false} OfSubjectAll(s: seq<Tutorial>, owner: string, subject: string)
    requires forall t :: t in s ==> t.subject == owner
    ensures OfSubject(s, subject) == if owner == subject then s else []
  {
    if s != [] {
      assert s[|s| - 1] in s;
      OfSubjectAll(s[..|s| - 1], owner, subject);
      assert s == s[..|s| - 1] + [s[|s| - 1]];
    }
  }

  lemma OfSubjectMembers(s: seq<Tutorial>, subject: string)
    ensures forall t :: t in OfSubject(s, subject) <==> t in s && t.subject == subject
  {
    WhereMembers(s, (t: Tutorial) => t.subject == subject);
  }

  lemma CatalogueForMembers(catalogue: seq<Tutorial>, subject: string)
    ensures forall t :: t in CatalogueFor(catalogue, subject) ==> t.subject == subject
    ensures multiset(CatalogueFor(catalogue, subject)) == multiset(OfSubject(catalogue, subject))
    ensures Sorted(CatalogueFor(catalogue, subject), TutorialKey())
  {
    OfSubjectMembers(catalogue, subject);
    SortBySorts(OfSubject(catalogue, subject), TutorialKey());
  }

  lemma ChunkMembers(tuts: seq<Tutorial>, per: nat, slot: nat)
    ensures forall t :: t in Chunk(tuts, per, slot) ==> t in tuts
  {
    ChunkIsSlice(tuts, per, slot, slot * per);
  }

  /** A planned subject's share of a slot is its own chunk. */
  lemma {:induction false} SlotShare(catalogue: seq<Tutorial>, subjects: seq<string>, T: nat, slot: nat,
                                     subject: string)
    requires T > 0 && Distinct(subjects)
    ensures var tuts := CatalogueFor(catalogue, subject);
      OfSubject(SlotContent(catalogue, subjects, T, slot), subject) ==
      if subject in subjects then Chunk(tuts, PerWeek(|tuts|, T), slot) else []
  {
    hide Chunk, PerWeek, CatalogueFor, OfSubject;
    if subjects == [] {
      OfSubjectAll([], "", subject);
    } else {
      var last, front := subjects[|subjects| - 1], subjects[..|subjects| - 1];
      assert subjects == front + [last];
      var tuts := CatalogueFor(catalogue, last);
      var chunk := Chunk(tuts, PerWeek(|tuts|, T), slot);
      SlotShare(catalogue, front, T, slot, subject);
      OfSubjectConcat(SlotContent(catalogue, front, T, slot), chunk, subject);
      ChunkMembers(tuts, PerWeek(|tuts|, T), slot);
      CatalogueForMembers(catalogue, last);
      OfSubjectAll(chunk, last, subject);
    }
  }

  lemma {:induction false} ScheduledPrefix(
      catalogue: seq<Tutorial>, subjects: seq<string>, stages: seq<Stage>, n: nat, subject: string)
    requires n <= |stages| && Rank(stages, |stages|) > 0 && Distinct(subjects) && subject in subjects
    ensures var tuts := CatalogueFor(catalogue, subject);
      ScheduledFor(Focus(catalogue, subjects, stages)[..n], subject) ==
      tuts[..Cut(Rank(stages, n) * PerWeek(|tuts|, Rank(stages, |stages|)), |tuts|)]
  {
    hide Chunk, PerWeek, CatalogueFor, SlotContent, OfSubject;
    var T, tuts := Rank(stages, |stages|), CatalogueFor(catalogue, subject);
    var per, f := PerWeek(|tuts|, T), Focus(catalogue, subjects, stages);
    if n > 0 {
      ScheduledPrefix(catalogue, subjects, stages, n - 1, subject);
      assert f[..n][..n - 1] == f[..n - 1];
      var r := Rank(stages, n - 1);
      if Teaching(stages[n - 1]) {
        SlotShare(catalogue, subjects, T, r, subject);
        NextChunk(tuts, per, r);
      } else {
        OfSubjectAll([], "", subject);
      }
    }
  }

  lemma NextChunk(tuts: seq<Tutorial>, per: nat, r: nat)
    ensures tuts[..Cut(r * per, |tuts|)] + Chunk(tuts, per, r) == tuts[..Cut((r + 1) * per, |tuts|)]
  {
    hide Chunk;
    var start := r * per;
    ChunkIsSlice(tuts, per, r, start);
    SliceOn(tuts, start, per);
  }

  lemma SliceOn(tuts: seq<Tutorial>, start: nat, per: nat)
    ensures tuts[..Cut(start, |tuts|)] + (if start < |tuts| then tuts[start..Cut(start + per, |tuts|)] else [])
         == tuts[..Cut(start + per, |tuts|)]
  {
  }

  /** With a teaching week in the plan, the weeks together hold exactly the subject's catalogue,
      each tutorial once and in study order, although the loop may stop early. */
  lemma EveryTutorialOnce(catalogue: seq<Tutorial>, subjects: seq<string>, stages: seq<Stage>, subject: string)
    requires Rank(stages, |stages|) > 0 && Distinct(subjects) && subject in subjects
    ensures var scheduled := ScheduledFor(Focus(catalogue, subjects, stages), subject);
      && scheduled == CatalogueFor(catalogue, subject)
      && multiset(scheduled) == multiset(OfSubject(catalogue, subject))
      && Sorted(scheduled, TutorialKey())
  {
    hide PerWeek, CatalogueFor, OfSubject, Rank, ScheduledFor, Focus, TutorialKey, KeyLe;
    var T, tuts := Rank(stages, |stages|), CatalogueFor(catalogue, subject);
    ScheduledPrefix(catalogue, subjects, stages, |stages|, subject);
    var f := Focus(catalogue, subjects, stages);
    assert f[..|stages|] == f;
    ChunksFit(|tuts|, T);
    CatalogueForMembers(catalogue, subject);
  }

  /** Only teaching weeks hold tutorials, only of planned subjects, and no week more than its share of each. */
  lemma WeeklyLoad(catalogue: seq<Tutorial>, subjects: seq<string>, stages: seq<Stage>, i: nat, subject: string)
    requires i < |stages| && Distinct(subjects)
    ensures var week := OfSubject(Focus(catalogue, subjects, stages)[i], subject);
      && (week != [] ==> Teaching(stages[i]) && subject in subjects)
      && (Rank(stages, |stages|) > 0 ==>
          |week| <= PerWeek(|CatalogueFor(catalogue, subject)|, Rank(stages, |stages|)))
  {
    var T, tuts := Rank(stages, |stages|), CatalogueFor(catalogue, subject);
    if T > 0 && Teaching(stages[i]) {
      SlotShare(catalogue, subjects, T, Rank(stages, i), subject);
      ChunkIsSlice(tuts, PerWeek(|tuts|, T), Rank(stages, i), Rank(stages, i) * PerWeek(|tuts|, T));
    }
  }

  /** There are teaching weeks to fill exactly when some stage is a teaching stage. */
  lemma {:induction false} RankCounts(stages: seq<Stage>, n: nat)
    requires n <= |stages|
    ensures Rank(stages, n) > 0 <==> exists i :: 0 <= i < n && Teaching(stages[i])
  {
    if n > 0 {
      RankCounts(stages, n - 1);
      if Teaching(stages[n - 1]) { assert n - 1 < n; }
    }
  }

  /** What is scheduled of a planned subject, with or without teaching weeks. */
  lemma ScheduleOf(catalogue: seq<Tutorial>, subjects: seq<string>, stages: seq<Stage>, subject: string)
    requires Distinct(subjects) && subject in subjects
    ensures ScheduledFor(Focus(catalogue, subjects, stages), subject) ==
      if exists i :: 0 <= i < |stages| && Teaching(stages[i]) then CatalogueFor(catalogue, subject) else []
    ensures forall i :: 0 <= i < |stages| && Focus(catalogue, subjects, stages)[i] != [] ==> Teaching(stages[i])
  {
    hide CatalogueFor, ScheduledFor, Rank, SlotContent;
    RankCounts(stages, |stages|);
    if Rank(stages, |stages|) > 0 {
      EveryTutorialOnce(catalogue, subjects, stages, subject);
    } else {
      NothingScheduled(Focus(catalogue, subjects, stages), subject);
    }
  }

  lemma {:induction false} NothingScheduled(f: seq<seq<Tutorial>>, subject: string)
    requires forall i :: 0 <= i < |f| ==> f[i] == []
    ensures ScheduledFor(f, subject) == []
  {
    if f != [] {
      NothingScheduled(f[..|f| - 1], subject);
      OfSubjectAll([], "", subject);
    }
  }
}
