/** One page of the practice list, question by question. */
module PageInFigures {
  import opened Order
  import opened Practice
  import opened Wrappers

  /** Does the question pass every filter that is set, and stand behind the cursor if there is one? */
  predicate Passes(f: Filter, after: string, q: Question) {
    && (f.subject != "" ==> q.subject == f.subject)
    && (f.unit != "" ==> q.unit == f.unit)
    && (f.source != "" ==> q.source == f.source)
    && (f.year != 0 ==> q.year == f.year)
    && (after != "" ==> StrLt(after, q.id))
  }

  lemma PassesMeans(f: Filter, after: string, q: Question)
    ensures Matches(f, q) && Past(after, q) <==> Passes(f, after, q)
  {
    hide StrLe;
    StrTotal(after, q.id);
    if StrLe(after, q.id) && StrLe(q.id, after) { StrAntisymmetric(after, q.id); }
    if after == q.id { StrTotal(after, after); }
  }

  /** `idx` lists, in order, the positions in `qs` of the questions that pass. */
  ghost predicate Passing(qs: seq<Question>, f: Filter, after: string, idx: seq<nat>) {
    && (forall k :: 0 <= k < |idx| ==> idx[k] < |qs| && Passes(f, after, qs[idx[k]]))
    && (forall j, k :: 0 <= j < k < |idx| ==> idx[j] < idx[k])
    && (forall i: nat :: i < |qs| && Passes(f, after, qs[i]) ==> i in idx)
  }

  lemma {:induction false} PassingPositions(qs: seq<Question>, f: Filter, after: string) returns (idx: seq<nat>)
    ensures Passing(qs, f, after, idx)
    ensures var found := Above(Filtered(qs, f), after);
      |found| == |idx| && forall k :: 0 <= k < |idx| ==> found[k] == qs[idx[k]]
  {
    hide Passes, Matches, Past, Above, Filtered;
    idx := [];
    if qs == [] {
      NothingListed(f, after);
    } else {
      var n := |qs| - 1;
      idx := PassingPositions(qs[..n], f, after);
      assert qs[..n + 1] == qs;
      NextFiltered(qs, f, n, after);
      PassesMeans(f, after, qs[n]);
      if Passes(f, after, qs[n]) { idx := idx + [n]; }
    }
  }

  /** At least one question is asked for, and at most fifty; within that as many as the client says. */
  predicate PageSize(limit: int, size: nat) {
    1 <= size <= 50 && (limit > 50 ==> size == 50) && (limit < 1 ==> size == 1) && (1 <= limit <= 50 ==> size == limit)
  }

  /** A page holds the questions that pass, from the first one on and in list order, up to its size; nothing
      that passes is left out before that. It has a cursor, the last id, exactly if it is full. */
  lemma PageHolds(qs: seq<Question>, f: Filter, limit: int, after: string, size: nat) returns (idx: seq<nat>)
    requires PageSize(limit, size)
    ensures Passing(qs, f, after, idx)
    ensures var p := PageOf(qs, f, limit, after);
      && |p.questions| == (if |idx| < size then |idx| else size)
      && (forall k :: 0 <= k < |p.questions| ==> p.questions[k] == qs[idx[k]])
      && (|p.questions| == size ==> p.next == Some(p.questions[size - 1].id))
      && (|p.questions| < size ==> p.next == None)
  {
    hide Passes, Above, Filtered;
    idx := PassingPositions(qs, f, after);
  }
}
