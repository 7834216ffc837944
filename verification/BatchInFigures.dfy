/** The explanation batch in figures: what a record says about the calls made for it, where records go,
    what the counters count, and what the fifth failure is. */
module BatchInFigures {
  import opened Explanations

  // ---- One record ----

  /** What call number `k` for the question comes to, after `calls` calls for others. */
  ghost function Reply(q: Question, solver: Solver, calls: nat, k: nat): Outcome {
    solver(q, calls + k)
  }

  ghost predicate Right(q: Question, solver: Solver, calls: nat, k: nat) {
    Reply(q, solver, calls, k) == Answers(q.key)
  }

  /** A right answer ends the attempts, nothing else does before the limit. */
  lemma {:induction false} AttemptsEndRight(q: Question, solver: Solver, calls: nat, n: nat)
    ensures var t := Attempts(q, solver, calls, n);
      && t.used <= n && (t.used < n ==> t.status == Verified)
      && (t.status == Verified <==> t.used > 0 && Right(q, solver, calls, t.used - 1))
      && forall k :: 0 <= k < t.used - 1 ==> !Right(q, solver, calls, k)
  {
    if n > 0 { AttemptsEndRight(q, solver, calls, n - 1); }
  }

  /** A record: of which question, with how many calls, and what they came to. Calls are made up to the
      first right answer or the limit; the status is right exactly if the last call was, a backend error
      exactly if all calls failed; otherwise the last answer given decides. */
  lemma RecordInFigures(q: Question, solver: Solver, calls: nat, maxAttempts: int)
    ensures var r := Explain(q, solver, calls, maxAttempts);
      && r.id == q.id && r.key == q.key && (r.answerMatch <==> r.chosen == q.key)
      && (maxAttempts <= 0 ==> r.attempts == 0)
      && (maxAttempts > 0 ==> 0 < r.attempts <= maxAttempts)
      && (forall k :: 0 <= k < r.attempts - 1 ==> !Right(q, solver, calls, k))
      && (r.attempts < maxAttempts ==> r.status == Verified)
      && (r.status == Verified <==> r.attempts > 0 && Right(q, solver, calls, r.attempts - 1))
      && (r.status == BackendError <==> forall k :: 0 <= k < r.attempts ==> Reply(q, solver, calls, k) == Fails)
      && (r.status == BackendError ==> r.chosen == -1)
      && (r.status == ParseFailed ==> r.chosen == -1)
      && (r.status == Mismatch ==> r.chosen != -1 && r.chosen != q.key)
      && (r.status != BackendError ==>
            exists k :: 0 <= k < r.attempts && Reply(q, solver, calls, k) == Answers(r.chosen)
                        && forall j :: k < j < r.attempts ==> Reply(q, solver, calls, j) == Fails)
  {
    var n := Limit(maxAttempts);
    var t := Attempts(q, solver, calls, n);
    AttemptsEndRight(q, solver, calls, n);
    ChosenIsLastAnswer(q, solver, calls, n);
    StatusMeaning(q, solver, calls, n);
    forall k: nat ensures NthOutcome(q, solver, calls, k) == Reply(q, solver, calls, k) {}
    if t.status == BackendError {
      forall k | 0 <= k < t.used ensures Reply(q, solver, calls, k) == Fails {
        assert NthOutcome(q, solver, calls, k).Fails?;
      }
    } else {
      var k: nat :| LastAnswer(q, solver, calls, t.used, k) && NthOutcome(q, solver, calls, k) == Answers(t.chosen);
      assert Reply(q, solver, calls, k) == Answers(t.chosen);
      forall j: nat | k < j < t.used ensures Reply(q, solver, calls, j) == Fails {
        assert NthOutcome(q, solver, calls, j).Fails?;
      }
    }
  }

  /** Different questions of different years have different files. */
  lemma PathsTellApart(q: Question, r: Question)
    ensures PathOf(q) == PathOf(r) <==> q.id == r.id && q.year == r.year
  {
  }

  // ---- What is stored ----

  /** The latest record written for a path is what the calls made at that point came to, and a batch that
      does not skip leaves nothing out. */
  lemma {:induction false} StoredIsExplained(files: Files, calls: nat, qs: seq<Question>, solver: Solver, skip: bool,
                                             maxAttempts: int, i: nat)
    requires var log := Run(files, calls, qs, solver, skip, maxAttempts).log;
      && i < |log| <= |qs| && log[i] == Stored(PathOf(qs[i]))
      && forall j :: i < j < |log| ==> log[j] != log[i]
    ensures var e := Run(files, calls, qs, solver, skip, maxAttempts);
      && PathOf(qs[i]) in e.files
      && e.files[PathOf(qs[i])]
         == Explain(qs[i], solver, Run(files, calls, qs[..i], solver, skip, maxAttempts).calls, maxAttempts)
  {
    hide Explain, Count, Tally, FailuresSinceStored, StopsInTime;
    var n := |qs| - 1;
    var before := Run(files, calls, qs[..n], solver, skip, maxAttempts);
    var e := Run(files, calls, qs, solver, skip, maxAttempts);
    CountsAddUp(files, calls, qs[..n], solver, skip, maxAttempts);
    if i < |before.log| {
      assert qs[..n][..i] == qs[..i];
      assert before.log[i] == e.log[i] && qs[..n][i] == qs[i];
      assert forall j :: i < j < |before.log| ==> before.log[j] == e.log[j];
      StoredIsExplained(files, calls, qs[..n], solver, skip, maxAttempts, i);
      assert |e.log| > |before.log| ==> e.log[|before.log|] != e.log[i];
    } else {
      assert i == n && qs[..i] == qs[..n];
    }
  }

  /** A batch told not to skip skips nothing. */
  lemma {:induction false} NothingSkipped(b: Batch, qs: seq<Question>, solver: Solver, maxAttempts: int)
    ensures var e := RunFrom(b, qs, solver, false, maxAttempts);
      e.counts.skipped == b.counts.skipped && forall i :: |b.log| <= i < |e.log| ==> !e.log[i].Skipped?
  {
    if qs != [] { NothingSkipped(b, qs[..|qs| - 1], solver, maxAttempts); }
  }

  /** With skipping on a question is skipped exactly if its file is there when its turn comes. */
  lemma SkippedIff(b: Batch, q: Question, solver: Solver, maxAttempts: int)
    requires !b.stopped
    ensures var e := Process(b, q, solver, true, maxAttempts);
      && |e.log| == |b.log| + 1
      && (e.log[|b.log|] == Skipped(PathOf(q)) <==> PathOf(q) in b.files)
      && (PathOf(q) in b.files ==> e.files == b.files && e.calls == b.calls)
      && (PathOf(q) !in b.files ==> e.calls == b.calls + Explain(q, solver, b.calls, maxAttempts).attempts)
  {
  }

  // ---- What the counters count ----

  /** The files with this status that were not there before. */
  ghost function New(before: Files, after: Files, s: Status): set<Path> {
    set p | p in after && p !in before && after[p].status == s
  }

  ghost predicate CountsNew(files: Files, e: Batch) {
    && e.counts.verified == |New(files, e.files, Verified)|
    && e.counts.mismatch == |New(files, e.files, Mismatch)|
    && e.counts.parseFailed == |New(files, e.files, ParseFailed)|
    && |New(files, e.files, BackendError)| == 0
  }

  lemma NewAfterStore(base: Files, files: Files, p: Path, r: Record, s: Status)
    requires p !in base && p !in files
    ensures |New(base, files[p := r], s)| == |New(base, files, s)| + if r.status == s then 1 else 0
  {
    assert New(base, files[p := r], s) == New(base, files, s) + if r.status == s then {p} else {};
  }

  /** Each counter of a resumable batch is the number of records of that status that it added. */
  lemma {:induction false} CountersCountRecords(files: Files, calls: nat, qs: seq<Question>, solver: Solver,
                                                maxAttempts: int)
    ensures CountsNew(files, Run(files, calls, qs, solver, true, maxAttempts))
  {
    hide Explain, New;
    if qs == [] {
      NothingNewYet(files);
    } else {
      var n := |qs| - 1;
      var before := Run(files, calls, qs[..n], solver, true, maxAttempts);
      CountersCountRecords(files, calls, qs[..n], solver, maxAttempts);
      RunKeepsFiles(Begin(files, calls), qs[..n], solver, maxAttempts);
      var p, r := PathOf(qs[n]), Explain(qs[n], solver, before.calls, maxAttempts);
      if !before.stopped && p !in before.files && r.status != BackendError {
        forall s
          ensures |New(files, before.files[p := r], s)|
               == |New(files, before.files, s)| + if r.status == s then 1 else 0
        {
          NewAfterStore(files, before.files, p, r, s);
        }
      }
    }
  }

  lemma NothingNewYet(files: Files)
    ensures forall s :: New(files, files, s) == {}
  {
  }

  // ---- The fifth failure ----

  /** The failures behind the last stored record. */
  ghost function RecentFailures(log: seq<Event>): set<nat> {
    set i: nat | i < |log| && log[i].Failed? && forall j :: i < j < |log| ==> !log[j].Stored?
  }

  lemma {:induction false} RecentFailuresCount(log: seq<Event>)
    ensures |RecentFailures(log)| == FailuresSinceStored(log)
  {
    if log != [] {
      var n := |log| - 1;
      RecentFailuresCount(log[..n]);
      if log[n].Stored? {
        assert RecentFailures(log) == {};
      } else {
        assert RecentFailures(log) == RecentFailures(log[..n]) + if log[n].Failed? then {n} else {};
      }
    }
  }

  /** A batch stops exactly when five questions have failed since the last stored record; it then handles
      no further question, and until then every one. */
  lemma StopsOnTheFifth(files: Files, calls: nat, qs: seq<Question>, solver: Solver, skip: bool, maxAttempts: int)
    ensures var e := Run(files, calls, qs, solver, skip, maxAttempts);
      && (e.stopped <==> |RecentFailures(e.log)| == 5) && |RecentFailures(e.log)| <= 5
      && (e.stopped ==> e.log != [] && e.log[|e.log| - 1].Failed?)
      && (!e.stopped ==> |e.log| == |qs|)
      && forall k :: 0 <= k < |e.log| ==> |RecentFailures(e.log[..k])| < 5
  {
    hide RecentFailures, RunFrom;
    var e := Run(files, calls, qs, solver, skip, maxAttempts);
    CountsAddUp(files, calls, qs, solver, skip, maxAttempts);
    RecentFailuresCount(e.log);
    forall k | 0 <= k < |e.log| ensures |RecentFailures(e.log[..k])| < 5 { RecentFailuresCount(e.log[..k]); }
    if e.stopped {
      assert e.log != [];
      assert FailuresSinceStored(e.log[..|e.log| - 1]) < 5;
    }
  }
}
