/** The explanation batch: blind solving with retries, and checkpoint files that make a batch resumable. */
module Explanations {

  /** One call to the solver fails in the backend, or answers a choice; -1 is an answer nobody could parse. */
  datatype Outcome = Fails | Answers(index: int)

  datatype Status = Verified | Mismatch | ParseFailed | BackendError

  /** `year` is 0 for a question without one, as in the file path. */
  datatype Question = Question(id: string, year: int, key: int)

  datatype Record = Record(id: string, key: int, chosen: int, answerMatch: bool, status: Status, attempts: nat)

  datatype Path = Path(year: int, id: string)

  function PathOf(q: Question): Path {
    Path(q.year, q.id)
  }

  /** What the solver does on its `n`-th call, counted over all batches, when shown a question. */
  type Solver = (Question, nat) -> Outcome

  // ---- One question ----

  /** The state of the retry loop. */
  datatype Trial = Trial(chosen: int, status: Status, used: nat)

  const UNTRIED := Trial(-1, BackendError, 0)

  function StatusOf(q: Question, index: int): Status {
    if index == q.key then Verified else if index == -1 then ParseFailed else Mismatch
  }

  function Try(q: Question, t: Trial, outcome: Outcome): Trial {
    match outcome
    case Fails => t.(used := t.used + 1)
    case Answers(i) => Trial(i, StatusOf(q, i), t.used + 1)
  }

  /** The first `n` attempts; a right answer ends them. */
  function Attempts(q: Question, solver: Solver, calls: nat, n: nat): Trial {
    if n == 0 then UNTRIED
    else
      var t := Attempts(q, solver, calls, n - 1);
      if t.status == Verified then t else Try(q, t, solver(q, calls + t.used))
  }

  function Limit(maxAttempts: int): nat {
    if maxAttempts < 0 then 0 else maxAttempts
  }

  function Explain(q: Question, solver: Solver, calls: nat, maxAttempts: int): Record {
    var t := Attempts(q, solver, calls, Limit(maxAttempts));
    Record(q.id, q.key, t.chosen, t.chosen == q.key, t.status, t.used)
  }

  method GenerateExplanation(q: Question, solver: Solver, calls: nat, maxAttempts: int) returns (r: Record)
    ensures r == Explain(q, solver, calls, maxAttempts)
  {
    var chosen, status, used := -1, BackendError, 0;
    for attempt := 0 to Limit(maxAttempts)
      invariant used == attempt && status != Verified
      invariant Attempts(q, solver, calls, attempt) == Trial(chosen, status, used)
    {
      used := attempt + 1;
      var outcome := solver(q, calls + attempt);
      if outcome.Fails? {
        continue;
      }
      chosen := outcome.index;
      if chosen == q.key {
        status := Verified;
        VerifiedStays(q, solver, calls, attempt + 1, Limit(maxAttempts));
        break;
      }
      status := if chosen == -1 then ParseFailed else Mismatch;
    }
    r := Record(q.id, q.key, chosen, chosen == q.key, status, used);
  }

  lemma {:induction false} VerifiedStays(q: Question, solver: Solver, calls: nat, m: nat, n: nat)
    requires m <= n && Attempts(q, solver, calls, m).status == Verified
    ensures Attempts(q, solver, calls, n) == Attempts(q, solver, calls, m)
  {
    if m < n { VerifiedStays(q, solver, calls, m, n - 1); }
  }

  /** Attempt `k` is made only while no earlier one was right; it is then call number calls + k. */
  lemma {:induction false} AttemptsCount(q: Question, solver: Solver, calls: nat, n: nat)
    ensures Attempts(q, solver, calls, n).used <= n
    ensures Attempts(q, solver, calls, n).status != Verified ==> Attempts(q, solver, calls, n).used == n
  {
    if n > 0 { AttemptsCount(q, solver, calls, n - 1); }
  }

  function NthOutcome(q: Question, solver: Solver, calls: nat, k: nat): Outcome {
    solver(q, calls + k)
  }

  /** What the final status says about the calls that were allowed:
      verified - one of them gave the key;
      backend error - every one of them failed;
      otherwise - none gave the key, and the last answer was a wrong one or could not be parsed. */
  lemma {:induction false} StatusMeaning(q: Question, solver: Solver, calls: nat, n: nat)
    ensures var t := Attempts(q, solver, calls, n);
      && (t.status == Verified <==> exists k: nat :: k < n && NthOutcome(q, solver, calls, k) == Answers(q.key))
      && (t.status == BackendError <==> forall k: nat :: k < n ==> NthOutcome(q, solver, calls, k).Fails?)
      && (t.status != BackendError ==> (t.status == Verified <==> t.chosen == q.key))
      && (t.status == ParseFailed ==> t.chosen == -1) && (t.status == Mismatch ==> t.chosen != -1)
  {
    if n > 0 {
      StatusMeaning(q, solver, calls, n - 1);
      AttemptsCount(q, solver, calls, n - 1);
      var before := Attempts(q, solver, calls, n - 1);
      if before.status != Verified {
        assert NthOutcome(q, solver, calls, n - 1) == solver(q, calls + before.used);
      } else {
        var k: nat :| k < n - 1 && NthOutcome(q, solver, calls, k) == Answers(q.key);
        assert k < n && !NthOutcome(q, solver, calls, k).Fails?;
      }
    }
  }

  /** Of `n` calls, number `k` was answered and all later ones failed. */
  ghost predicate LastAnswer(q: Question, solver: Solver, calls: nat, n: nat, k: nat) {
    && k < n && NthOutcome(q, solver, calls, k).Answers?
    && forall j: nat :: k < j < n ==> NthOutcome(q, solver, calls, j).Fails?
  }

  /** The answer kept is the last one given; without any, it counts as unparsed. */
  lemma {:induction false} ChosenIsLastAnswer(q: Question, solver: Solver, calls: nat, n: nat)
    ensures var t := Attempts(q, solver, calls, n);
      && (t.status == BackendError ==> t.chosen == -1)
      && (t.status != BackendError ==>
            && t.status == StatusOf(q, t.chosen)
            && exists k :: LastAnswer(q, solver, calls, t.used, k)
                        && NthOutcome(q, solver, calls, k) == Answers(t.chosen))
  {
    hide LastAnswer;
    if n > 0 {
      ChosenIsLastAnswer(q, solver, calls, n - 1);
      var before := Attempts(q, solver, calls, n - 1);
      if before.status != Verified {
        var outcome := NthOutcome(q, solver, calls, before.used);
        if outcome.Answers? {
          AnsweredLast(q, solver, calls, before.used);
        } else if before.status != BackendError {
          var k :| LastAnswer(q, solver, calls, before.used, k)
                && NthOutcome(q, solver, calls, k) == Answers(before.chosen);
          FailedSince(q, solver, calls, before.used, k);
        }
      }
    }
  }

  lemma AnsweredLast(q: Question, solver: Solver, calls: nat, n: nat)
    requires NthOutcome(q, solver, calls, n).Answers?
    ensures LastAnswer(q, solver, calls, n + 1, n)
  {
  }

  lemma FailedSince(q: Question, solver: Solver, calls: nat, n: nat, k: nat)
    requires LastAnswer(q, solver, calls, n, k) && NthOutcome(q, solver, calls, n).Fails?
    ensures LastAnswer(q, solver, calls, n + 1, k)
  {
  }

  // ---- The batch ----

  type Files = map<Path, Record>

  datatype Counts = Counts(skipped: nat, verified: nat, mismatch: nat, parseFailed: nat, backendError: nat)

  /** What happened to a question. */
  datatype Event = Skipped(path: Path) | Stored(path: Path) | Failed(path: Path)

  /** A batch under way: the files, the calls made so far, the counts, the run of backend errors, and
      what happened question by question. */
  datatype Batch = Batch(files: Files, calls: nat, counts: Counts, streak: nat, stopped: bool, log: seq<Event>)

  const STOP_AFTER := 5

  function Count(c: Counts, s: Status): Counts {
    match s
    case Verified => c.(verified := c.verified + 1)
    case Mismatch => c.(mismatch := c.mismatch + 1)
    case ParseFailed => c.(parseFailed := c.parseFailed + 1)
    case BackendError => c.(backendError := c.backendError + 1)
  }

  function Handled(c: Counts): nat {
    c.skipped + c.verified + c.mismatch + c.parseFailed + c.backendError
  }

  function Process(b: Batch, q: Question, solver: Solver, skipExisting: bool, maxAttempts: int): Batch {
    if b.stopped then b
    else if skipExisting && PathOf(q) in b.files then
      b.(counts := b.counts.(skipped := b.counts.skipped + 1), log := b.log + [Skipped(PathOf(q))])
    else
      var r := Explain(q, solver, b.calls, maxAttempts);
      var b1 := b.(calls := b.calls + r.attempts, counts := Count(b.counts, r.status));
      if r.status == BackendError then
        b1.(streak := b.streak + 1, stopped := b.streak + 1 >= STOP_AFTER, log := b.log + [Failed(PathOf(q))])
      else
        b1.(streak := 0, files := b.files[PathOf(q) := r], log := b.log + [Stored(PathOf(q))])
  }

  function Begin(files: Files, calls: nat): Batch {
    Batch(files, calls, Counts(0, 0, 0, 0, 0), 0, false, [])
  }

  function RunFrom(b: Batch, qs: seq<Question>, solver: Solver, skipExisting: bool, maxAttempts: int): Batch {
    if qs == [] then b
    else
      var before := RunFrom(b, qs[..|qs| - 1], solver, skipExisting, maxAttempts);
      Process(before, qs[|qs| - 1], solver, skipExisting, maxAttempts)
  }

  function Run(files: Files, calls: nat, qs: seq<Question>, solver: Solver, skipExisting: bool,
               maxAttempts: int): Batch {
    RunFrom(Begin(files, calls), qs, solver, skipExisting, maxAttempts)
  }

  lemma {:induction false} RunSplit(b: Batch, qs: seq<Question>, more: seq<Question>, solver: Solver, skip: bool,
                                    maxAttempts: int)
    ensures RunFrom(b, qs + more, solver, skip, maxAttempts)
         == RunFrom(RunFrom(b, qs, solver, skip, maxAttempts), more, solver, skip, maxAttempts)
  {
    if more == [] {
      assert qs + more == qs;
    } else {
      assert (qs + more)[..|qs + more| - 1] == qs + more[..|more| - 1];
      RunSplit(b, qs, more[..|more| - 1], solver, skip, maxAttempts);
    }
  }

  lemma {:induction false} StoppedStays(b: Batch, qs: seq<Question>, solver: Solver, skip: bool, maxAttempts: int)
    requires b.stopped
    ensures RunFrom(b, qs, solver, skip, maxAttempts) == b
  {
    if qs != [] { StoppedStays(b, qs[..|qs| - 1], solver, skip, maxAttempts); }
  }

  lemma NothingRun(files: Files, calls: nat, solver: Solver, skip: bool, maxAttempts: int)
    ensures Run(files, calls, [], solver, skip, maxAttempts) == Begin(files, calls)
  {
  }

  lemma RunNext(files: Files, calls: nat, qs: seq<Question>, i: nat, solver: Solver, skip: bool, maxAttempts: int)
    requires i < |qs|
    ensures Run(files, calls, qs[..i + 1], solver, skip, maxAttempts)
         == Process(Run(files, calls, qs[..i], solver, skip, maxAttempts), qs[i], solver, skip, maxAttempts)
  {
    hide Process;
    assert qs[..i + 1][..i] == qs[..i];
  }

  /** Once stopped, a batch looks at no further question. */
  lemma StoppedForGood(files: Files, calls: nat, qs: seq<Question>, i: nat, solver: Solver, skip: bool,
                       maxAttempts: int)
    requires i <= |qs| && Run(files, calls, qs[..i], solver, skip, maxAttempts).stopped
    ensures Run(files, calls, qs, solver, skip, maxAttempts) == Run(files, calls, qs[..i], solver, skip, maxAttempts)
  {
    hide RunFrom;
    assert qs == qs[..i] + qs[i..];
    RunSplit(Begin(files, calls), qs[..i], qs[i..], solver, skip, maxAttempts);
    StoppedStays(Run(files, calls, qs[..i], solver, skip, maxAttempts), qs[i..], solver, skip, maxAttempts);
  }

  /** The output directory, the solver's call counter, and a record of what all batches did. */
  class Workspace {
    var files: Files
    var calls: nat
    ghost var log: seq<Event>

    constructor ()
      ensures files == map[] && calls == 0 && log == []
    {
      files, calls, log := map[], 0, [];
    }

    method RunBatch(qs: seq<Question>, solver: Solver, skipExisting: bool, maxAttempts: int) returns (counts: Counts)
      modifies this
      ensures var b := Run(old(files), old(calls), qs, solver, skipExisting, maxAttempts);
        files == b.files && calls == b.calls && counts == b.counts && log == old(log) + b.log
    {
      hide Run, Explain, Count;
      ghost var events: seq<Event> := [];
      NothingRun(files, calls, solver, skipExisting, maxAttempts);
      counts := Counts(0, 0, 0, 0, 0);
      var consecutive := 0;
      for i := 0 to |qs|
        invariant log == old(log) + events
        invariant Batch(files, calls, counts, consecutive, false, events)
               == Run(old(files), old(calls), qs[..i], solver, skipExisting, maxAttempts)
      {
        RunNext(old(files), old(calls), qs, i, solver, skipExisting, maxAttempts);
        if skipExisting && PathOf(qs[i]) in files {
          counts := counts.(skipped := counts.skipped + 1);
          events, log := events + [Skipped(PathOf(qs[i]))], log + [Skipped(PathOf(qs[i]))];
          continue;
        }
        var r := GenerateExplanation(qs[i], solver, calls, maxAttempts);
        calls := calls + r.attempts;
        counts := Count(counts, r.status);
        if r.status == BackendError {
          consecutive := consecutive + 1;
          events, log := events + [Failed(PathOf(qs[i]))], log + [Failed(PathOf(qs[i]))];
          if consecutive >= STOP_AFTER {
            StoppedForGood(old(files), old(calls), qs, i + 1, solver, skipExisting, maxAttempts);
            return;
          }
          continue;
        }
        consecutive := 0;
        files := files[PathOf(qs[i]) := r];
        events, log := events + [Stored(PathOf(qs[i]))], log + [Stored(PathOf(qs[i]))];
      }
      assert qs[..|qs|] == qs;
    }
  }

  // ---- One batch ----

  /** A stored record is honest: never a backend error, and marked verified exactly on the key. */
  ghost predicate Honest(r: Record) {
    r.status != BackendError && (r.status == Verified <==> r.chosen == r.key) && (r.answerMatch <==> r.chosen == r.key)
  }

  ghost predicate AllHonest(files: Files) {
    forall p :: p in files ==> Honest(files[p])
  }

  /** Nothing stored is ever changed or removed. */
  ghost predicate Keeps(before: Files, after: Files) {
    forall p :: p in before ==> p in after && after[p] == before[p]
  }

  lemma {:induction false} RunKeepsFiles(b: Batch, qs: seq<Question>, solver: Solver, maxAttempts: int)
    ensures Keeps(b.files, RunFrom(b, qs, solver, true, maxAttempts).files)
  {
    if qs != [] { RunKeepsFiles(b, qs[..|qs| - 1], solver, maxAttempts); }
  }

  /** Whatever the solver does and whether or not files are skipped, the stored records stay honest. */
  lemma {:induction false} RunStaysHonest(b: Batch, qs: seq<Question>, solver: Solver, skip: bool, maxAttempts: int)
    requires AllHonest(b.files)
    ensures AllHonest(RunFrom(b, qs, solver, skip, maxAttempts).files)
  {
    if qs != [] {
      var before := RunFrom(b, qs[..|qs| - 1], solver, skip, maxAttempts);
      RunStaysHonest(b, qs[..|qs| - 1], solver, skip, maxAttempts);
      StatusMeaning(qs[|qs| - 1], solver, before.calls, Limit(maxAttempts));
    }
  }

  lemma {:induction false} CountsGrow(b: Batch, qs: seq<Question>, solver: Solver, skip: bool, maxAttempts: int)
    requires !b.stopped && b.streak < STOP_AFTER
    ensures var e := RunFrom(b, qs, solver, skip, maxAttempts);
      e.counts.backendError >= b.counts.backendError && (e.stopped ==> e.counts.backendError > b.counts.backendError)
  {
    if qs != [] { CountsGrow(b, qs[..|qs| - 1], solver, skip, maxAttempts); }
  }

  /** The number of backend errors since the last stored record; skipped questions do not interrupt a run of them. */
  function FailuresSinceStored(log: seq<Event>): nat {
    if log == [] then 0
    else
      match log[|log| - 1]
      case Stored(_) => 0
      case Failed(_) => FailuresSinceStored(log[..|log| - 1]) + 1
      case Skipped(_) => FailuresSinceStored(log[..|log| - 1])
  }

  /** How many skipped, stored and failed questions a log tells of. */
  function Tally(log: seq<Event>): (int, int, int) {
    if log == [] then (0, 0, 0)
    else
      var (skipped, stored, failed) := Tally(log[..|log| - 1]);
      match log[|log| - 1]
      case Skipped(_) => (skipped + 1, stored, failed)
      case Stored(_) => (skipped, stored + 1, failed)
      case Failed(_) => (skipped, stored, failed + 1)
  }

  function Answered(c: Counts): nat {
    c.verified + c.mismatch + c.parseFailed
  }

  /** The log and the counts tell the same about the questions handled so far. */
  ghost predicate Accounts(e: Batch, qs: seq<Question>) {
    && |e.log| <= |qs| && (forall i :: 0 <= i < |e.log| ==> e.log[i].path == PathOf(qs[i]))
    && Tally(e.log) == (e.counts.skipped, Answered(e.counts), e.counts.backendError)
    && Handled(e.counts) == |e.log|
  }

  /** The batch stopped exactly if the fifth backend error since the last stored record was its last event. */
  ghost predicate StopsInTime(e: Batch) {
    && e.streak == FailuresSinceStored(e.log) <= STOP_AFTER && (e.stopped <==> e.streak == STOP_AFTER)
    && forall k :: 0 <= k < |e.log| ==> FailuresSinceStored(e.log[..k]) < STOP_AFTER
  }

  /** How the counts, the streak and the stop follow from one more event. */
  ghost predicate Follows(before: Batch, e: Batch, x: Event) {
    && e.log == before.log + [x]
    && match x
       case Skipped(_) =>
         && e.counts == before.counts.(skipped := before.counts.skipped + 1)
         && e.streak == before.streak && e.stopped == before.stopped
       case Stored(_) =>
         && (exists st :: st != BackendError && e.counts == Count(before.counts, st))
         && e.streak == 0 && !e.stopped
       case Failed(_) =>
         && e.counts == Count(before.counts, BackendError)
         && e.streak == before.streak + 1 && (e.stopped <==> e.streak >= STOP_AFTER)
  }

  lemma AppendEvent(log: seq<Event>, x: Event)
    ensures FailuresSinceStored(log + [x])
         == if x.Stored? then 0 else FailuresSinceStored(log) + if x.Failed? then 1 else 0
    ensures var (skipped, stored, failed) := Tally(log);
      Tally(log + [x]) == (skipped + if x.Skipped? then 1 else 0, stored + if x.Stored? then 1 else 0,
                           failed + if x.Failed? then 1 else 0)
  {
    assert (log + [x])[..|log|] == log;
  }

  lemma AccountsGrow(before: Batch, e: Batch, qs: seq<Question>, q: Question, x: Event)
    requires Accounts(before, qs) && |before.log| == |qs| && Follows(before, e, x) && x.path == PathOf(q)
    ensures Accounts(e, qs + [q])
  {
    hide Tally, FailuresSinceStored;
    AppendEvent(before.log, x);
  }

  lemma StopsGrow(before: Batch, e: Batch, x: Event)
    requires !before.stopped && StopsInTime(before) && Follows(before, e, x)
    ensures StopsInTime(e)
  {
    hide Tally, FailuresSinceStored, Count;
    AppendEvent(before.log, x);
    forall k | 0 <= k < |e.log| ensures FailuresSinceStored(e.log[..k]) < STOP_AFTER {
      assert e.log[..k] == before.log[..k];
      if k == |before.log| { assert before.log[..k] == before.log; }
    }
  }

  /** A batch handles its questions one after the other, and counts every one by what happened to it.
      It stops exactly on the fifth backend error since the last stored record; otherwise it handles all. */
  lemma {:induction false} CountsAddUp(files: Files, calls: nat, qs: seq<Question>, solver: Solver, skip: bool,
                                       maxAttempts: int)
    ensures var e := Run(files, calls, qs, solver, skip, maxAttempts);
      Accounts(e, qs) && StopsInTime(e) && (!e.stopped ==> |e.log| == |qs|)
  {
    hide Explain, FailuresSinceStored, Tally, Accounts, StopsInTime;
    if qs == [] {
      NothingLogged(files, calls);
    } else {
      var n := |qs| - 1;
      assert qs == qs[..n] + [qs[n]];
      CountsAddUp(files, calls, qs[..n], solver, skip, maxAttempts);
      var before := Run(files, calls, qs[..n], solver, skip, maxAttempts);
      var e := Run(files, calls, qs, solver, skip, maxAttempts);
      if before.stopped {
        AccountsLonger(before, qs[..n], qs[n]);
      } else {
        var x := e.log[|e.log| - 1];
        assert Follows(before, e, x) && x.path == PathOf(qs[n]);
        AccountsGrow(before, e, qs[..n], qs[n], x);
        StopsGrow(before, e, x);
      }
    }
  }

  lemma NothingLogged(files: Files, calls: nat)
    ensures Accounts(Begin(files, calls), []) && StopsInTime(Begin(files, calls))
  {
  }

  lemma AccountsLonger(e: Batch, qs: seq<Question>, q: Question)
    requires Accounts(e, qs)
    ensures Accounts(e, qs + [q])
  {
  }

  function Tried(c: Counts): nat {
    c.verified + c.mismatch + c.parseFailed + c.backendError
  }

  /** Only questions that are not skipped cost calls, and each at most the allowed attempts. */
  lemma {:induction false} CallsAreBounded(b: Batch, qs: seq<Question>, solver: Solver, skip: bool, maxAttempts: int)
    ensures var e := RunFrom(b, qs, solver, skip, maxAttempts);
      && Tried(e.counts) >= Tried(b.counts)
      && b.calls <= e.calls <= b.calls + Limit(maxAttempts) * (Tried(e.counts) - Tried(b.counts))
  {
    if qs != [] {
      var n := |qs| - 1;
      var before, after := RunFrom(b, qs[..n], solver, skip, maxAttempts), RunFrom(b, qs, solver, skip, maxAttempts);
      CallsAreBounded(b, qs[..n], solver, skip, maxAttempts);
      AttemptsCount(qs[n], solver, before.calls, Limit(maxAttempts));
      if after.calls != before.calls || Tried(after.counts) != Tried(before.counts) {
        var done := Tried(before.counts) - Tried(b.counts);
        assert Tried(after.counts) - Tried(b.counts) == done + 1;
        assert Limit(maxAttempts) * (done + 1) == Limit(maxAttempts) * done + Limit(maxAttempts);
      }
    }
  }

  /** A batch that met no backend error leaves a record for every one of its questions. */
  lemma {:induction false} CleanRunIsComplete(b: Batch, qs: seq<Question>, solver: Solver, maxAttempts: int)
    requires !b.stopped && b.streak < STOP_AFTER
    requires RunFrom(b, qs, solver, true, maxAttempts).counts.backendError == b.counts.backendError
    ensures forall q :: q in qs ==> PathOf(q) in RunFrom(b, qs, solver, true, maxAttempts).files
  {
    if qs != [] {
      var n := |qs| - 1;
      CountsGrow(b, qs[..n], solver, true, maxAttempts);
      CleanRunIsComplete(b, qs[..n], solver, maxAttempts);
      assert qs == qs[..n] + [qs[n]];
    }
  }

  /** Once every question has its record, running again changes nothing and asks the solver nothing. */
  lemma {:induction false} RerunIsIdle(b: Batch, qs: seq<Question>, solver: Solver, maxAttempts: int)
    requires !b.stopped && forall q :: q in qs ==> PathOf(q) in b.files
    ensures var e := RunFrom(b, qs, solver, true, maxAttempts);
      e == b.(counts := b.counts.(skipped := b.counts.skipped + |qs|), log := e.log)
  {
    if qs != [] {
      assert qs == qs[..|qs| - 1] + [qs[|qs| - 1]];
      RerunIsIdle(b, qs[..|qs| - 1], solver, maxAttempts);
    }
  }

  // ---- Any sequence of batches ----

  datatype Job = Job(questions: seq<Question>, solver: Solver, maxAttempts: int)

  /** The files, the call counter and the log after a sequence of batches with skipping on. */
  datatype Outlook = Outlook(files: Files, calls: nat, log: seq<Event>)

  function After(files: Files, calls: nat, jobs: seq<Job>): Outlook {
    if jobs == [] then Outlook(files, calls, [])
    else
      var o := After(files, calls, jobs[..|jobs| - 1]);
      var j := jobs[|jobs| - 1];
      var b := Run(o.files, o.calls, j.questions, j.solver, true, j.maxAttempts);
      Outlook(b.files, b.calls, o.log + b.log)
  }

  /** Every write adds a file that was not there before, no file is written twice, and every new file
      comes from a write. */
  ghost predicate WrittenOnce(before: Files, log: seq<Event>, after: Files) {
    && (forall i :: 0 <= i < |log| && log[i].Stored? ==> log[i].path !in before && log[i].path in after)
    && (forall i, j :: 0 <= i < j < |log| && log[i].Stored? && log[j].Stored? ==> log[i].path != log[j].path)
    && (forall p :: p in after && p !in before ==> Stored(p) in log)
  }

  lemma StoreWritesOnce(base: Files, log: seq<Event>, files: Files, p: Path, r: Record)
    requires WrittenOnce(base, log, files) && Keeps(base, files) && p !in files
    ensures WrittenOnce(base, log + [Stored(p)], files[p := r]) && Keeps(base, files[p := r])
  {
    var log' := log + [Stored(p)];
    assert log'[|log|] == Stored(p);
    assert forall x :: x in log ==> x in log';
  }

  lemma OtherWritesNothing(base: Files, log: seq<Event>, files: Files, x: Event)
    requires WrittenOnce(base, log, files) && !x.Stored?
    ensures WrittenOnce(base, log + [x], files)
  {
    assert forall y :: y in log ==> y in log + [x];
  }

  lemma {:induction false} RunWritesOnce(base: Files, b: Batch, qs: seq<Question>, solver: Solver, maxAttempts: int)
    requires WrittenOnce(base, b.log, b.files) && Keeps(base, b.files)
    ensures var e := RunFrom(b, qs, solver, true, maxAttempts);
      WrittenOnce(base, e.log, e.files) && Keeps(base, e.files)
  {
    hide WrittenOnce, Keeps, Explain;
    if qs != [] {
      var q := qs[|qs| - 1];
      var before := RunFrom(b, qs[..|qs| - 1], solver, true, maxAttempts);
      RunWritesOnce(base, b, qs[..|qs| - 1], solver, maxAttempts);
      var r := Explain(q, solver, before.calls, maxAttempts);
      if PathOf(q) in before.files {
        OtherWritesNothing(base, before.log, before.files, Skipped(PathOf(q)));
      } else if r.status == BackendError {
        OtherWritesNothing(base, before.log, before.files, Failed(PathOf(q)));
      } else {
        StoreWritesOnce(base, before.log, before.files, PathOf(q), r);
      }
    }
  }

  lemma WritesCompose(f0: Files, log1: seq<Event>, f1: Files, log2: seq<Event>, f2: Files)
    requires WrittenOnce(f0, log1, f1) && WrittenOnce(f1, log2, f2) && Keeps(f0, f1) && Keeps(f1, f2)
    ensures WrittenOnce(f0, log1 + log2, f2) && Keeps(f0, f2)
  {
    var log := log1 + log2;
    assert forall i :: 0 <= i < |log| ==> log[i] == if i < |log1| then log1[i] else log2[i - |log1|];
    assert forall x :: x in log <==> x in log1 || x in log2;
  }

  /** Over any sequence of batches each record is written at most once, only where there was none, and
      never changed afterwards; and every stored record is honest. */
  lemma {:induction false} RecordsAreFinal(files: Files, calls: nat, jobs: seq<Job>)
    requires AllHonest(files)
    ensures var o := After(files, calls, jobs);
      AllHonest(o.files) && Keeps(files, o.files) && WrittenOnce(files, o.log, o.files)
    ensures forall k :: 0 <= k <= |jobs| ==>
      Keeps(After(files, calls, jobs[..k]).files, After(files, calls, jobs).files)
  {
    hide RunFrom, WrittenOnce, Keeps, AllHonest;
    assert jobs[..|jobs|] == jobs;
    if jobs == [] {
      NothingWritten(files);
    } else {
      var front, j := jobs[..|jobs| - 1], jobs[|jobs| - 1];
      RecordsAreFinal(files, calls, front);
      var o := After(files, calls, front);
      var b := Run(o.files, o.calls, j.questions, j.solver, true, j.maxAttempts);
      NothingWritten(o.files);
      NothingWritten(b.files);
      RunStaysHonest(Begin(o.files, o.calls), j.questions, j.solver, true, j.maxAttempts);
      RunWritesOnce(o.files, Begin(o.files, o.calls), j.questions, j.solver, j.maxAttempts);
      WritesCompose(files, o.log, o.files, b.log, b.files);
      forall k | 0 <= k <= |jobs| ensures Keeps(After(files, calls, jobs[..k]).files, b.files) {
        if k < |jobs| {
          assert front[..k] == jobs[..k];
          KeepsOn(After(files, calls, front[..k]).files, o.files, b.files);
        }
      }
    }
  }

  lemma NothingWritten(files: Files)
    ensures WrittenOnce(files, [], files) && Keeps(files, files)
  {
  }

  lemma KeepsOn(f: Files, g: Files, h: Files)
    requires Keeps(f, g) && Keeps(g, h)
    ensures Keeps(f, h)
  {
  }

  // ---- Interruption ----

  /** Two calls that answer the same question give the same answer; any call may fail. */
  ghost predicate Consistent(solver: Solver) {
    forall q, m, n :: solver(q, m).Answers? && solver(q, n).Answers? ==> solver(q, m) == solver(q, n)
  }

  /** Is `r`, but for the number of attempts, what some answer of the solver to `q` leads to? */
  ghost predicate AnswerTo(q: Question, solver: Solver, r: Record) {
    && r == Record(q.id, q.key, r.chosen, r.chosen == q.key, StatusOf(q, r.chosen), r.attempts)
    && exists m :: solver(q, m) == Answers(r.chosen)
  }

  lemma ExplainAnswers(q: Question, solver: Solver, calls: nat, maxAttempts: int)
    requires Explain(q, solver, calls, maxAttempts).status != BackendError
    ensures AnswerTo(q, solver, Explain(q, solver, calls, maxAttempts))
  {
    var t := Attempts(q, solver, calls, Limit(maxAttempts));
    ChosenIsLastAnswer(q, solver, calls, Limit(maxAttempts));
    var k: nat :| LastAnswer(q, solver, calls, t.used, k) && NthOutcome(q, solver, calls, k) == Answers(t.chosen);
    assert solver(q, calls + k) == Answers(t.chosen);
  }

  ghost predicate RecordOf(qs: seq<Question>, solver: Solver, p: Path, r: Record) {
    exists q :: q in qs && PathOf(q) == p && AnswerTo(q, solver, r)
  }

  /** `files` is `base` with records added for some of the questions, each an answer of the solver. */
  ghost predicate Extends(base: Files, files: Files, qs: seq<Question>, solver: Solver) {
    Keeps(base, files) && forall p :: p in files && p !in base ==> RecordOf(qs, solver, p, files[p])
  }

  lemma {:induction false} RunExtends(base: Files, b: Batch, qs: seq<Question>, all: seq<Question>, solver: Solver,
                                      maxAttempts: int)
    requires Extends(base, b.files, all, solver) && forall q :: q in qs ==> q in all
    ensures Extends(base, RunFrom(b, qs, solver, true, maxAttempts).files, all, solver)
  {
    hide Explain, AnswerTo;
    if qs != [] {
      var n := |qs| - 1;
      var before := RunFrom(b, qs[..n], solver, true, maxAttempts);
      assert qs[n] in qs;
      RunExtends(base, b, qs[..n], all, solver, maxAttempts);
      if Explain(qs[n], solver, before.calls, maxAttempts).status != BackendError {
        ExplainAnswers(qs[n], solver, before.calls, maxAttempts);
      }
    }
  }

  /** Batches over some of the questions, cut off or stopped anywhere. */
  ghost predicate Partial(jobs: seq<Job>, qs: seq<Question>, solver: Solver) {
    forall j :: j in jobs ==> j.solver == solver && forall q :: q in j.questions ==> q in qs
  }

  lemma {:induction false} AfterExtends(files: Files, calls: nat, jobs: seq<Job>, qs: seq<Question>, solver: Solver)
    requires Partial(jobs, qs, solver)
    ensures Extends(files, After(files, calls, jobs).files, qs, solver)
  {
    if jobs != [] {
      var front, j := jobs[..|jobs| - 1], jobs[|jobs| - 1];
      assert j in jobs;
      AfterExtends(files, calls, front, qs, solver);
      var o := After(files, calls, front);
      RunExtends(files, Begin(o.files, o.calls), j.questions, qs, solver, j.maxAttempts);
    }
  }

  ghost predicate OwnPaths(qs: seq<Question>) {
    forall q, r :: q in qs && r in qs && PathOf(q) == PathOf(r) ==> q == r
  }

  ghost predicate SameButAttempts(f: Files, g: Files) {
    f.Keys == g.Keys && forall p :: p in f ==> f[p].(attempts := 0) == g[p].(attempts := 0)
  }

  /** Resuming is the same as never having been interrupted: after any batches over some of the
      questions - cut off, stopped by a dead backend, with whatever attempts were allowed - a full batch
      without a backend error leaves the files that one such batch would have left from the start. */
  lemma ResumeIsSeamless(files: Files, calls: nat, jobs: seq<Job>, qs: seq<Question>, solver: Solver,
                         maxAttempts: int, calls': nat, maxAttempts': int)
    requires Consistent(solver) && OwnPaths(qs) && Partial(jobs, qs, solver)
    requires var o := After(files, calls, jobs);
      Run(o.files, o.calls, qs, solver, true, maxAttempts).counts.backendError == 0
    requires Run(files, calls', qs, solver, true, maxAttempts').counts.backendError == 0
    ensures var o := After(files, calls, jobs);
      SameButAttempts(Run(o.files, o.calls, qs, solver, true, maxAttempts).files,
                      Run(files, calls', qs, solver, true, maxAttempts').files)
  {
    hide RunFrom, After, AnswerTo;
    var o := After(files, calls, jobs);
    var resumed := Run(o.files, o.calls, qs, solver, true, maxAttempts);
    var straight := Run(files, calls', qs, solver, true, maxAttempts');
    AfterExtends(files, calls, jobs, qs, solver);
    RunExtends(files, Begin(o.files, o.calls), qs, qs, solver, maxAttempts);
    RunExtends(files, Begin(files, calls'), qs, qs, solver, maxAttempts');
    CleanRunIsComplete(Begin(o.files, o.calls), qs, solver, maxAttempts);
    CleanRunIsComplete(Begin(files, calls'), qs, solver, maxAttempts');
    forall p | p in resumed.files && p !in files
      ensures resumed.files[p].(attempts := 0) == straight.files[p].(attempts := 0)
    {
      var q :| q in qs && PathOf(q) == p && AnswerTo(q, solver, resumed.files[p]);
      var r :| r in qs && PathOf(r) == p && AnswerTo(r, solver, straight.files[p]);
      SameAnswer(q, solver, resumed.files[p], straight.files[p]);
    }
  }

  lemma SameAnswer(q: Question, solver: Solver, r: Record, s: Record)
    requires Consistent(solver) && AnswerTo(q, solver, r) && AnswerTo(q, solver, s)
    ensures r.(attempts := 0) == s.(attempts := 0)
  {
    var m :| solver(q, m) == Answers(r.chosen);
    var n :| solver(q, n) == Answers(s.chosen);
  }

  /** A solver whose answer depends on the question alone, and whose backend never fails. */
  ghost predicate Steady(solver: Solver) {
    forall q, m, n :: solver(q, m) == solver(q, n) && !solver(q, m).Fails?
  }

  /** What such a solver has stored for a question. */
  function Settled(q: Question, solver: Solver, maxAttempts: int): Record {
    Explain(q, solver, 0, maxAttempts)
  }

  lemma {:induction false} SteadyAttempts(q: Question, solver: Solver, calls: nat, n: nat)
    requires Steady(solver)
    ensures Attempts(q, solver, calls, n) == Attempts(q, solver, 0, n)
    ensures n > 0 ==> Attempts(q, solver, calls, n).status != BackendError
  {
    if n > 0 { SteadyAttempts(q, solver, calls, n - 1); }
  }

  /** The files a batch of a steady solver leaves: those it found, and for every new path the record
      of the first question with that path. */
  function FilesAfter(files: Files, qs: seq<Question>, solver: Solver, maxAttempts: int): Files {
    if qs == [] then files
    else
      var f := FilesAfter(files, qs[..|qs| - 1], solver, maxAttempts);
      var q := qs[|qs| - 1];
      if PathOf(q) in f then f else f[PathOf(q) := Settled(q, solver, maxAttempts)]
  }

  lemma {:induction false} SteadyRun(b: Batch, qs: seq<Question>, solver: Solver, maxAttempts: int)
    requires Steady(solver) && maxAttempts > 0 && !b.stopped
    ensures var e := RunFrom(b, qs, solver, true, maxAttempts);
      e.files == FilesAfter(b.files, qs, solver, maxAttempts) && !e.stopped
  {
    if qs != [] {
      var n := |qs| - 1;
      SteadyRun(b, qs[..n], solver, maxAttempts);
      SteadyAttempts(qs[n], solver, RunFrom(b, qs[..n], solver, true, maxAttempts).calls, maxAttempts);
    }
  }

  lemma {:induction false} FilesAfterCovers(files: Files, qs: seq<Question>, solver: Solver, maxAttempts: int)
    ensures forall q :: q in qs ==> PathOf(q) in FilesAfter(files, qs, solver, maxAttempts)
  {
    hide Settled;
    if qs != [] {
      var n := |qs| - 1;
      FilesAfterCovers(files, qs[..n], solver, maxAttempts);
      assert qs == qs[..n] + [qs[n]];
    }
  }

  lemma {:induction false} FilesAfterResume(files: Files, qs: seq<Question>, k: nat, solver: Solver, maxAttempts: int)
    requires k <= |qs|
    ensures FilesAfter(FilesAfter(files, qs[..k], solver, maxAttempts), qs, solver, maxAttempts)
         == FilesAfter(files, qs, solver, maxAttempts)
  {
    hide Settled, PathOf;
    if k < |qs| {
      var n := |qs| - 1;
      assert qs[..n][..k] == qs[..k];
      FilesAfterResume(files, qs[..n], k, solver, maxAttempts);
    } else {
      assert qs[..k] == qs;
      FilesAfterCovers(files, qs, solver, maxAttempts);
      NothingNew(FilesAfter(files, qs, solver, maxAttempts), qs, solver, maxAttempts);
    }
  }

  lemma {:induction false} NothingNew(files: Files, qs: seq<Question>, solver: Solver, maxAttempts: int)
    requires forall q :: q in qs ==> PathOf(q) in files
    ensures FilesAfter(files, qs, solver, maxAttempts) == files
  {
    if qs != [] {
      assert qs == qs[..|qs| - 1] + [qs[|qs| - 1]];
      NothingNew(files, qs[..|qs| - 1], solver, maxAttempts);
    }
  }

  /** With a steady solver even the attempts agree: a batch cut off after any number of questions and
      then run in full leaves the very files of one uninterrupted batch. */
  lemma SteadyResumeIsExact(files: Files, calls: nat, calls': nat, qs: seq<Question>, k: nat, solver: Solver,
                            maxAttempts: int)
    requires Steady(solver) && maxAttempts > 0 && k <= |qs|
    ensures var cut := Run(files, calls, qs[..k], solver, true, maxAttempts);
      Run(cut.files, calls', qs, solver, true, maxAttempts).files
      == Run(files, calls, qs, solver, true, maxAttempts).files
  {
    SteadyRun(Begin(files, calls), qs[..k], solver, maxAttempts);
    SteadyRun(Begin(files, calls), qs, solver, maxAttempts);
    SteadyRun(Begin(FilesAfter(files, qs[..k], solver, maxAttempts), calls'), qs, solver, maxAttempts);
    FilesAfterResume(files, qs, k, solver, maxAttempts);
  }
}
