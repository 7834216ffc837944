/** Only a clear exam comes back from the splitter: what each way of being unclear does. */
module ExamClarity {
  import opened ExamRendering
  import opened ExamText

  // ---- What a block yields ----

  lemma StripIsTrimmed(t: Text)
    ensures Trimmed(Strip(t)) && |Strip(t)| <= |t|
    ensures NoMark(t) ==> NoMark(Strip(t))
  {
    if t != [] && t[0] == Blank {
      StripIsTrimmed(t[1..]);
    } else if t != [] && t[|t| - 1] == Blank {
      StripIsTrimmed(t[..|t| - 1]);
    }
  }

  /** Marks stand only where parts begin. */
  lemma {:induction false} PartsAreUnmarked(b: Text)
    ensures NoMark(Parts(b)[0])
    ensures forall k :: 1 <= k < |Parts(b)| ==> Parts(b)[k] != [] && NoMark(Parts(b)[k][1..])
  {
    if b != [] {
      PartsAreUnmarked(b[..|b| - 1]);
      var p, x := Parts(b[..|b| - 1]), b[|b| - 1];
      var last := p[|p| - 1];
      if !x.Mark? && |p| > 1 { assert (last + [x])[1..] == last[1..] + [x]; }
    }
  }

  /** The stem that a block yields before premises and shared data are put in front. */
  function BareStem(b: Text): Text {
    var parts := Parts(b);
    Strip(RemoveNum(if LastFive(parts) then Join(parts[..|parts| - 5]) else parts[0]))
  }

  /** Whatever the block, its choices come out trimmed and without marks. */
  lemma ParsedIsPlain(b: Text, number: nat, blocks: Blocks, notes: seq<string>)
    ensures var q := ParseBlock(b, number, blocks, notes);
      && q.stem == FullStem(BareStem(b), number, blocks, notes) && Trimmed(BareStem(b))
      && forall k :: 0 <= k < |q.choices| ==> Trimmed(q.choices[k]) && NoMark(q.choices[k])
  {
    hide Parts, Strip, RemoveNum, Join, FullStem, Trimmed, NoMark;
    var parts := Parts(b);
    PartsAreUnmarked(b);
    forall t: Text ensures Trimmed(Strip(t)) && (NoMark(t) ==> NoMark(Strip(t))) { StripIsTrimmed(t); }
    var q := ParseBlock(b, number, blocks, notes);
    forall k | 0 <= k < |q.choices| ensures Trimmed(q.choices[k]) && NoMark(q.choices[k]) {
      var j := if LastFive(parts) then |parts| - 5 + k else 1 + k;
      assert q.choices[k] == ChoiceOf(parts[j]);
    }
  }

  function Length(ts: seq<Text>): nat {
    if ts == [] then 0 else Length(ts[..|ts| - 1]) + |ts[|ts| - 1]|
  }

  lemma {:induction false} LengthConcat(s: seq<Text>, t: seq<Text>)
    ensures Length(s + t) == Length(s) + Length(t)
  {
    if t == [] {
      assert s + t == s;
    } else {
      LengthConcat(s, t[..|t| - 1]);
      assert (s + t)[..|s + t| - 1] == s + t[..|t| - 1];
    }
  }

  lemma {:induction false} JoinLength(ts: seq<Text>)
    ensures |Join(ts)| == Length(ts)
  {
    if ts != [] { JoinLength(ts[..|ts| - 1]); }
  }

  lemma {:induction false} ChoicesAreShorter(parts: seq<Text>)
    requires forall k :: 0 <= k < |parts| ==> parts[k] != []
    ensures Length(ChoicesOf(parts)) + |parts| <= Length(parts)
  {
    if parts != [] {
      var front, last := parts[..|parts| - 1], parts[|parts| - 1];
      ChoicesAreShorter(front);
      StripIsTrimmed(last[1..]);
      assert ChoicesOf(parts)[..|parts| - 1] == ChoicesOf(front);
    }
  }

  lemma RemoveNumShortens(t: Text)
    requires t != [] && t[0].Num?
    ensures |RemoveNum(t)| == |t| - 1
  {
  }

  lemma {:induction false} FirstPartStarts(b: Text)
    requires b != [] && b[0].Num?
    ensures Parts(b)[0] != [] && Parts(b)[0][0] == b[0]
  {
    if |b| > 1 {
      FirstPartStarts(b[..|b| - 1]);
    } else {
      assert b[..0] == [] && Parts([]) == [[]];
    }
  }

  lemma {:induction false} JoinStarts(ts: seq<Text>)
    requires ts != [] && ts[0] != []
    ensures Join(ts) != [] && Join(ts)[0] == ts[0][0]
  {
    if |ts| > 1 {
      JoinStarts(ts[..|ts| - 1]);
    } else {
      assert Join(ts[..0]) == [];
    }
  }

  /** A block must hold everything it yields: its number, its stem, five marks and five choices. */
  lemma BlockHoldsQuestion(b: Text, number: nat, blocks: Blocks, notes: seq<string>)
    requires b != [] && b[0].Num?
    requires |ParseBlock(b, number, blocks, notes).choices| == 5
    ensures |BareStem(b)| + 6 + Length(ParseBlock(b, number, blocks, notes).choices) <= |b|
  {
    hide Parts, Strip, RemoveNum, Join, FullStem, Length, ChoicesOf;
    var parts := Parts(b);
    var n := |parts|;
    PartsJoin(b);
    JoinLength(parts);
    PartsAreUnmarked(b);
    FirstPartStarts(b);
    var k := if LastFive(parts) then n - 5 else 1;
    var init, rest := parts[..k], parts[k..];
    assert parts == init + rest;
    LengthConcat(init, rest);
    JoinLength(init);
    JoinStarts(init);
    if !LastFive(parts) { JoinOne(parts[0]); assert init == [parts[0]]; }
    RemoveNumShortens(Join(init));
    StripIsTrimmed(RemoveNum(Join(init)));
    assert rest == rest[..5] + rest[5..];
    LengthConcat(rest[..5], rest[5..]);
    ChoicesAreShorter(rest[..5]);
    assert LastFive(parts) ==> rest[..5] == rest;
    assert !LastFive(parts) ==> rest[..5] == if n <= 6 then parts[1..] else parts[1..6];
    assert ParseBlock(b, number, blocks, notes).choices == ChoicesOf(rest[..5]);
  }

  lemma JoinOne(t: Text)
    ensures Join([t]) == t
  {
    assert Join([t][..0]) == [];
  }

  lemma FullStemIsInjective(s: Text, t: Text, number: nat, blocks: Blocks, notes: seq<string>)
    requires FullStem(s, number, blocks, notes) == FullStem(t, number, blocks, notes)
    ensures s == t
  {
    var f, g := FullStem(s, number, blocks, notes), FullStem(t, number, blocks, notes);
    assert s == f[|f| - |s|..] && t == g[|g| - |t|..];
  }

  lemma BodyLength(q: Question)
    requires |q.choices| == 5
    ensures |Body(q)| == |q.stem| + 6 + Length(q.choices)
  {
    var c := q.choices;
    assert c[..5] == c && c[..4] == c[..5][..4] && c[..3] == c[..4][..3] && c[..2] == c[..3][..2];
    assert c[..1] == c[..2][..1];
    assert Length(c[..5]) == Length(c[..4]) + |c[4]| && Length(c[..4]) == Length(c[..3]) + |c[3]|;
    assert Length(c[..3]) == Length(c[..2]) + |c[2]| && Length(c[..2]) == Length(c[..1]) + |c[1]|;
    assert Length(c[..1]) == |c[0]|;
  }

  lemma FirstMarker(s: Text, next: nat) returns (m: nat)
    requires !NoStart(s, next)
    ensures m < |s| && Acceptable(s[m], next) && forall i :: 0 <= i < m ==> !Acceptable(s[i], next)
    decreases |s|
  {
    m :| m < |s| && Acceptable(s[m], next);
    if !NoStart(s[..m], next) { m := FirstMarker(s[..m], next); }
  }

  lemma FrontOfSlice(t: Text, p: nat, to: nat, body: Text, n: nat)
    requires p <= to <= |t| && t[p..to] == body && n <= |body|
    ensures t[p..p + n] == body[..n]
  {
    assert t[p..to][..n] == t[p..p + n];
  }

  /** A false marker inside the body of question `k` cuts its block short. */
  lemma FalseMarkerCuts(preamble: Text, qs: seq<Question>, k: nat)
    requires FiveEach(qs) && k < |qs| && NoStart(preamble, 1) && Consecutive(qs)
    requires forall i :: 0 <= i < k ==> NoStart(Body(qs[i])[1..], qs[i].number + 1)
    requires !NoStart(Body(qs[k])[1..], qs[k].number + 1)
    ensures var t := Clean(preamble, qs); var starts := Starts(t, 0, 1);
      && k + 1 < |starts| && starts[0] == StartOf(preamble, qs, 0)
      && starts[k] < starts[k + 1] < starts[k] + |Body(qs[k])| <= |t|
      && t[starts[k]..starts[k + 1]] == Body(qs[k])[..starts[k + 1] - starts[k]]
  {
    hide Clean, Reach, Body, Gap, Cleaned, Starts, StartOf;
    var t, q := Clean(preamble, qs), qs[k];
    var m := FirstMarker(Body(q)[1..], q.number + 1);
    StartsOfRendered(preamble, qs, k);
    PieceOf(preamble, qs, k);
    GapIsPlain(q, NextNumber(qs, k));
    var from, p, to := Reach(preamble, qs, k), StartOf(preamble, qs, k), Reach(preamble, qs, k + 1);
    TwoStarts(t, from, p, to, NextNumber(qs, k), Gap(q), Body(q), q.number, m);
    var starts := Starts(t, 0, 1);
    var front, rest := StartsOf(preamble, qs, k), Starts(t, from, NextNumber(qs, k));
    assert starts == front + rest && |front| == k;
    assert starts[k] == rest[0] == rest[..2][0] == p;
    assert starts[k + 1] == rest[1] == rest[..2][1] == p + 1 + m;
    assert k > 0 ==> starts[0] == StartsOf(preamble, qs, k)[0];
    FrontOfSlice(t, p, to, Body(q), m + 1);
  }

  lemma TwoStarts(t: Text, from: nat, p: nat, to: nat, next: nat, gap: Text, body: Text, number: nat, m: nat)
    requires from <= p <= to <= |t| && t[from..p] == gap && t[p..to] == body
    requires NoStart(gap, next) && body != [] && body[0] == Num(number) && next <= number <= next + 3
    requires m < |body[1..]| && Acceptable(body[1..][m], number + 1)
    requires forall i :: 0 <= i < m ==> !Acceptable(body[1..][i], number + 1)
    ensures |Starts(t, from, next)| >= 2 && Starts(t, from, next)[..2] == [p, p + 1 + m]
  {
    hide Starts;
    var r := p + 1 + m;
    assert t[from..r] == gap + body[..m + 1] && body[..m + 1][1..] == body[1..][..m];
    assert t[p..r] == body[..m + 1];
    OneStart(t, from, p, r, next, gap, body[..m + 1], number);
    assert t[r] == body[1..][m];
    TakeStart(t, r, number + 1);
  }

  lemma EqualSplitIsConsecutive(preamble: Text, qs: seq<Question>)
    requires FiveEach(qs) && Exam(preamble, qs) && Split(Render(preamble, qs)) == Expected(preamble, qs)
    ensures Consecutive(qs)
  {
    hide Split, Starts, Clean, Exam, Render, Expected;
    var t := Clean(preamble, qs);
    var starts := Starts(t, 0, 1);
    StartsAreMarkers(t, 0, 1);
    forall i | 0 <= i < |qs| ensures NextNumber(qs, i) <= qs[i].number <= NextNumber(qs, i) + 3 {
      NumberAt(preamble, qs, i);
      StartsFollow(t, 0, 1, i);
      if i > 0 { NumberAt(preamble, qs, i - 1); }
    }
  }

  lemma NumberAt(preamble: Text, qs: seq<Question>, i: nat)
    requires FiveEach(qs) && Exam(preamble, qs) && Split(Render(preamble, qs)) == Expected(preamble, qs) && i < |qs|
    ensures var t := Clean(preamble, qs); var starts := Starts(t, 0, 1);
      |starts| == |qs| && starts[i] < |t| && t[starts[i]] == Num(qs[i].number)
  {
    hide Split, Starts, Clean, Printable, Premises, BlocksOf;
    SplitOfRendered(preamble, qs);
    var r := Split(Render(preamble, qs));
    assert r[i].number == qs[i].number;
  }

  /** Where an exam is split back, so are the stem and the choices of each single block. */
  lemma PieceAt(preamble: Text, qs: seq<Question>, i: nat)
    requires FiveEach(qs) && Exam(preamble, qs) && NoStart(preamble, 1)
    requires Split(Render(preamble, qs)) == Expected(preamble, qs) && i < |qs|
    ensures var t := Clean(preamble, qs); var starts := Starts(t, 0, 1);
      && i < |starts| && starts[i] < EndOf(t, starts, i) <= |t|
      && var b, blocks, notes := t[starts[i]..EndOf(t, starts, i)], BlocksOf(qs, |qs|), Premises(preamble);
      && b[0].Num? && BareStem(b) == qs[i].stem && ParseBlock(b, qs[i].number, blocks, notes).choices == qs[i].choices
      && Trimmed(qs[i].stem) && forall k :: 0 <= k < 5 ==> Trimmed(qs[i].choices[k]) && NoMark(qs[i].choices[k])
  {
    hide Split, Starts, Clean, Render, Exam, ParseBlock, BareStem, FullStem, Premises, BlocksOf, Trimmed, NoMark;
    var t, blocks, notes := Clean(preamble, qs), BlocksOf(qs, |qs|), Premises(preamble);
    var starts := Starts(t, 0, 1);
    SplitOfRendered(preamble, qs);
    NumberAt(preamble, qs, i);
    NotesAgree(preamble, qs);
    var b := t[starts[i]..EndOf(t, starts, i)];
    var q := ParseBlock(b, qs[i].number, blocks, notes);
    FullStemIsPrinted(preamble, qs, i);
    assert q == Split(Render(preamble, qs))[i] == Expected(preamble, qs)[i];
    ParsedIsPlain(b, qs[i].number, blocks, notes);
    FullStemIsInjective(BareStem(b), qs[i].stem, qs[i].number, blocks, notes);
  }

  lemma NotesAgree(preamble: Text, qs: seq<Question>)
    requires FiveEach(qs) && Exam(preamble, qs) && NoStart(preamble, 1) && qs != []
    requires Split(Render(preamble, qs)) == Expected(preamble, qs)
    ensures var t := Clean(preamble, qs); var starts := Starts(t, 0, 1);
      starts != [] && starts[0] <= |t| && Premises(t[..starts[0]]) == Premises(preamble)
  {
    hide Split, Starts, Clean, Render, Expected, Premises, Cleaned, Body, Gap, Printable, StartOf, Reach;
    EqualSplitIsConsecutive(preamble, qs);
    var t, p := Clean(preamble, qs), StartOf(preamble, qs, 0);
    StartsOfRendered(preamble, qs, 0);
    PieceOf(preamble, qs, 0);
    GapIsPlain(qs[0], 1);
    var b := Body(qs[0])[..1];
    assert t[p..p + 1] == t[p..Reach(preamble, qs, 1)][..1] == b;
    OneStart(t, Reach(preamble, qs, 0), p, p + 1, 1, Gap(qs[0]), b, qs[0].number);
    NotesOf(preamble, qs);
  }

  /** No body of an exam that is split back holds a false marker: its block would be too short. */
  lemma {:induction false} EqualSplitHasNoFalseMarker(preamble: Text, qs: seq<Question>, k: nat)
    requires FiveEach(qs) && Exam(preamble, qs) && NoStart(preamble, 1)
    requires Split(Render(preamble, qs)) == Expected(preamble, qs) && k <= |qs|
    ensures forall i :: 0 <= i < k ==> NoStart(Body(qs[i])[1..], qs[i].number + 1)
  {
    hide Split, Starts, Clean, Render, Expected, Premises, Body, Printable;
    hide NoStart, ParseBlock, BareStem, BlocksOf, Length;
    if k > 0 {
      EqualSplitHasNoFalseMarker(preamble, qs, k - 1);
      var q := qs[k - 1];
      if !NoStart(Body(q)[1..], q.number + 1) {
        EqualSplitIsConsecutive(preamble, qs);
        FalseMarkerCuts(preamble, qs, k - 1);
        PieceAt(preamble, qs, k - 1);
        var t := Clean(preamble, qs);
        var starts := Starts(t, 0, 1);
        BlockHoldsQuestion(t[starts[k - 1]..starts[k]], q.number, BlocksOf(qs, |qs|), Premises(preamble));
        BodyLength(q);
        assert false;
      }
    }
  }

  // ---- The cover ----

  /** A block holds no further acceptable marker. */
  lemma {:induction false} BlockHoldsNoStart(t: Text, i: nat, next: nat, k: nat)
    requires i <= |t| && k < |Starts(t, i, next)| && StartsIn(t, Starts(t, i, next))
    ensures var starts := Starts(t, i, next);
      && EndOf(t, starts, k) <= |t|
      && forall m :: starts[k] < m < EndOf(t, starts, k) ==> !Acceptable(t[m], t[starts[k]].n + 1)
    decreases |t| - i
  {
    hide StartsIn;
    var starts := Starts(t, i, next);
    StartsAreMarkers(t, i, next);
    if Acceptable(t[i], next) {
      var rest := Starts(t, i + 1, t[i].n + 1);
      StartsAreMarkers(t, i + 1, t[i].n + 1);
      if k > 0 {
        BlockHoldsNoStart(t, i + 1, t[i].n + 1, k - 1);
        assert starts[k] == rest[k - 1] && EndOf(t, starts, k) == EndOf(t, rest, k - 1);
      } else {
        NothingBeforeFirst(t, i + 1, t[i].n + 1);
      }
    } else {
      BlockHoldsNoStart(t, i + 1, next, k);
    }
  }

  lemma {:induction false} NothingBeforeFirst(t: Text, i: nat, next: nat)
    requires i <= |t|
    ensures var starts := Starts(t, i, next); var first := if starts == [] then |t| else starts[0];
      i <= first <= |t| && forall m :: i <= m < first ==> !Acceptable(t[m], next)
    decreases |t| - i
  {
    if i < |t| && !Acceptable(t[i], next) { NothingBeforeFirst(t, i + 1, next); }
  }

  /** The `i`-th accepted marker opens a block without further acceptable markers, but the next
      question's own marker would be one. */
  ghost predicate MarkedAt(t: Text, starts: seq<nat>, own: seq<nat>, i: nat)
    requires i < |starts| == |own|
  {
    && starts[i] < |t| && own[i] < |t| && t[starts[i]].Num?
    && EndOf(t, starts, i) <= |t| && NoStartBetween(t, starts[i], EndOf(t, starts, i))
    && (i + 1 < |own| ==> own[i] < own[i + 1] < |t| && Acceptable(t[own[i + 1]], t[starts[i]].n + 1))
  }

  /** If an accepted marker stands before its question, then some block starts before its question and
      ends with it: `own` are the questions' own markers. */
  lemma {:induction false} SomeBlockSwallows(t: Text, starts: seq<nat>, own: seq<nat>, k: nat) returns (j: nat)
    requires k < |starts| == |own| && starts[k] < own[k]
    requires forall i: nat :: i < |own| ==> MarkedAt(t, starts, own, i)
    ensures j < |own| && starts[j] < own[j] && EndOf(t, starts, j) == EndOf(t, own, j)
    decreases |own| - k
  {
    j := k;
    if k + 1 < |own| && starts[k + 1] != own[k + 1] {
      assert MarkedAt(t, starts, own, k);
      NextMarkerIsNoLater(t, starts, own, k);
      j := SomeBlockSwallows(t, starts, own, k + 1);
    }
  }

  lemma NextMarkerIsNoLater(t: Text, starts: seq<nat>, own: seq<nat>, k: nat)
    requires k + 1 < |starts| == |own| && starts[k] < own[k] && MarkedAt(t, starts, own, k)
    ensures starts[k + 1] <= own[k + 1]
  {
    hide Acceptable;
  }

  /** Nothing between an accepted marker and `end` would be accepted after it. */
  ghost predicate NoStartBetween(t: Text, start: nat, end: nat)
    requires start < |t| && t[start].Num? && end <= |t|
  {
    forall m :: start < m < end ==> !Acceptable(t[m], t[start].n + 1)
  }

  lemma {:induction false} StripKeepsNum(y: Text, s: Text) returns (a: nat)
    requires y != [] && y[|y| - 1].Num? && (s == [] || s[|s| - 1] != Blank)
    ensures a < |y| && Strip(y + s) == y[a..] + s
  {
    var t := y + s;
    if t[0] == Blank {
      assert t[1..] == y[1..] + s;
      a := StripKeepsNum(y[1..], s);
      a := a + 1;
    } else {
      a := 0;
      assert t[|t| - 1] != Blank;
      assert y[0..] == y;
    }
  }

  lemma {:induction false} StripKeepsSomething(t: Text, i: nat)
    requires i < |t| && t[i] != Blank
    ensures Strip(t) != []
  {
    if t[0] == Blank {
      assert t[1..][i - 1] == t[i];
      StripKeepsSomething(t[1..], i - 1);
    } else if t[|t| - 1] == Blank {
      assert t[..|t| - 1][i] == t[i];
      StripKeepsSomething(t[..|t| - 1], i);
    }
  }

  lemma FullStemPrefix(s: Text, number: nat, blocks: Blocks, notes: seq<string>)
    ensures var pre := FullStem([], number, blocks, notes);
      FullStem(s, number, blocks, notes) == pre + s && (pre == [] || pre[|pre| - 1] == Blank)
  {
    var n := if notes != [] then [Note(notes), Blank] else [];
    var b := if number in blocks then blocks[number] + [Blank] else [];
    forall r: Text ensures FullStem(r, number, blocks, notes) == n + b + r { InFront(n, b, r); }
    assert FullStem([], number, blocks, notes) == n + b;
  }

  lemma InFront(n: Text, b: Text, r: Text)
    ensures n + b + r == n + (b + r) && [] + r == r && n + [] == n
  {
  }

  /** What is put in front of a stem ends in a blank, so it cannot make up for swallowed text, which ends
      in the question's own marker. */
  lemma SwallowedShows(y: Text, stem: Text, number: nat, blocks: Blocks, notes: seq<string>, notes': seq<string>)
    requires y != [] && y[|y| - 1].Num?
    ensures FullStem(Strip(y + stem), number, blocks, notes') != FullStem(stem, number, blocks, notes)
  {
    hide FullStem, Strip;
    var t := y + stem;
    var bare := Strip(t);
    StripIsTrimmed(t);
    StripKeepsSomething(t, |y| - 1);
    FullStemPrefix(bare, number, blocks, notes');
    FullStemPrefix(stem, number, blocks, notes);
    var pre, pre' := FullStem([], number, blocks, notes), FullStem([], number, blocks, notes');
    if pre' + bare == pre + stem {
      assert (pre' + bare)[|pre' + bare| - 1] != Blank;
      assert stem == [] ==> pre + stem == pre;
      assert stem != [] && stem[|stem| - 1] != Blank;
      var a := StripKeepsNum(y, stem);
      assert pre' + bare == (pre' + y[a..]) + stem;
      SameFront(pre' + y[a..], pre, stem);
      assert false;
    }
  }

  lemma SameFront(a: Text, b: Text, s: Text)
    requires a + s == b + s
    ensures a == b
  {
    assert |a| == |b| && a == (a + s)[..|a|] && b == (b + s)[..|b|];
  }

  /** The bare stem of a block that holds a question with something before it. */
  lemma BareStemOfSwallowed(x: Text, q: Question, gap: Text)
    requires x != [] && x[0].Num? && (gap == [] || gap == [Blank])
    requires |q.choices| == 5 && forall k :: 0 <= k < 5 ==> NoMark(q.choices[k])
    ensures BareStem(x + (Body(q) + gap)) == Strip(x[1..] + [Num(q.number)] + q.stem)
  {
    hide Parts, Strip, Join, Choices, Choice, NoMark;
    var head := x + [Num(q.number)] + q.stem;
    var five := [Choice(q, 0), Choice(q, 1), Choice(q, 2), Choice(q, 3), Choice(q, 4) + gap];
    var b := x + (Body(q) + gap);
    assert b == head + Choices(q) + gap;
    PartsOfBody(head, q, gap);
    FiveAreLast(Parts(head), q, gap);
    var parts := Parts(b);
    assert parts == Parts(head) + five && parts[..|parts| - 5] == Parts(head);
    PartsJoin(head);
    assert head[1..] == x[1..] + [Num(q.number)] + q.stem;
  }

  /** A block that swallows something in front of its question is not parsed back. */
  lemma SwallowingBlockShows(x: Text, q: Question, gap: Text, blocks: Blocks, notes: seq<string>, notes': seq<string>)
    requires |q.choices| == 5 && x != [] && x[0].Num? && (gap == [] || gap == [Blank])
    ensures var p := ParseBlock(x + (Body(q) + gap), q.number, blocks, notes');
      !(p.choices == q.choices && p.stem == FullStem(q.stem, q.number, blocks, notes))
  {
    hide ParseBlock, BareStem, FullStem, Strip, Body;
    var b := x + (Body(q) + gap);
    var p := ParseBlock(b, q.number, blocks, notes');
    ParsedIsPlain(b, q.number, blocks, notes');
    if p.choices == q.choices {
      BareStemOfSwallowed(x, q, gap);
      SwallowedShows(x[1..] + [Num(q.number)], q.stem, q.number, blocks, notes, notes');
    }
  }

  lemma BlockDiffers(t: Text, p: nat, s: nat, e: nat, q: Question, gap: Text, blocks: Blocks, notes: seq<string>,
                     notes': seq<string>)
    requires |q.choices| == 5 && p < s <= e <= |t| && t[p].Num?
    requires t[s..e] == Body(q) + gap && (gap == [] || gap == [Blank])
    ensures var parsed := ParseBlock(t[p..e], q.number, blocks, notes');
      !(parsed.choices == q.choices && parsed.stem == FullStem(q.stem, q.number, blocks, notes))
  {
    hide ParseBlock, FullStem, Body;
    assert t[p..e] == t[p..s] + t[s..e];
    assert t[p..s][0] == t[p];
    SwallowingBlockShows(t[p..s], q, gap, blocks, notes, notes');
  }

  /** What an equal split says about each block. */
  lemma BlockAt(preamble: Text, qs: seq<Question>, i: nat)
    requires FiveEach(qs) && Exam(preamble, qs) && Split(Render(preamble, qs)) == Expected(preamble, qs) && i < |qs|
    ensures var t, blocks := Clean(preamble, qs), BlocksOf(qs, |qs|); var starts := Starts(t, 0, 1);
      && StartsIn(t, starts) && |starts| == |qs| && starts[i] <= EndOf(t, starts, i) <= |t|
      && var parsed := ParseBlock(t[starts[i]..EndOf(t, starts, i)], qs[i].number, blocks, Premises(t[..starts[0]]));
      && parsed.choices == qs[i].choices
      && parsed.stem == FullStem(qs[i].stem, qs[i].number, blocks, Premises(preamble))
  {
    hide Split, Starts, Clean, Render, Exam, ParseBlock, FullStem, Premises, BlocksOf;
    SplitOfRendered(preamble, qs);
    NumberAt(preamble, qs, i);
    FullStemIsPrinted(preamble, qs, i);
    assert Split(Render(preamble, qs))[i] == Expected(preamble, qs)[i];
  }

  lemma MarkedFrom(t: Text, starts: seq<nat>, own: seq<nat>, i: nat, a: nat, b: nat)
    requires i < |starts| == |own| && starts[i] < |t| && own[i] < |t| && t[starts[i]] == Num(a)
    requires EndOf(t, starts, i) <= |t| && NoStartBetween(t, starts[i], EndOf(t, starts, i))
    requires i + 1 < |own| ==> own[i] < own[i + 1] < |t| && t[own[i + 1]] == Num(b) && a < b <= a + 4
    ensures MarkedAt(t, starts, own, i)
  {
  }

  lemma OwnMarkerAt(preamble: Text, qs: seq<Question>, i: nat)
    requires FiveEach(qs) && Consecutive(qs) && i < |qs|
    ensures var t, own := Clean(preamble, qs), StartsOf(preamble, qs, |qs|);
      && own[i] < |t| && t[own[i]] == Num(qs[i].number)
      && (i + 1 < |own| ==>
            && own[i] < own[i + 1] < |t| && t[own[i + 1]] == Num(qs[i + 1].number)
            && qs[i].number < qs[i + 1].number <= qs[i].number + 4)
  {
    hide Clean, StartOf, FiveEach, Consecutive;
    QuestionStarts(preamble, qs, i);
    if i + 1 < |qs| {
      NextInConsecutive(qs, i);
      QuestionStarts(preamble, qs, i + 1);
    }
  }

  /** The own markers of the questions, and the accepted ones, in a text that is split back. */
  lemma OwnMarkers(preamble: Text, qs: seq<Question>, i: nat)
    requires FiveEach(qs) && Exam(preamble, qs) && Split(Render(preamble, qs)) == Expected(preamble, qs) && i < |qs|
    ensures var t, own := Clean(preamble, qs), StartsOf(preamble, qs, |qs|);
      |Starts(t, 0, 1)| == |own| && MarkedAt(t, Starts(t, 0, 1), own, i)
  {
    hide Split, Starts, StartsOf, Clean, Render, Exam, Expected, MarkedAt, FiveEach, Consecutive, Acceptable;
    var t, own := Clean(preamble, qs), StartsOf(preamble, qs, |qs|);
    var starts := Starts(t, 0, 1);
    StartsAreMarkers(t, 0, 1);
    NumberAt(preamble, qs, i);
    BlockHoldsNoStart(t, 0, 1, i);
    EqualSplitIsConsecutive(preamble, qs);
    OwnMarkerAt(preamble, qs, i);
    MarkedFrom(t, starts, own, i, qs[i].number, if i + 1 < |qs| then qs[i + 1].number else 0);
  }

  lemma NextInConsecutive(qs: seq<Question>, i: nat)
    requires Consecutive(qs) && i + 1 < |qs|
    ensures qs[i].number < qs[i + 1].number <= qs[i].number + 4
  {
  }

  /** The cover of an exam that is split back holds no false marker. */
  lemma EqualSplitHasClearCover(preamble: Text, qs: seq<Question>)
    requires FiveEach(qs) && Exam(preamble, qs) && Split(Render(preamble, qs)) == Expected(preamble, qs)
    ensures NoStart(preamble, 1)
  {
    hide Split, Starts, Clean, Render, Exam, Expected, StartOf, NoStart, MarkedAt, EndOf;
    if !NoStart(preamble, 1) {
      var t, own := Clean(preamble, qs), StartsOf(preamble, qs, |qs|);
      SplitLength(preamble, qs);
      CoverStarts(preamble, qs);
      forall i: nat | i < |qs| ensures MarkedAt(t, Starts(t, 0, 1), own, i) { OwnMarkers(preamble, qs, i); }
      var j := SomeBlockSwallows(t, Starts(t, 0, 1), own, 0);
      NoBlockSwallows(preamble, qs, j);
      assert false;
    }
  }

  lemma NoBlockSwallows(preamble: Text, qs: seq<Question>, j: nat)
    requires FiveEach(qs) && Exam(preamble, qs) && Split(Render(preamble, qs)) == Expected(preamble, qs) && j < |qs|
    ensures var t, own := Clean(preamble, qs), StartsOf(preamble, qs, |qs|); var starts := Starts(t, 0, 1);
      |starts| == |own| && !(starts[j] < own[j] && EndOf(t, starts, j) == EndOf(t, own, j))
  {
    hide Split, Starts, Clean, Render, Exam, Expected, StartOf, NoStart, ParseBlock, FullStem, Premises, BlocksOf, Body;
    var t, own := Clean(preamble, qs), StartsOf(preamble, qs, |qs|);
    var starts := Starts(t, 0, 1);
    SplitLength(preamble, qs);
    NumberAt(preamble, qs, j);
    BlockAt(preamble, qs, j);
    if starts[j] < own[j] && EndOf(t, starts, j) == EndOf(t, own, j) {
      var gap := BodyAndGap(preamble, qs, j);
      var e := EndOfQuestion(preamble, qs, j);
      assert e == EndOf(t, own, j);
      var blocks, notes := BlocksOf(qs, |qs|), Premises(t[..starts[0]]);
      BlockDiffers(t, starts[j], own[j], e, qs[j], gap, blocks, Premises(preamble), notes);
      assert false;
    }
  }

  lemma SplitLength(preamble: Text, qs: seq<Question>)
    requires FiveEach(qs) && Exam(preamble, qs) && Split(Render(preamble, qs)) == Expected(preamble, qs)
    ensures |Starts(Clean(preamble, qs), 0, 1)| == |qs|
  {
    hide Split, Starts, Clean, Render, Exam, ParseBlock;
    SplitOfRendered(preamble, qs);
  }

  lemma CoverStarts(preamble: Text, qs: seq<Question>)
    requires FiveEach(qs) && !NoStart(preamble, 1)
    ensures var starts := Starts(Clean(preamble, qs), 0, 1);
      starts != [] && starts[0] < |preamble| && (qs != [] ==> starts[0] < StartOf(preamble, qs, 0))
  {
    hide Starts, Cleaned;
    var t := Clean(preamble, qs);
    NothingBeforeFirst(t, 0, 1);
    var m :| 0 <= m < |preamble| && Acceptable(preamble[m], 1);
    assert t[m] == preamble[m];
  }

  lemma ChoiceInBody(q: Question, k: nat, x: Token)
    requires |q.choices| == 5 && k < 5 && x in q.choices[k]
    ensures x in Body(q)[1..]
  {
    hide Choice;
    var c := Choice(q, k);
    assert x in c by { TokenOfChoice(q, k, x); }
    assert x in Choices(q);
    BodyIsStemAndChoices(q);
  }

  lemma TokenOfChoice(q: Question, k: nat, x: Token)
    requires k < |q.choices| && x in q.choices[k]
    ensures x in Choice(q, k)
  {
  }

  lemma BodyIsStemAndChoices(q: Question)
    requires |q.choices| == 5
    ensures Body(q)[1..] == q.stem + Choices(q)
  {
    hide Choices;
    assert Body(q) == [Num(q.number)] + (q.stem + Choices(q));
  }

  lemma PlainBodyIsClear(q: Question)
    requires |q.choices| == 5 && NoStart(Body(q)[1..], q.number + 1)
    requires Trimmed(q.stem) && forall k :: 0 <= k < 5 ==> Trimmed(q.choices[k]) && NoMark(q.choices[k])
    ensures Clear(q)
  {
    hide Body, Choices, Trimmed, NoMark, NoStart;
    BodyIsStemAndChoices(q);
    NoStartInside(Body(q)[1..], q.stem, q.number + 1);
    forall k | 0 <= k < 5 ensures NoStart(q.choices[k], q.number + 1) {
      forall x | x in q.choices[k] ensures x in Body(q)[1..] { ChoiceInBody(q, k, x); }
      NoStartInside(Body(q)[1..], q.choices[k], q.number + 1);
    }
  }

  lemma NoStartInside(b: Text, c: Text, next: nat)
    requires NoStart(b, next) && forall x :: x in c ==> x in b
    ensures NoStart(c, next)
  {
    forall i | 0 <= i < |c| ensures !Acceptable(c[i], next) {
      assert c[i] in b;
    }
  }

  /** Splitting a rendered exam gives the questions back (numbers, choices, stems with their shared
      blocks and premises restored, and the overflow flag exactly where a stem has circled marks) if
      and only if the exam is clear. */
  lemma RenderThenSplit(preamble: Text, qs: seq<Question>)
    requires FiveEach(qs) && Exam(preamble, qs)
    ensures Split(Render(preamble, qs)) == Expected(preamble, qs) <==> ClearExam(preamble, qs)
  {
    hide Split, Render, Expected, Exam, Body, Clear;
    if ClearExam(preamble, qs) {
      ClearExamSplits(preamble, qs);
    } else if Split(Render(preamble, qs)) == Expected(preamble, qs) {
      EqualSplitIsConsecutive(preamble, qs);
      EqualSplitHasClearCover(preamble, qs);
      EqualSplitHasNoFalseMarker(preamble, qs, |qs|);
      forall i | 0 <= i < |qs| ensures Clear(qs[i]) {
        PieceAt(preamble, qs, i);
        PlainBodyIsClear(qs[i]);
      }
    }
  }
}
