/** Exams as printed, and how the splitter takes a clear one apart again. */
module ExamRendering {
  import opened ExamText
  import opened Filters
  import opened Wrappers

  /** A block shared with one more question. */
  datatype SharedData = SharedData(second: nat, data: Text)

  datatype Question = Question(number: nat, stem: Text, choices: seq<Text>, shared: Option<SharedData>)

  predicate Trimmed(t: Text) {
    t == [] || (t[0] != Blank && t[|t| - 1] != Blank)
  }

  predicate NoMark(t: Text) {
    forall i :: 0 <= i < |t| ==> !t[i].Mark?
  }

  predicate NoShared(t: Text) {
    forall i :: 0 <= i < |t| ==> !t[i].Shared?
  }

  /** No line of `t` looks like the start of one of the four questions from `next` on. */
  predicate NoStart(t: Text, next: nat) {
    forall i :: 0 <= i < |t| ==> !Acceptable(t[i], next)
  }

  function Choice(q: Question, k: nat): Text
    requires k < |q.choices|
  {
    [Mark(k)] + q.choices[k]
  }

  function Choices(q: Question): Text
    requires |q.choices| == 5
  {
    Choice(q, 0) + Choice(q, 1) + Choice(q, 2) + Choice(q, 3) + Choice(q, 4)
  }

  function Body(q: Question): (b: Text)
    requires |q.choices| == 5
    ensures b != [] && b[0] == Num(q.number)
  {
    [Num(q.number)] + q.stem + Choices(q)
  }

  /** What is asked of the printer: five choices, and a heading for a shared block only right before
      the question, whose data neither contains that question's marker nor ends in a blank. */
  ghost predicate Printable(q: Question) {
    && |q.choices| == 5 && NoShared(q.stem)
    && (forall k :: 0 <= k < 5 ==> NoShared(q.choices[k]))
    && (q.shared.Some? ==>
          var data := q.shared.value.data;
          NoShared(data) && Num(q.number) !in data && (data != [] ==> data[|data| - 1] != Blank))
  }

  /** An exam that starts with its cover text, before any question. */
  ghost predicate Exam(preamble: Text, qs: seq<Question>) {
    NoShared(preamble) && forall i :: 0 <= i < |qs| ==> Printable(qs[i])
  }

  predicate PlainChoice(c: Text, number: nat) {
    Trimmed(c) && NoMark(c) && NoStart(c, number + 1)
  }

  /** No line of a clear question starts with one of the next four numbers, and its choices have no
      circled marks; its stem may. */
  ghost predicate Clear(q: Question)
    requires |q.choices| == 5
  {
    Trimmed(q.stem) && NoStart(q.stem, q.number + 1) && forall k :: 0 <= k < 5 ==> PlainChoice(q.choices[k], q.number)
  }

  ghost predicate Renderable(q: Question) {
    Printable(q) && Clear(q)
  }

  ghost predicate Consecutive(qs: seq<Question>) {
    && (qs != [] ==> 1 <= qs[0].number <= 4)
    && forall i :: 0 < i < |qs| ==> qs[i - 1].number < qs[i].number <= qs[i - 1].number + 4
  }

  /** What a clear exam must look like: no line of its cover starts with one of the numbers one to four,
      and its clear questions are numbered upwards with gaps of at most three. */
  ghost predicate ClearExam(preamble: Text, qs: seq<Question>)
    requires FiveEach(qs)
  {
    NoStart(preamble, 1) && Consecutive(qs) && forall i :: 0 <= i < |qs| ==> Clear(qs[i])
  }

  /** The heading and data of a question's shared block, if it has one. */
  function Heading(q: Question): Text {
    if q.shared.None? then [] else [Shared(q.number, q.shared.value.second)] + q.shared.value.data
  }

  /** What extraction leaves of it. */
  function Gap(q: Question): Text {
    if q.shared.None? then [] else [Blank]
  }

  ghost predicate FiveEach(qs: seq<Question>) {
    forall i :: 0 <= i < |qs| ==> |qs[i].choices| == 5
  }

  /** The questions from `k` on as printed. */
  function Printed(qs: seq<Question>, k: nat): Text
    requires FiveEach(qs) && k <= |qs|
    decreases |qs| - k
  {
    if k == |qs| then [] else Heading(qs[k]) + Body(qs[k]) + Printed(qs, k + 1)
  }

  /** The first `k` questions with their shared blocks cut out. */
  function Cleaned(qs: seq<Question>, k: nat): Text
    requires FiveEach(qs) && k <= |qs|
  {
    if k == 0 then [] else Cleaned(qs, k - 1) + Gap(qs[k - 1]) + Body(qs[k - 1])
  }

  /** The shared blocks of the first `k` questions, later ones winning. */
  function BlocksOf(qs: seq<Question>, k: nat): Blocks
    requires k <= |qs|
  {
    if k == 0 then map[]
    else if qs[k - 1].shared.None? then BlocksOf(qs, k - 1)
    else
      var q := qs[k - 1];
      BlocksOf(qs, k - 1)[q.number := Heading(q)][q.shared.value.second := Heading(q)]
  }

  function Render(preamble: Text, qs: seq<Question>): Text
    requires FiveEach(qs)
  {
    preamble + Printed(qs, 0)
  }

  /** Does the printed block of `q` say that it belongs to number `n`? */
  predicate Names(q: Question, n: nat) {
    q.shared.Some? && (q.number == n || q.shared.value.second == n)
  }

  /** Of the first `k` questions the last one whose block names number `n`. */
  function LastNaming(qs: seq<Question>, n: nat, k: nat): (r: Option<nat>)
    requires k <= |qs|
    ensures r.None? ==> forall j :: 0 <= j < k ==> !Names(qs[j], n)
    ensures r.Some? ==> r.value < k && Names(qs[r.value], n) && forall j :: r.value < j < k ==> !Names(qs[j], n)
  {
    if k == 0 then None else if Names(qs[k - 1], n) then Some(k - 1) else LastNaming(qs, n, k - 1)
  }

  /** The premises printed on the cover, in order. */
  function CoverPremises(preamble: Text): seq<string> {
    var found := Where(preamble, (x: Token) => x.Premise?);
    seq(|found|, i requires 0 <= i < |found| => if found[i].Premise? then found[i].text else "")
  }

  /** The stem of a question as a reader of the printed exam needs it: the premises of the cover, then the
      heading and data of the block that names its number, then the question's own stem. */
  function PrintedStem(preamble: Text, qs: seq<Question>, i: nat): Text
    requires i < |qs|
  {
    var premises, naming := CoverPremises(preamble), LastNaming(qs, qs[i].number, |qs|);
    (if premises == [] then [] else [Note(premises), Blank])
    + (if naming.None? then []
       else
         var owner := qs[naming.value];
         [Shared(owner.number, owner.shared.value.second)] + owner.shared.value.data + [Blank])
    + qs[i].stem
  }

  /** What splitting should give back, in terms of what was printed. */
  function Expected(preamble: Text, qs: seq<Question>): (r: seq<Parsed>)
    ensures |r| == |qs|
  {
    seq(|qs|, i requires 0 <= i < |qs| =>
      Parsed(qs[i].number, PrintedStem(preamble, qs, i), qs[i].choices, !NoMark(qs[i].stem)))
  }

  lemma {:induction false} BlocksOfNamed(qs: seq<Question>, n: nat, k: nat)
    requires k <= |qs|
    ensures n in BlocksOf(qs, k) <==> LastNaming(qs, n, k).Some?
    ensures n in BlocksOf(qs, k) ==> BlocksOf(qs, k)[n] == Heading(qs[LastNaming(qs, n, k).value])
  {
    hide Heading;
    if k > 0 { BlocksOfNamed(qs, n, k - 1); }
  }

  lemma {:induction false} PremisesArePrinted(t: Text)
    ensures Premises(t) == CoverPremises(t)
  {
    if t != [] {
      var front, x := t[..|t| - 1], t[|t| - 1];
      PremisesArePrinted(front);
      assert t == front + [x];
      WhereAppend(front, x, (y: Token) => y.Premise?);
    }
  }

  /** The splitter's stem, with premises and shared block put back, is the printed one. */
  lemma FullStemIsPrinted(preamble: Text, qs: seq<Question>, i: nat)
    requires i < |qs|
    ensures FullStem(qs[i].stem, qs[i].number, BlocksOf(qs, |qs|), Premises(preamble)) == PrintedStem(preamble, qs, i)
  {
    hide Premises, CoverPremises, BlocksOf, LastNaming;
    PremisesArePrinted(preamble);
    BlocksOfNamed(qs, qs[i].number, |qs|);
  }

  lemma NoSharedConcat(s: Text, t: Text)
    ensures NoShared(s + t) <==> NoShared(s) && NoShared(t)
  {
    assert forall i :: 0 <= i < |t| ==> (s + t)[|s| + i] == t[i];
    if NoShared(s + t) { assert forall i :: 0 <= i < |s| ==> (s + t)[i] == s[i]; }
  }

  lemma InBody(q: Question, x: Token)
    requires |q.choices| == 5 && x in Body(q)[1..]
    ensures x in q.stem || exists k :: 0 <= k < 5 && (x == Mark(k) || x in q.choices[k])
  {
    assert x in q.stem || x in Choices(q);
    if x in Choices(q) {
      assert exists k :: 0 <= k < 5 && x in Choice(q, k);
      var k :| 0 <= k < 5 && x in Choice(q, k);
      assert x == Mark(k) || x in q.choices[k];
    }
  }

  lemma BodyHasNoHeading(q: Question)
    requires Printable(q)
    ensures NoShared(Body(q))
  {
    var b := Body(q);
    forall i | 0 < i < |b| ensures !b[i].Shared? {
      assert b[i] == b[1..][i - 1];
      InBody(q, b[i]);
    }
  }

  lemma BodyIsPlain(q: Question)
    requires |q.choices| == 5 && Clear(q)
    ensures NoStart(Body(q)[1..], q.number + 1)
  {
    var b := Body(q);
    forall i | 0 < i < |b| ensures !Acceptable(b[i], q.number + 1) {
      assert b[i] == b[1..][i - 1];
      InBody(q, b[i]);
      assert forall k :: 0 <= k < 5 ==> PlainChoice(q.choices[k], q.number);
    }
  }

  lemma {:induction false} CleanedIsPlain(qs: seq<Question>, k: nat)
    requires FiveEach(qs) && k <= |qs| && forall i :: 0 <= i < |qs| ==> Printable(qs[i])
    ensures NoShared(Cleaned(qs, k))
  {
    hide Body, Gap, Printable;
    if k > 0 {
      GapIsPlain(qs[k - 1], 0);
      CleanedIsPlain(qs, k - 1);
      BodyHasNoHeading(qs[k - 1]);
      NoSharedConcat(Cleaned(qs, k - 1), Gap(qs[k - 1]));
      NoSharedConcat(Cleaned(qs, k - 1) + Gap(qs[k - 1]), Body(qs[k - 1]));
    }
  }

  lemma StripTrimmed(t: Text)
    requires Trimmed(t)
    ensures Strip(t) == t
  {
  }

  lemma HeadingIsFound(before: Text, h: Text, after: Text)
    requires NoShared(before) && h != [] && h[0].Shared?
    ensures FindShared(before + (h + after), 0) == |before|
  {
    hide FindShared;
    var t := before + (h + after);
    assert t[|before|] == h[0];
    assert forall j :: 0 <= j < |before| ==> t[j] == before[j];
    assert forall j :: 0 <= j < |before| ==> !t[j].Shared?;
  }

  lemma HeadingEnds(before: Text, h: Text, after: Text, n: nat)
    requires h != [] && h[0].Shared? && h[0].first == n && Num(n) !in h
    requires after != [] && after[0] == Num(n)
    ensures BlockEnd(before + (h + after), |before|) == |before| + |h|
  {
    hide FindNum;
    var t, e := before + (h + after), |before| + |h|;
    assert t[|before|] == h[0] && t[e] == after[0];
    assert forall j :: |before| <= j < e ==> t[j] == h[j - |before|];
    assert forall j :: |before| <= j < e ==> t[j] != Num(n);
  }

  /** One round of the extraction: the first heading, its data, the question it belongs to. */
  lemma CutOne(before: Text, h: Text, after: Text, n: nat, blocks: Blocks)
    requires NoShared(before) && h != [] && h[0].Shared? && h[0].first == n && Num(n) !in h && Trimmed(h)
    requires after != [] && after[0] == Num(n)
    ensures var t := before + (h + after);
      && FindShared(t, 0) == |before| < |t| && t[|before|] == h[0]
      && Cut(t, |before|) == before + [Blank] + after
      && AddBlock(t, |before|, blocks) == blocks[n := h][h[0].second := h]
  {
    hide FindShared, FindNum, BlockEnd;
    var t := before + (h + after);
    HeadingIsFound(before, h, after);
    HeadingEnds(before, h, after, n);
    assert t[|before|..|before| + |h|] == h && t[|before| + |h|..] == after && t[..|before|] == before;
    StripTrimmed(h);
  }

  /** The text once the shared blocks of the first `k` questions are gone. */
  function Partly(preamble: Text, qs: seq<Question>, k: nat): Text
    requires FiveEach(qs) && k <= |qs|
  {
    preamble + Cleaned(qs, k) + Printed(qs, k)
  }

  lemma HeadingShape(q: Question)
    requires Printable(q) && q.shared.Some?
    ensures var h := Heading(q);
      h != [] && h[0] == Shared(q.number, q.shared.value.second) && Num(q.number) !in h && Trimmed(h)
  {
  }

  lemma ExtractFromStart(t: Text, i: nat, blocks: Blocks)
    requires i <= |t| && forall j :: 0 <= j < i ==> !t[j].Shared?
    ensures Extract(t, i, blocks) == Extract(t, 0, blocks)
  {
    hide Cut, AddBlock;
    SearchFromStart(t, i);
  }

  lemma Regroup(a: Text, b: Text, c: Text, d: Text, e: Text)
    ensures a + b + (c + d + e) == a + b + (c + (d + e))
    ensures a + (b + c + d) + e == a + b + c + (d + e)
  {
  }

  lemma PartlyShared(preamble: Text, qs: seq<Question>, k: nat)
    requires FiveEach(qs) && k < |qs|
    ensures Partly(preamble, qs, k) ==
      preamble + Cleaned(qs, k) + (Heading(qs[k]) + (Body(qs[k]) + Printed(qs, k + 1)))
    ensures Partly(preamble, qs, k + 1) ==
      preamble + Cleaned(qs, k) + Gap(qs[k]) + (Body(qs[k]) + Printed(qs, k + 1))
  {
    hide Heading, Body, Gap;
    Regroup(preamble, Cleaned(qs, k), Heading(qs[k]), Body(qs[k]), Printed(qs, k + 1));
    Regroup(preamble, Cleaned(qs, k), Gap(qs[k]), Body(qs[k]), Printed(qs, k + 1));
  }

  /** Extraction removes the blocks one question after the other. */
  lemma {:induction false} ExtractFrom(preamble: Text, qs: seq<Question>, k: nat)
    requires Exam(preamble, qs) && FiveEach(qs) && k <= |qs|
    ensures Extract(Partly(preamble, qs, k), 0, BlocksOf(qs, k)) == (preamble + Cleaned(qs, |qs|), BlocksOf(qs, |qs|))
    decreases |qs| - k
  {
    hide Heading, Body, Cleaned, Printed, Partly, Cut, AddBlock, Printable;
    var before, t := preamble + Cleaned(qs, k), Partly(preamble, qs, k);
    CleanedIsPlain(qs, k);
    NoSharedConcat(preamble, Cleaned(qs, k));
    if k == |qs| {
      PartlyDone(preamble, qs);
      assert FindShared(t, 0) == |t|;
    } else {
      var q := qs[k];
      ExtractFrom(preamble, qs, k + 1);
      PartlyShared(preamble, qs, k);
      if q.shared.Some? {
        HeadingShape(q);
        BodyHasNoHeading(q);
        var after := Body(q) + Printed(qs, k + 1);
        CutOne(before, Heading(q), after, q.number, BlocksOf(qs, k));
        CutClears(t, |before|);
        ExtractFromStart(Cut(t, |before|), |before| + 1, AddBlock(t, |before|, BlocksOf(qs, k)));
        assert Extract(t, 0, BlocksOf(qs, k))
            == Extract(Cut(t, |before|), |before| + 1, AddBlock(t, |before|, BlocksOf(qs, k)));
      } else {
        NoHeading(q);
        assert before + ([] + (Body(q) + Printed(qs, k + 1))) == before + [] + (Body(q) + Printed(qs, k + 1));
      }
    }
  }

  lemma NoHeading(q: Question)
    requires q.shared.None?
    ensures Heading(q) == []
  {
  }

  lemma PartlyDone(preamble: Text, qs: seq<Question>)
    requires FiveEach(qs)
    ensures Partly(preamble, qs, |qs|) == preamble + Cleaned(qs, |qs|)
  {
  }

  // ---- Starts of the rendered questions ----

  lemma {:induction false} SkipPlain(t: Text, i: nat, j: nat, next: nat)
    requires i <= j <= |t| && forall m :: i <= m < j ==> !Acceptable(t[m], next)
    ensures Starts(t, i, next) == Starts(t, j, next)
    decreases j - i
  {
    if i < j { SkipPlain(t, i + 1, j, next); }
  }

  lemma {:induction false} CleanedGrows(qs: seq<Question>, j: nat, k: nat)
    requires FiveEach(qs) && j <= k <= |qs|
    ensures Cleaned(qs, j) <= Cleaned(qs, k)
  {
    hide Gap, Body;
    if j < k { CleanedGrows(qs, j, k - 1); }
  }

  /** The cleaned text, and where the body of question `k` starts in it. */
  function Clean(preamble: Text, qs: seq<Question>): Text
    requires FiveEach(qs)
  {
    preamble + Cleaned(qs, |qs|)
  }

  function Reach(preamble: Text, qs: seq<Question>, k: nat): nat
    requires FiveEach(qs) && k <= |qs|
  {
    |preamble| + |Cleaned(qs, k)|
  }

  function StartOf(preamble: Text, qs: seq<Question>, k: nat): (p: nat)
    requires FiveEach(qs) && k < |qs|
    ensures p >= Reach(preamble, qs, k)
  {
    Reach(preamble, qs, k) + |Gap(qs[k])|
  }

  /** The piece of the cleaned text that belongs to question `k`. */
  lemma PieceOf(preamble: Text, qs: seq<Question>, k: nat)
    requires FiveEach(qs) && k < |qs|
    ensures StartOf(preamble, qs, k) <= Reach(preamble, qs, k + 1) <= |Clean(preamble, qs)|
    ensures Clean(preamble, qs)[Reach(preamble, qs, k)..StartOf(preamble, qs, k)] == Gap(qs[k])
    ensures Clean(preamble, qs)[StartOf(preamble, qs, k)..Reach(preamble, qs, k + 1)] == Body(qs[k])
    ensures Clean(preamble, qs)[..StartOf(preamble, qs, k)] == preamble + Cleaned(qs, k) + Gap(qs[k])
  {
    hide Gap, Body;
    CleanedGrows(qs, k + 1, |qs|);
    var c := Cleaned(qs, |qs|);
    var piece := Cleaned(qs, k) + Gap(qs[k]) + Body(qs[k]);
    assert Cleaned(qs, k + 1) == piece <= c;
    var t := Clean(preamble, qs);
    assert t == preamble + piece + c[|piece|..];
  }

  function NextNumber(qs: seq<Question>, k: nat): nat
    requires k <= |qs|
  {
    if k == 0 then 1 else qs[k - 1].number + 1
  }

  /** Where the first `k` questions start. */
  function StartsOf(preamble: Text, qs: seq<Question>, k: nat): (s: seq<nat>)
    requires FiveEach(qs) && k <= |qs|
    ensures |s| == k
  {
    seq(k, i requires 0 <= i < k => StartOf(preamble, qs, i))
  }

  /** Of the text up to a question, exactly the questions' own markers are accepted. */
  lemma {:induction false} StartsOfRendered(preamble: Text, qs: seq<Question>, k: nat)
    requires FiveEach(qs) && k <= |qs| && NoStart(preamble, 1) && Consecutive(qs)
    requires forall i :: 0 <= i < k ==> NoStart(Body(qs[i])[1..], qs[i].number + 1)
    ensures Reach(preamble, qs, k) <= |Clean(preamble, qs)|
    ensures Starts(Clean(preamble, qs), 0, 1)
         == StartsOf(preamble, qs, k) + Starts(Clean(preamble, qs), Reach(preamble, qs, k), NextNumber(qs, k))
  {
    hide Clean, Reach, Body, Gap, Cleaned, Starts, StartOf;
    var t := Clean(preamble, qs);
    if k == 0 {
      PreambleIsSkipped(preamble, qs);
    } else {
      var q := qs[k - 1];
      StartsOfRendered(preamble, qs, k - 1);
      PieceOf(preamble, qs, k - 1);
      var from, p, to := Reach(preamble, qs, k - 1), StartOf(preamble, qs, k - 1), Reach(preamble, qs, k);
      GapIsPlain(q, NextNumber(qs, k - 1));
      OneStart(t, from, p, to, NextNumber(qs, k - 1), Gap(q), Body(q), q.number);
      assert StartsOf(preamble, qs, k) == StartsOf(preamble, qs, k - 1) + [p];
    }
  }

  /** A gap, the question's marker, and a body without further markers. */
  lemma OneStart(t: Text, from: nat, p: nat, to: nat, next: nat, gap: Text, body: Text, number: nat)
    requires from <= p <= to <= |t| && t[from..p] == gap && t[p..to] == body
    requires NoStart(gap, next) && body != [] && body[0] == Num(number) && next <= number <= next + 3
    requires NoStart(body[1..], number + 1)
    ensures Starts(t, from, next) == [p] + Starts(t, to, number + 1)
  {
    hide Starts;
    forall m | from <= m < p ensures !Acceptable(t[m], next) { assert t[m] == gap[m - from]; }
    SkipPlain(t, from, p, next);
    assert t[p] == body[0];
    forall m | p + 1 <= m < to ensures !Acceptable(t[m], number + 1) { assert t[m] == body[1..][m - p - 1]; }
    SkipPlain(t, p + 1, to, number + 1);
    TakeStart(t, p, next);
  }

  lemma TakeStart(t: Text, p: nat, next: nat)
    requires p < |t| && Acceptable(t[p], next)
    ensures Starts(t, p, next) == [p] + Starts(t, p + 1, t[p].n + 1)
  {
  }

  lemma ReachesEnd(preamble: Text, qs: seq<Question>)
    requires FiveEach(qs)
    ensures Reach(preamble, qs, |qs|) == |Clean(preamble, qs)|
  {
  }

  lemma GapIsPlain(q: Question, next: nat)
    ensures NoStart(Gap(q), next) && NoMark(Gap(q)) && NoShared(Gap(q))
    ensures |Gap(q)| <= 1 && (Gap(q) == [] || Gap(q) == [Blank])
  {
  }

  // ---- Parsing one rendered question back ----

  lemma PartsAppend(b: Text, x: Token)
    ensures var p := Parts(b);
      Parts(b + [x]) == if x.Mark? then p + [[x]] else p[|p| - 1 := p[|p| - 1] + [x]]
  {
    assert (b + [x])[..|b|] == b;
  }

  lemma LastPartGrows(p: seq<Text>, last: Text, x: Token)
    ensures (p + [last])[|p| := last + [x]] == p + [last + [x]]
  {
  }

  lemma {:induction false} PartsChoice(b: Text, m: nat, c: Text)
    requires NoMark(c)
    ensures Parts(b + ([Mark(m)] + c)) == Parts(b) + [[Mark(m)] + c]
  {
    hide Parts;
    if c == [] {
      assert [Mark(m)] + c == [Mark(m)];
      PartsAppend(b, Mark(m));
    } else {
      var front, x := c[..|c| - 1], c[|c| - 1];
      PartsChoice(b, m, front);
      assert c == front + [x];
      assert b + ([Mark(m)] + c) == b + ([Mark(m)] + front) + [x];
      PartsAppend(b + ([Mark(m)] + front), x);
      LastPartGrows(Parts(b), [Mark(m)] + front, x);
      assert [Mark(m)] + c == [Mark(m)] + front + [x];
    }
  }

  lemma {:induction false} PartsCount(b: Text)
    ensures |Parts(b)| == 1 <==> NoMark(b)
  {
    if b != [] {
      PartsCount(b[..|b| - 1]);
      assert b == b[..|b| - 1] + [b[|b| - 1]];
    }
  }

  lemma StripTail(c: Text, gap: Text)
    requires Trimmed(c) && (gap == [] || gap == [Blank])
    ensures Strip(c + gap) == c
  {
    if gap == [] {
      assert c + gap == c;
      StripTrimmed(c);
    } else if c == [] {
      assert c + gap == [Blank];
      assert [Blank][1..] == [];
    } else {
      assert (c + gap)[..|c + gap| - 1] == c;
      StripTrimmed(c);
    }
  }

  /** The parts of a block that ends in five unmarked choices: those of what precedes, then one per choice. */
  lemma PartsOfBody(head: Text, q: Question, gap: Text)
    requires |q.choices| == 5 && (forall k :: 0 <= k < 5 ==> NoMark(q.choices[k])) && (gap == [] || gap == [Blank])
    ensures Parts(head + Choices(q) + gap) == Parts(head)
      + [Choice(q, 0), Choice(q, 1), Choice(q, 2), Choice(q, 3), Choice(q, 4) + gap]
  {
    hide Parts;
    var b1 := head + Choice(q, 0);
    var b2 := b1 + Choice(q, 1);
    var b3 := b2 + Choice(q, 2);
    var b4 := b3 + Choice(q, 3);
    PartsChoice(head, 0, q.choices[0]);
    PartsChoice(b1, 1, q.choices[1]);
    PartsChoice(b2, 2, q.choices[2]);
    PartsChoice(b3, 3, q.choices[3]);
    PartsChoice(b4, 4, q.choices[4] + gap);
    assert Choice(q, 4) + gap == [Mark(4)] + (q.choices[4] + gap);
    assert head + Choices(q) + gap == b4 + (Choice(q, 4) + gap);
  }

  /** A rendered question is parsed back, whether or not a blank trails its last choice. */
  lemma ParseRendered(q: Question, gap: Text, blocks: Blocks, notes: seq<string>)
    requires Renderable(q) && (gap == [] || gap == [Blank])
    ensures ParseBlock(Body(q) + gap, q.number, blocks, notes)
         == Parsed(q.number, FullStem(q.stem, q.number, blocks, notes), q.choices, !NoMark(q.stem))
  {
    hide Parts, FullStem, Body, Strip, RemoveNum, Join, Choice, ChoicesOf, NoMark;
    var stemParts := Parts([Num(q.number)] + q.stem);
    var five := [Choice(q, 0), Choice(q, 1), Choice(q, 2), Choice(q, 3), Choice(q, 4) + gap];
    var parts := Parts(Body(q) + gap);
    var n := |parts|;
    BodyParts(q, gap);
    assert parts == stemParts + five;
    assert parts[..n - 5] == stemParts && parts[n - 5..] == five;
    FiveAreLast(stemParts, q, gap);
    StemBack(q);
    ChoicesBack(q, gap);
  }

  lemma BodyParts(q: Question, gap: Text)
    requires Renderable(q) && (gap == [] || gap == [Blank])
    ensures Parts(Body(q) + gap) == Parts([Num(q.number)] + q.stem)
      + [Choice(q, 0), Choice(q, 1), Choice(q, 2), Choice(q, 3), Choice(q, 4) + gap]
  {
    hide Parts, Choices, Choice;
    assert forall k :: 0 <= k < 5 ==> PlainChoice(q.choices[k], q.number);
    PartsOfBody([Num(q.number)] + q.stem, q, gap);
  }

  lemma FiveAreLast(stemParts: seq<Text>, q: Question, gap: Text)
    requires stemParts != [] && |q.choices| == 5
    ensures LastFive(stemParts + [Choice(q, 0), Choice(q, 1), Choice(q, 2), Choice(q, 3), Choice(q, 4) + gap])
  {
    var five := [Choice(q, 0), Choice(q, 1), Choice(q, 2), Choice(q, 3), Choice(q, 4) + gap];
    var parts := stemParts + five;
    forall k | 0 <= k < 5 ensures parts[|parts| - 5 + k] == five[k] && five[k] != [] && five[k][0] == Mark(k) {
      assert five[k] == Choice(q, k) || five[k] == Choice(q, k) + gap;
    }
  }

  lemma StemBack(q: Question)
    requires Renderable(q)
    ensures var parts := Parts([Num(q.number)] + q.stem);
      Strip(RemoveNum(Join(parts))) == q.stem && (|parts| > 1 <==> !NoMark(q.stem))
  {
    var head := [Num(q.number)] + q.stem;
    PartsJoin(head);
    assert head[1..] == q.stem;
    StripTrimmed(q.stem);
    PartsCount(head);
    assert NoMark(head) <==> NoMark(q.stem) by {
      assert forall i :: 0 <= i < |q.stem| ==> head[i + 1] == q.stem[i];
    }
  }

  lemma ChoicesBack(q: Question, gap: Text)
    requires Renderable(q) && (gap == [] || gap == [Blank])
    ensures ChoicesOf([Choice(q, 0), Choice(q, 1), Choice(q, 2), Choice(q, 3), Choice(q, 4) + gap]) == q.choices
  {
    var five := [Choice(q, 0), Choice(q, 1), Choice(q, 2), Choice(q, 3), Choice(q, 4) + gap];
    forall k | 0 <= k < 5 ensures ChoiceOf(five[k]) == q.choices[k] {
      assert PlainChoice(q.choices[k], q.number);
      if k < 4 {
        assert five[k] == Choice(q, k) && Choice(q, k)[1..] == q.choices[k];
        StripTrimmed(q.choices[k]);
      } else {
        assert five[k][1..] == q.choices[4] + gap;
        StripTail(q.choices[4], gap);
      }
    }
  }

  lemma {:induction false} PremisesConcat(s: Text, t: Text)
    requires forall i :: 0 <= i < |t| ==> !t[i].Premise?
    ensures Premises(s + t) == Premises(s)
  {
    if t == [] {
      assert s + t == s;
    } else {
      assert (s + t)[..|s + t| - 1] == s + t[..|t| - 1];
      PremisesConcat(s, t[..|t| - 1]);
    }
  }

  /** Where the text of question `i` ends: at the next question, or with the text. */
  function EndOfQuestion(preamble: Text, qs: seq<Question>, i: nat): nat
    requires FiveEach(qs) && i < |qs|
  {
    if i + 1 < |qs| then StartOf(preamble, qs, i + 1) else |Clean(preamble, qs)|
  }

  lemma BodyAndGap(preamble: Text, qs: seq<Question>, i: nat) returns (gap: Text)
    requires FiveEach(qs) && i < |qs|
    ensures gap == [] || gap == [Blank]
    ensures StartOf(preamble, qs, i) < EndOfQuestion(preamble, qs, i) <= |Clean(preamble, qs)|
    ensures Clean(preamble, qs)[StartOf(preamble, qs, i)..EndOfQuestion(preamble, qs, i)] == Body(qs[i]) + gap
  {
    hide Clean, Reach, Body, Cleaned, Gap, StartOf;
    var t := Clean(preamble, qs);
    PieceOf(preamble, qs, i);
    var p, to := StartOf(preamble, qs, i), Reach(preamble, qs, i + 1);
    if i + 1 < |qs| {
      PieceOf(preamble, qs, i + 1);
      var end := StartOf(preamble, qs, i + 1);
      assert t[p..end] == t[p..to] + t[to..end];
      GapIsPlain(qs[i + 1], 0);
      gap := Gap(qs[i + 1]);
    } else {
      ReachesEnd(preamble, qs);
      gap := [];
      assert t[p..to] == Body(qs[i]) + [];
    }
  }

  /** Splitting a rendered exam works on the cleaned text and its blocks. */
  lemma SplitOfRendered(preamble: Text, qs: seq<Question>)
    requires FiveEach(qs) && Exam(preamble, qs)
    ensures var t := Clean(preamble, qs); var starts := Starts(t, 0, 1);
      && StartsIn(t, starts)
      && Split(Render(preamble, qs)) ==
         ParseAll(t, starts, BlocksOf(qs, |qs|), if starts == [] then [] else Premises(t[..starts[0]]))
  {
    hide Extract, Starts, ParseAll, Clean, Reach, Cleaned, Printed, Printable, Premises, BlocksOf;
    RenderedText(preamble, qs);
    ExtractFrom(preamble, qs, 0);
    StartsAreMarkers(Clean(preamble, qs), 0, 1);
  }

  lemma QuestionStarts(preamble: Text, qs: seq<Question>, i: nat)
    requires FiveEach(qs) && i < |qs|
    ensures StartOf(preamble, qs, i) < |Clean(preamble, qs)|
    ensures Clean(preamble, qs)[StartOf(preamble, qs, i)] == Num(qs[i].number)
    ensures i + 1 < |qs| ==> StartOf(preamble, qs, i) < StartOf(preamble, qs, i + 1)
  {
    hide Clean, StartOf, Body;
    var gap := BodyAndGap(preamble, qs, i);
    var b := Body(qs[i]) + gap;
    assert Clean(preamble, qs)[StartOf(preamble, qs, i)] == b[0];
  }

  /** In a clear exam the accepted markers are exactly those of the questions. */
  lemma ClearExamStarts(preamble: Text, qs: seq<Question>)
    requires FiveEach(qs) && ClearExam(preamble, qs)
    ensures Starts(Clean(preamble, qs), 0, 1) == StartsOf(preamble, qs, |qs|)
  {
    hide Starts, Clean, Reach, Body, Cleaned, Clear, StartOf;
    forall i | 0 <= i < |qs| ensures NoStart(Body(qs[i])[1..], qs[i].number + 1) { BodyIsPlain(qs[i]); }
    StartsOfRendered(preamble, qs, |qs|);
    ReachesEnd(preamble, qs);
    NothingStartsAtEnd(Clean(preamble, qs), NextNumber(qs, |qs|));
  }

  /** The block of one question of a clear exam is parsed back. */
  lemma ClearBlockParsed(preamble: Text, qs: seq<Question>, i: nat, notes: seq<string>)
    requires FiveEach(qs) && i < |qs| && Renderable(qs[i])
    ensures var t, q, blocks := Clean(preamble, qs), qs[i], BlocksOf(qs, |qs|);
      && StartOf(preamble, qs, i) < EndOfQuestion(preamble, qs, i) <= |t|
      && t[StartOf(preamble, qs, i)] == Num(q.number)
      && ParseBlock(t[StartOf(preamble, qs, i)..EndOfQuestion(preamble, qs, i)], q.number, blocks, notes)
         == Parsed(q.number, FullStem(q.stem, q.number, blocks, notes), q.choices, !NoMark(q.stem))
  {
    hide ParseBlock, Clean, Body, Renderable, BlocksOf, StartOf, FullStem, NoMark, EndOfQuestion;
    var gap := BodyAndGap(preamble, qs, i);
    QuestionStarts(preamble, qs, i);
    ParseRendered(qs[i], gap, BlocksOf(qs, |qs|), notes);
  }

  /** A clear exam is split back. */
  lemma ClearExamSplits(preamble: Text, qs: seq<Question>)
    requires FiveEach(qs) && Exam(preamble, qs) && ClearExam(preamble, qs)
    ensures Split(Render(preamble, qs)) == Expected(preamble, qs)
  {
    hide Split, Render, Starts, ParseBlock, Clean, FullStem, Clear, Printable, Premises, BlocksOf, StartOf, PrintedStem;
    var t, blocks := Clean(preamble, qs), BlocksOf(qs, |qs|);
    var starts := StartsOf(preamble, qs, |qs|);
    SplitOfRendered(preamble, qs);
    ClearExamStarts(preamble, qs);
    if qs != [] {
      var notes := Premises(t[..starts[0]]);
      NotesOf(preamble, qs);
      forall i | 0 <= i < |qs| ensures Split(Render(preamble, qs))[i] == Expected(preamble, qs)[i] {
        FullStemIsPrinted(preamble, qs, i);
        ClearBlockParsed(preamble, qs, i, notes);
        assert starts[i] == StartOf(preamble, qs, i) && EndOf(t, starts, i) == EndOfQuestion(preamble, qs, i);
      }
    }
  }

  lemma NothingStartsAtEnd(t: Text, next: nat)
    ensures Starts(t, |t|, next) == []
  {
  }

  lemma RenderedText(preamble: Text, qs: seq<Question>)
    requires FiveEach(qs)
    ensures Partly(preamble, qs, 0) == Render(preamble, qs) && BlocksOf(qs, 0) == map[]
    ensures Clean(preamble, qs) == preamble + Cleaned(qs, |qs|)
    ensures Reach(preamble, qs, 0) == |preamble|
  {
    hide Printed;
    assert preamble + [] == preamble;
  }

  lemma PreambleIsSkipped(preamble: Text, qs: seq<Question>)
    requires FiveEach(qs) && NoStart(preamble, 1)
    ensures |preamble| <= |Clean(preamble, qs)|
    ensures Reach(preamble, qs, 0) == |preamble|
    ensures Starts(Clean(preamble, qs), 0, 1) == Starts(Clean(preamble, qs), |preamble|, 1)
  {
    var t := Clean(preamble, qs);
    assert forall m :: 0 <= m < |preamble| ==> t[m] == preamble[m];
    SkipPlain(t, 0, |preamble|, 1);
  }

  lemma NotesOf(preamble: Text, qs: seq<Question>)
    requires FiveEach(qs) && qs != []
    ensures StartOf(preamble, qs, 0) <= |Clean(preamble, qs)|
    ensures Premises(Clean(preamble, qs)[..StartOf(preamble, qs, 0)]) == Premises(preamble)
  {
    hide Clean, Reach, Body;
    PieceOf(preamble, qs, 0);
    GapIsPlain(qs[0], 0);
    assert preamble + [] + Gap(qs[0]) == preamble + Gap(qs[0]);
    PremisesConcat(preamble, Gap(qs[0]));
  }
}
