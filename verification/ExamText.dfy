/** The exam text splitter, over tokens: question-number markers, circled choice marks, headings of
    blocks shared by two questions, exam-wide premises, words, and blanks that trimming removes. */
module ExamText {

  datatype Token =
    | Num(n: nat)                      // a number and a dot at the start of a line
    | Mark(k: nat)                     // one of the circled figures, counted from zero
    | Shared(first: nat, second: nat)  // "answer numbers `first` and `second` from the following"
    | Premise(text: string)            // an exam-wide premise worth keeping
    | Note(premises: seq<string>)      // the premises as injected into a stem
    | Word(text: string)
    | Blank

  type Text = seq<Token>

  datatype Parsed = Parsed(number: nat, stem: Text, choices: seq<Text>, overflow: bool)

  // ---- Trimming and searching ----

  function Strip(t: Text): Text {
    if t == [] then []
    else if t[0] == Blank then Strip(t[1..])
    else if t[|t| - 1] == Blank then Strip(t[..|t| - 1])
    else t
  }

  /** The first shared heading at or after `i`. */
  function FindShared(t: Text, i: nat): (p: nat)
    requires i <= |t|
    ensures i <= p <= |t| && (p < |t| ==> t[p].Shared?) && forall j :: i <= j < p ==> !t[j].Shared?
    decreases |t| - i
  {
    if i == |t| || t[i].Shared? then i else FindShared(t, i + 1)
  }

  /** The first marker of question `n` at or after `i`. */
  function FindNum(t: Text, i: nat, n: nat): (p: nat)
    requires i <= |t|
    ensures i <= p <= |t| && (p < |t| ==> t[p] == Num(n)) && forall j :: i <= j < p ==> t[j] != Num(n)
    decreases |t| - i
  {
    if i == |t| || t[i] == Num(n) then i else FindNum(t, i + 1, n)
  }

  // ---- Shared blocks ----

  type Blocks = map<nat, Text>

  /** A block ends where its first question starts; without that question only the heading is cut. */
  function BlockEnd(t: Text, p: nat): (e: nat)
    requires p < |t| && t[p].Shared?
    ensures p < e <= |t|
  {
    var q := FindNum(t, p + 1, t[p].first);
    if q < |t| then q else p + 1
  }

  function Cut(t: Text, p: nat): Text
    requires p < |t| && t[p].Shared?
  {
    t[..p] + [Blank] + t[BlockEnd(t, p)..]
  }

  function AddBlock(t: Text, p: nat, blocks: Blocks): Blocks
    requires p < |t| && t[p].Shared?
  {
    var block := Strip(t[p..BlockEnd(t, p)]);
    blocks[t[p].first := block][t[p].second := block]
  }

  /** Cut out one block after the other; `i` bounds from below where the next heading can be. */
  function Extract(t: Text, i: nat, blocks: Blocks): (Text, Blocks)
    requires i <= |t|
    decreases |t| - i
  {
    var p := FindShared(t, i);
    if p == |t| then (t, blocks) else Extract(Cut(t, p), p + 1, AddBlock(t, p, blocks))
  }

  lemma SearchFromStart(t: Text, i: nat)
    requires i <= |t| && forall j :: 0 <= j < i ==> !t[j].Shared?
    ensures FindShared(t, 0) == FindShared(t, i)
  {
    hide FindShared;
    var p, q := FindShared(t, 0), FindShared(t, i);
    assert q == |t| || t[q].Shared?;
  }

  lemma CutClears(t: Text, p: nat)
    requires p < |t| && t[p].Shared? && forall j :: 0 <= j < p ==> !t[j].Shared?
    ensures p + 1 <= |Cut(t, p)| <= |t|
    ensures forall j :: 0 <= j < p + 1 ==> !Cut(t, p)[j].Shared?
  {
    hide BlockEnd;
  }

  /** The search always restarts at the beginning; what precedes the last cut holds no heading. */
  method ExtractSharedBlocks(text: Text) returns (t: Text, blocks: Blocks)
    ensures (t, blocks) == Extract(text, 0, map[])
    ensures forall j :: 0 <= j < |t| ==> !t[j].Shared?
  {
    hide FindShared, Cut, AddBlock;
    t, blocks := text, map[];
    ghost var i: nat := 0;
    while true
      invariant i <= |t| && Extract(t, i, blocks) == Extract(text, 0, map[])
      invariant forall j :: 0 <= j < i ==> !t[j].Shared?
      decreases |t| - i
    {
      var p := FindShared(t, 0);
      SearchFromStart(t, i);
      if p == |t| {
        return;
      }
      CutClears(t, p);
      i := p + 1;
      t, blocks := Cut(t, p), AddBlock(t, p, blocks);
    }
  }

  // ---- Question starts ----

  /** Markers are accepted in increasing order, with gaps of at most three lost questions. */
  predicate Acceptable(x: Token, next: nat) {
    x.Num? && next <= x.n <= next + 3
  }

  function Starts(t: Text, i: nat, next: nat): seq<nat>
    requires i <= |t|
    decreases |t| - i
  {
    if i == |t| then []
    else if Acceptable(t[i], next) then [i] + Starts(t, i + 1, t[i].n + 1)
    else Starts(t, i + 1, next)
  }

  method FindStarts(t: Text) returns (filtered: seq<nat>)
    ensures filtered == Starts(t, 0, 1)
  {
    filtered := [];
    var next: nat := 1;
    for i := 0 to |t|
      invariant filtered + Starts(t, i, next) == Starts(t, 0, 1)
    {
      if t[i].Num? {
        if t[i].n == next || next < t[i].n <= next + 3 {
          assert filtered + ([i] + Starts(t, i + 1, t[i].n + 1)) == (filtered + [i]) + Starts(t, i + 1, t[i].n + 1);
          filtered := filtered + [i];
          next := t[i].n + 1;
        }
      }
    }
  }

  /** Where the block of the `i`-th accepted start ends. */
  function EndOf(t: Text, starts: seq<nat>, i: nat): nat {
    if i + 1 < |starts| then starts[i + 1] else |t|
  }

  // ---- One question ----

  /** The block cut before every circled mark. */
  function Parts(b: Text): (p: seq<Text>)
    ensures |p| >= 1
  {
    if b == [] then [[]]
    else
      var p := Parts(b[..|b| - 1]);
      var x := b[|b| - 1];
      if x.Mark? then p + [[x]] else p[|p| - 1 := p[|p| - 1] + [x]]
  }

  function Join(parts: seq<Text>): Text {
    if parts == [] then [] else Join(parts[..|parts| - 1]) + parts[|parts| - 1]
  }

  /** Do the last five parts start with the five marks in order? */
  predicate LastFive(parts: seq<Text>) {
    |parts| >= 6 && forall k :: 0 <= k < 5 ==>
      var p := parts[|parts| - 5 + k]; p != [] && p[0] == Mark(k)
  }

  function RemoveNum(t: Text): Text {
    if t == [] then [] else if t[0].Num? then t[1..] else [t[0]] + RemoveNum(t[1..])
  }

  function ChoiceOf(part: Text): Text {
    if part == [] then [] else Strip(part[1..])
  }

  function ChoicesOf(parts: seq<Text>): (c: seq<Text>)
    ensures |c| == |parts|
  {
    seq(|parts|, k requires 0 <= k < |parts| => ChoiceOf(parts[k]))
  }

  function Premises(t: Text): seq<string> {
    if t == [] then []
    else Premises(t[..|t| - 1]) + if t[|t| - 1].Premise? then [t[|t| - 1].text] else []
  }

  /** The stem as stored: the premises of the exam, then the shared block, then the question itself. */
  function FullStem(stem: Text, number: nat, blocks: Blocks, notes: seq<string>): Text {
    var s := if number in blocks then blocks[number] + [Blank] + stem else stem;
    if notes != [] then [Note(notes), Blank] + s else s
  }

  function ParseBlock(b: Text, number: nat, blocks: Blocks, notes: seq<string>): Parsed {
    var parts := Parts(b);
    var n := |parts|;
    var (stemText, choices) :=
      if LastFive(parts) then (Join(parts[..n - 5]), parts[n - 5..])
      else (parts[0], if n <= 6 then parts[1..] else parts[1..6]);
    Parsed(number, FullStem(Strip(RemoveNum(stemText)), number, blocks, notes), ChoicesOf(choices), n > 6)
  }

  /** Each accepted start opens a block that runs to the next. */
  function ParseAll(t: Text, starts: seq<nat>, blocks: Blocks, notes: seq<string>): (qs: seq<Parsed>)
    requires StartsIn(t, starts)
    ensures |qs| == |starts|
  {
    seq(|starts|, i requires 0 <= i < |starts| =>
      ParseBlock(t[starts[i]..EndOf(t, starts, i)], t[starts[i]].n, blocks, notes))
  }

  ghost predicate StartsIn(t: Text, starts: seq<nat>) {
    && (forall i :: 0 <= i < |starts| ==> starts[i] < |t| && t[starts[i]].Num?)
    && (forall i, j :: 0 <= i < j < |starts| ==> starts[i] < starts[j])
  }

  lemma {:induction false} StartsAreMarkers(t: Text, i: nat, next: nat)
    requires i <= |t|
    ensures StartsIn(t, Starts(t, i, next))
    ensures forall k :: 0 <= k < |Starts(t, i, next)| ==> Starts(t, i, next)[k] >= i
    decreases |t| - i
  {
    if i < |t| {
      if Acceptable(t[i], next) {
        StartsAreMarkers(t, i + 1, t[i].n + 1);
      } else {
        StartsAreMarkers(t, i + 1, next);
      }
    }
  }

  /** Accepted numbers follow one another with gaps of at most three. */
  lemma {:induction false} StartsFollow(t: Text, i: nat, next: nat, k: nat)
    requires i <= |t| && k < |Starts(t, i, next)| && StartsIn(t, Starts(t, i, next))
    ensures Acceptable(t[Starts(t, i, next)[k]], if k == 0 then next else t[Starts(t, i, next)[k - 1]].n + 1)
    decreases |t| - i
  {
    if Acceptable(t[i], next) {
      var rest := Starts(t, i + 1, t[i].n + 1);
      StartsAreMarkers(t, i + 1, t[i].n + 1);
      if k > 0 {
        StartsFollow(t, i + 1, t[i].n + 1, k - 1);
        assert Starts(t, i, next)[k] == rest[k - 1];
      }
    } else {
      StartsFollow(t, i + 1, next, k);
    }
  }

  function Split(text: Text): seq<Parsed> {
    var (t, blocks) := Extract(text, 0, map[]);
    var starts := Starts(t, 0, 1);
    StartsAreMarkers(t, 0, 1);
    ParseAll(t, starts, blocks, if starts == [] then [] else Premises(t[..starts[0]]))
  }

  method ParseQuestion(b: Text, number: nat, blocks: Blocks, notes: seq<string>) returns (q: Parsed)
    ensures q == ParseBlock(b, number, blocks, notes)
  {
    var parts := Parts(b);
    var n := |parts|;
    var stemText, choices;
    if n >= 6 && LastFive(parts) {
      stemText, choices := Join(parts[..n - 5]), parts[n - 5..];
    } else {
      stemText, choices := parts[0], if n <= 6 then parts[1..] else parts[1..6];
    }
    var stem := Strip(RemoveNum(stemText));
    if number in blocks { stem := blocks[number] + [Blank] + stem; }
    if notes != [] { stem := [Note(notes), Blank] + stem; }
    q := Parsed(number, stem, ChoicesOf(choices), n > 6);
  }

  method SplitQuestions(text: Text) returns (questions: seq<Parsed>)
    ensures questions == Split(text)
  {
    hide ParseBlock, Extract, Starts, Premises;
    var t, blocks := ExtractSharedBlocks(text);
    var starts := FindStarts(t);
    StartsAreMarkers(t, 0, 1);
    var notes := if starts == [] then [] else Premises(t[..starts[0]]);
    questions := ParseEach(t, starts, blocks, notes);
  }

  method ParseEach(t: Text, starts: seq<nat>, blocks: Blocks, notes: seq<string>) returns (questions: seq<Parsed>)
    requires StartsIn(t, starts)
    ensures questions == ParseAll(t, starts, blocks, notes)
  {
    hide ParseBlock;
    questions := [];
    for i := 0 to |starts|
      invariant |questions| == i
      invariant forall k :: 0 <= k < i ==>
          questions[k] == ParseBlock(t[starts[k]..EndOf(t, starts, k)], t[starts[k]].n, blocks, notes)
    {
      var q := ParseQuestion(t[starts[i]..EndOf(t, starts, i)], t[starts[i]].n, blocks, notes);
      questions := questions + [q];
    }
  }

  // ---- Nothing is lost ----

  function BlocksFrom(t: Text, starts: seq<nat>, i: nat): Text
    requires StartsIn(t, starts) && i <= |starts|
    decreases |starts| - i
  {
    if i == |starts| then [] else t[starts[i]..EndOf(t, starts, i)] + BlocksFrom(t, starts, i + 1)
  }

  lemma SliceOn(t: Text, a: nat, b: nat)
    requires a <= b <= |t|
    ensures t[a..b] + t[b..] == t[a..]
  {
  }

  lemma NoBlocksLeft(t: Text, starts: seq<nat>)
    requires StartsIn(t, starts)
    ensures BlocksFrom(t, starts, |starts|) == []
  {
  }

  lemma {:induction false} BlocksReach(t: Text, starts: seq<nat>, i: nat)
    requires StartsIn(t, starts) && i < |starts|
    ensures BlocksFrom(t, starts, i) == t[starts[i]..]
    decreases |starts| - i
  {
    var e := EndOf(t, starts, i);
    assert BlocksFrom(t, starts, i) == t[starts[i]..e] + BlocksFrom(t, starts, i + 1);
    if i + 1 < |starts| {
      BlocksReach(t, starts, i + 1);
    } else {
      NoBlocksLeft(t, starts);
    }
    SliceOn(t, starts[i], e);
  }

  /** For any text: the accepted blocks tile it from the first accepted marker to the end, and the
      question numbers rise by one to four, starting from one to four. */
  lemma BlocksTile(t: Text)
    requires Starts(t, 0, 1) != []
    ensures StartsIn(t, Starts(t, 0, 1))
    ensures BlocksFrom(t, Starts(t, 0, 1), 0) == t[Starts(t, 0, 1)[0]..]
    ensures var starts := Starts(t, 0, 1);
      && 1 <= t[starts[0]].n <= 4
      && forall k :: 0 < k < |starts| ==> t[starts[k - 1]].n < t[starts[k]].n <= t[starts[k - 1]].n + 4
  {
    var starts := Starts(t, 0, 1);
    StartsAreMarkers(t, 0, 1);
    BlocksReach(t, starts, 0);
    StartsFollow(t, 0, 1, 0);
    forall k | 0 < k < |starts| ensures t[starts[k - 1]].n < t[starts[k]].n <= t[starts[k - 1]].n + 4 {
      StartsFollow(t, 0, 1, k);
    }
  }

  lemma {:induction false} JoinAppend(parts: seq<Text>, last: Text)
    ensures Join(parts + [last]) == Join(parts) + last
  {
    assert (parts + [last])[..|parts|] == parts;
  }

  /** Cutting at the marks loses nothing. */
  lemma {:induction false} PartsJoin(b: Text)
    ensures Join(Parts(b)) == b
  {
    hide Join;
    if b == [] {
      JoinAppend([], b);
      JoinNothing();
      assert [b] == [] + [b];
    } else {
      var front, x := b[..|b| - 1], b[|b| - 1];
      var p := Parts(front);
      PartsJoin(front);
      assert b == front + [x];
      if x.Mark? {
        JoinAppend(p, [x]);
      } else {
        var init, last := p[..|p| - 1], p[|p| - 1];
        assert p == init + [last];
        assert Parts(b) == init + [last + [x]];
        JoinAppend(init, last + [x]);
        JoinAppend(init, last);
      }
    }
  }

  lemma JoinNothing()
    ensures Join([]) == []
  {
  }
}
