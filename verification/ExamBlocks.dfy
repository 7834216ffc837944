/** What the splitter makes of any block, and of headings without their question. */
module ExamBlocks {
  import opened ExamClarity
  import opened ExamRendering
  import opened ExamText

  /** A circled figure and the text behind it. */
  datatype Item = Item(figure: nat, text: Text)

  function Marked(items: seq<Item>): Text {
    if items == [] then []
    else
      var last := items[|items| - 1];
      Marked(items[..|items| - 1]) + ([Mark(last.figure)] + last.text)
  }

  function MarkedParts(items: seq<Item>): (p: seq<Text>)
    ensures |p| == |items|
  {
    seq(|items|, i requires 0 <= i < |items| => [Mark(items[i].figure)] + items[i].text)
  }

  ghost predicate Unmarked(items: seq<Item>) {
    forall i :: 0 <= i < |items| ==> NoMark(items[i].text)
  }

  /** The parts of any block: what precedes the first circled figure, then each figure with its text. */
  lemma {:induction false} PartsOfMarked(head: Text, items: seq<Item>)
    requires NoMark(head) && Unmarked(items)
    ensures Parts(head + Marked(items)) == [head] + MarkedParts(items)
  {
    hide Parts, NoMark;
    if items == [] {
      assert head + Marked(items) == head;
      UncutPart(head);
    } else {
      var front, last := items[..|items| - 1], items[|items| - 1];
      PartsOfMarked(head, front);
      PartsChoice(head + Marked(front), last.figure, last.text);
      assert head + Marked(items) == head + Marked(front) + ([Mark(last.figure)] + last.text);
      assert MarkedParts(items) == MarkedParts(front) + [[Mark(last.figure)] + last.text];
    }
  }

  lemma {:induction false} UncutPart(t: Text)
    requires NoMark(t)
    ensures Parts(t) == [t]
  {
    if t != [] {
      UncutPart(t[..|t| - 1]);
      assert t == t[..|t| - 1] + [t[|t| - 1]];
    }
  }

  /** Are the last five figures the five of a question, in order? */
  predicate EndsInFive(items: seq<Item>) {
    |items| >= 5 && var last := items[|items| - 5..]; forall k :: 0 <= k < 5 ==> last[k].figure == k
  }

  lemma LastFiveIff(head: Text, items: seq<Item>)
    ensures LastFive([head] + MarkedParts(items)) <==> EndsInFive(items)
  {
    if |items| >= 5 {
      var parts, last := [head] + MarkedParts(items), items[|items| - 5..];
      var five := parts[|parts| - 5..];
      forall k | 0 <= k < 5
        ensures five[k] == parts[|parts| - 5 + k] && five[k] != [] && five[k][0] == Mark(last[k].figure)
      {
        assert five[k] == MarkedParts(items)[|items| - 5 + k] && last[k] == items[|items| - 5 + k];
      }
      if EndsInFive(items) {
        forall k | 0 <= k < 5 ensures parts[|parts| - 5 + k] != [] && parts[|parts| - 5 + k][0] == Mark(k) {
          assert five[k][0] == Mark(last[k].figure);
        }
      }
      if LastFive(parts) {
        forall k | 0 <= k < 5 ensures last[k].figure == k {
          assert parts[|parts| - 5 + k][0] == Mark(k);
          assert five[k][0] == Mark(last[k].figure);
        }
      }
    }
  }

  /** Which figures of a block are taken for its choices: the last five if they are the five in order,
      otherwise the first five at most. The stem is what precedes them, or precedes every figure. */
  function FirstChoice(items: seq<Item>): (k: nat)
    ensures k <= |items|
  {
    if EndsInFive(items) then |items| - 5 else 0
  }

  function StopChoice(items: seq<Item>): (k: nat)
    ensures FirstChoice(items) <= k <= |items|
  {
    if EndsInFive(items) then |items| else if |items| < 5 then |items| else 5
  }

  /** What any block yields, however many figures it has and in whatever order. */
  lemma BlockYields(number: nat, head: Text, items: seq<Item>, blocks: Blocks, notes: seq<string>)
    requires NoMark(head) && Unmarked(items)
    ensures var p := ParseBlock([Num(number)] + head + Marked(items), number, blocks, notes);
      var from, to := FirstChoice(items), StopChoice(items);
      && p.number == number && (p.overflow <==> |items| > 5) && |p.choices| == to - from
      && (forall i :: from <= i < to ==> p.choices[i - from] == Strip(items[i].text))
      && p.stem == FullStem(Strip(head + Marked(items[..from])), number, blocks, notes)
  {
    hide Parts, Strip, FullStem, NoMark, LastFive, Marked, MarkedParts;
    var h, from, to := [Num(number)] + head, FirstChoice(items), StopChoice(items);
    var parts := [h] + MarkedParts(items);
    HeadUnmarked(number, head);
    PartsOfMarked(h, items);
    LastFiveIff(h, items);
    var p := ParseBlock(h + Marked(items), number, blocks, notes);
    assert p.choices == ChoicesOf(parts[1 + from..1 + to]);
    forall i | from <= i < to ensures p.choices[i - from] == Strip(items[i].text) {
      assert parts[1 + from..1 + to][i - from] == parts[1 + i] == MarkedParts(items)[i];
      ChoiceText(items, i);
    }
    StemText(number, head, items, from);
  }

  lemma HeadUnmarked(number: nat, head: Text)
    requires NoMark(head)
    ensures NoMark([Num(number)] + head)
  {
  }

  lemma ChoiceText(items: seq<Item>, i: nat)
    requires i < |items|
    ensures ChoiceOf(MarkedParts(items)[i]) == Strip(items[i].text)
  {
    hide Strip;
    assert ([Mark(items[i].figure)] + items[i].text)[1..] == items[i].text;
  }

  /** What precedes the choices, without the question's number. */
  lemma StemText(number: nat, head: Text, items: seq<Item>, from: nat)
    requires NoMark(head) && Unmarked(items) && from <= |items|
    ensures var h := [Num(number)] + head;
      && RemoveNum(Join(([h] + MarkedParts(items))[..1 + from])) == head + Marked(items[..from])
      && (from == 0 ==> RemoveNum(h) == head + Marked(items[..from]))
  {
    hide Parts, NoMark, Join;
    var h, front := [Num(number)] + head, items[..from];
    HeadUnmarked(number, head);
    assert ([h] + MarkedParts(items))[..1 + from] == [h] + MarkedParts(front);
    PartsOfMarked(h, front);
    PartsJoin(h + Marked(front));
    assert (h + Marked(front))[1..] == head + Marked(front);
    assert h[1..] == head;
    if from == 0 { assert head + Marked(front) == head; }
  }

  /** Trimming takes away blanks and nothing else. */
  lemma {:induction false} StripTakesBlanksOnly(t: Text) returns (a: nat, b: nat)
    ensures a <= b <= |t| && Strip(t) == t[a..b]
    ensures forall i :: (0 <= i < a || b <= i < |t|) ==> t[i] == Blank
  {
    a, b := 0, |t|;
    if t != [] && t[0] == Blank {
      a, b := StripTakesBlanksOnly(t[1..]);
      assert t[1..][a..b] == t[a + 1..b + 1];
      assert forall i :: 1 <= i < |t| ==> t[i] == t[1..][i - 1];
      a, b := a + 1, b + 1;
    } else if t != [] && t[|t| - 1] == Blank {
      a, b := StripTakesBlanksOnly(t[..|t| - 1]);
      assert t[..|t| - 1][a..b] == t[a..b];
      assert forall i :: 0 <= i < |t| - 1 ==> t[i] == t[..|t| - 1][i];
    }
  }

  lemma LoneHeadingFound(before: Text, first: nat, second: nat, after: Text)
    requires NoShared(before) && Num(first) !in after
    ensures var t := before + [Shared(first, second)] + after;
      FindShared(t, 0) == |before| && BlockEnd(t, |before|) == |before| + 1
  {
    hide FindShared, FindNum;
    var t, p := before + [Shared(first, second)] + after, |before|;
    assert t[p] == Shared(first, second) && forall j :: 0 <= j < p ==> t[j] == before[j];
    assert FindShared(t, 0) == p;
    assert forall j :: p + 1 <= j < |t| ==> t[j] == after[j - p - 1] && t[j] in after;
  }

  /** A heading whose question never starts is cut out alone, and stands for both its questions. */
  lemma LoneHeading(before: Text, first: nat, second: nat, after: Text, blocks: Blocks)
    requires NoShared(before) && Num(first) !in after
    ensures var heading := [Shared(first, second)];
      Extract(before + heading + after, 0, blocks)
      == Extract(before + [Blank] + after, 0, blocks[first := heading][second := heading])
  {
    hide FindShared, FindNum, BlockEnd, Extract;
    var t, p := before + [Shared(first, second)] + after, |before|;
    LoneHeadingFound(before, first, second, after);
    assert t[p + 1..] == after && t[..p] == before;
    assert t[p..p + 1] == [Shared(first, second)];
    assert Strip(t[p..p + 1]) == t[p..p + 1];
    CutClears(t, p);
    ExtractStep(t, blocks);
    ExtractFromStart(Cut(t, p), p + 1, AddBlock(t, p, blocks));
  }

  lemma ExtractStep(t: Text, blocks: Blocks)
    requires FindShared(t, 0) < |t|
    ensures var p := FindShared(t, 0);
      p + 1 <= |Cut(t, p)| && Extract(t, 0, blocks) == Extract(Cut(t, p), p + 1, AddBlock(t, p, blocks))
  {
    hide Cut, AddBlock, FindShared;
    CutClears(t, FindShared(t, 0));
  }
}
