/** What a weak concept is matched to, which terms a trace finds and how a path is ordered, in terms of
    texts, prerequisite lists and depths alone. */
module ConceptMatching {
  import opened LearningPath
  import opened Order
  import opened Text
  import opened Wrappers

  // ---- The two readings of a concept ----

  predicate White(c: char) {
    c == ' ' || c == '\t' || c == '\n' || c == '\r'
  }

  ghost predicate Blank(s: string) {
    forall i :: 0 <= i < |s| ==> White(s[i])
  }

  ghost predicate Tight(t: string) {
    t != "" ==> !White(t[0]) && !White(t[|t| - 1])
  }

  /** `t` is `s` without the blanks around it. */
  ghost predicate TrimOf(s: string, t: string) {
    Tight(t) && exists a, b :: Blank(a) && Blank(b) && s == a + t + b
  }

  lemma {:induction false} StripTrims(s: string)
    ensures TrimOf(s, Strip(s))
  {
    hide Strip;
    StripStep(s);
    var t := Strip(s);
    if s != "" && White(s[0]) {
      StripTrims(s[1..]);
      var a, b :| Blank(a) && Blank(b) && s[1..] == a + t + b;
      assert s == ([s[0]] + a) + t + b && Blank([s[0]] + a);
    } else if s != "" && White(s[|s| - 1]) {
      StripTrims(s[..|s| - 1]);
      var a, b :| Blank(a) && Blank(b) && s[..|s| - 1] == a + t + b;
      assert s == a + t + (b + [s[|s| - 1]]) && Blank(b + [s[|s| - 1]]);
    } else {
      assert s == [] + s + [] && Blank([]);
    }
  }

  lemma StripStep(s: string)
    ensures Strip(s) == if s == "" then "" else if White(s[0]) then Strip(s[1..])
                        else if White(s[|s| - 1]) then Strip(s[..|s| - 1]) else s
  {
  }

  lemma TrimIsUnique(s: string, t: string)
    requires TrimOf(s, t)
    ensures t == Strip(s)
  {
    hide Strip;
    var a, b :| Blank(a) && Blank(b) && s == a + t + b;
    StripAround(a, t, b);
  }

  lemma {:induction false} StripAround(a: string, t: string, b: string)
    requires Blank(a) && Blank(b) && Tight(t)
    ensures Strip(a + t + b) == t
    decreases |a| + |b|
  {
    hide Strip;
    var s := a + t + b;
    StripStep(s);
    if a != [] {
      assert s[1..] == a[1..] + t + b;
      StripAround(a[1..], t, b);
    } else if b != [] && t == "" {
      assert s[1..] == a + t + b[1..];
      StripAround(a, t, b[1..]);
    } else if b != [] {
      assert s[..|s| - 1] == a + t + b[..|b| - 1];
      StripAround(a, t, b[..|b| - 1]);
    } else {
      assert s == t;
    }
  }

  /** The concept with plain colons. */
  function Colons(s: string): (r: string)
    ensures |r| == |s| && forall i :: 0 <= i < |s| ==> r[i] == if s[i] == '\U{FF1A}' then ':' else s[i]
  {
    seq(|s|, i requires 0 <= i < |s| => if s[i] == '\U{FF1A}' then ':' else s[i])
  }

  ghost predicate Behind(whole: string, rest: string) {
    exists head :: ':' !in head && whole == head + ":" + rest
  }

  /** `whole` is the trimmed concept, `tail` the trimmed text behind its first colon, empty without one. */
  ghost predicate Readings(concept: string, whole: string, tail: string) {
    && TrimOf(Colons(concept), whole)
    && if ':' in whole then exists rest :: Behind(whole, rest) && TrimOf(rest, tail) else tail == ""
  }

  lemma {:induction false} AfterColonIsBehind(s: string)
    ensures ':' !in s ==> AfterColon(s) == None
    ensures ':' in s ==> AfterColon(s).Some? && Behind(s, AfterColon(s).value)
  {
    if s != "" {
      AfterColonIsBehind(s[1..]);
      if s[0] == ':' {
        assert s == [] + ":" + s[1..];
      } else if ':' in s {
        assert ':' in s[1..];
        var head :| ':' !in head && s[1..] == head + ":" + AfterColon(s).value;
        assert s == ([s[0]] + head) + ":" + AfterColon(s).value;
      }
    }
  }

  lemma {:induction false} BehindIsUnique(s: string, head: string, rest: string)
    requires ':' !in head && s == head + ":" + rest
    ensures AfterColon(s) == Some(rest)
  {
    if head == "" {
      assert s[1..] == rest;
    } else {
      assert s[0] == head[0] && s[1..] == head[1..] + ":" + rest;
      BehindIsUnique(s[1..], head[1..], rest);
    }
  }

  /** Every concept has its readings. */
  lemma ReadingsExist(concept: string) returns (whole: string, tail: string)
    ensures Readings(concept, whole, tail)
  {
    whole, tail := Strip(Colons(concept)), "";
    StripTrims(Colons(concept));
    AfterColonIsBehind(whole);
    if ':' in whole {
      tail := Strip(AfterColon(whole).value);
      StripTrims(AfterColon(whole).value);
    }
  }

  lemma StripIsShort(s: string)
    ensures |Strip(s)| <= |s|
  {
    StripTrims(s);
  }

  lemma VariantsAreReadings(concept: string, whole: string, tail: string)
    requires Readings(concept, whole, tail)
    ensures Variants(concept) == (if whole == "" then [] else [whole]) + if tail == "" then [] else [tail]
  {
    hide Strip;
    TrimIsUnique(Colons(concept), whole);
    assert Colons(concept) == seq(|concept|, i requires 0 <= i < |concept| =>
      if concept[i] == '\U{FF1A}' then ':' else concept[i]);
    AfterColonIsBehind(whole);
    if ':' in whole {
      var rest :| Behind(whole, rest) && TrimOf(rest, tail);
      var head :| ':' !in head && whole == head + ":" + rest;
      BehindIsUnique(whole, head, rest);
      TrimIsUnique(rest, tail);
      StripIsShort(rest);
    }
  }

  // ---- Which term answers ----

  /** Can the term `t` be called `form`? Single characters are no names. */
  ghost predicate Called(terms: Terms, t: Id, form: string) {
    t in terms && |form| >= 2 && (form == terms[t].name || form in terms[t].aliases)
  }

  ghost predicate Related(text: string, form: string) {
    text != "" && (text == form || Contains(text, form) || Contains(form, text))
  }

  ghost predicate Answered(terms: Terms, text: string) {
    exists t, form :: Called(terms, t, form) && Related(text, form)
  }

  /** `u`, called `own`, goes before `t`, called `form`: the text itself before a name inside it before a
      name around it; then longer names inside, or shorter ones around; then the smaller id. */
  ghost predicate Before(text: string, u: Id, own: string, t: Id, form: string) {
    if own == text then form != text || StrLe(u, t)
    else if Contains(text, own) then
      form != text && (Contains(text, form) ==> |own| > |form| || (|own| == |form| && StrLe(u, t)))
    else
      form != text && !Contains(text, form) && (|own| < |form| || (|own| == |form| && StrLe(u, t)))
  }

  ghost predicate BestFor(terms: Terms, text: string, u: Id) {
    exists own :: Called(terms, u, own) && Related(text, own)
                  && forall t, form :: Called(terms, t, form) && Related(text, form) ==> Before(text, u, own, t, form)
  }

  function KeyFor(text: string, form: string, t: Id): Key {
    match Rate(text, form)
    case Some(r) => Key(r.rank, r.length, t)
    case None => Key(3, 0, t)
  }

  lemma BeforeMeansLess(text: string, u: Id, own: string, t: Id, form: string)
    requires Related(text, own) && Related(text, form)
    ensures KeyLe(KeyFor(text, own, u), KeyFor(text, form, t)) <==> Before(text, u, own, t, form)
  {
    hide Contains, StrLe;
    StrTotal(u, t);
  }

  lemma CandidatesAreCalled(terms: Terms, text: string, key: Key)
    requires text != ""
    ensures Candidate(terms, text, key) <==>
            exists form :: Called(terms, key.id, form) && Related(text, form) && key == KeyFor(text, form, key.id)
  {
    hide Contains;
    if Candidate(terms, text, key) {
      var form :| form in SurfaceForms(terms[key.id]) && Answers(text, form, key);
      assert Called(terms, key.id, form) && Related(text, form);
    }
    forall form | Called(terms, key.id, form) && Related(text, form) && key == KeyFor(text, form, key.id)
      ensures Candidate(terms, text, key)
    {
      assert form in SurfaceForms(terms[key.id]) && Answers(text, form, key);
    }
  }

  lemma BestCandidateIsBest(terms: Terms, text: string, key: Key)
    requires text != "" && BestCandidate(terms, text, key)
    ensures BestFor(terms, text, key.id)
  {
    hide Contains, KeyLe, Related, Called, Candidate, Before;
    CandidatesAreCalled(terms, text, key);
    var own :| Called(terms, key.id, own) && Related(text, own) && key == KeyFor(text, own, key.id);
    forall t, form | Called(terms, t, form) && Related(text, form) ensures Before(text, key.id, own, t, form) {
      RelatedIsRated(text, form);
      CandidatesAreCalled(terms, text, KeyFor(text, form, t));
      BeforeMeansLess(text, key.id, own, t, form);
    }
  }

  lemma RelatedIsRated(text: string, form: string)
    requires text != ""
    ensures Related(text, form) <==> Rate(text, form).Some?
  {
    hide Contains;
  }

  lemma BestIsBestCandidate(terms: Terms, text: string, u: Id) returns (key: Key)
    requires text != "" && BestFor(terms, text, u)
    ensures BestCandidate(terms, text, key) && key.id == u
  {
    hide Contains, KeyLe, Related, Called, Candidate, Before;
    var own :| Called(terms, u, own) && Related(text, own)
      && forall t, form :: Called(terms, t, form) && Related(text, form) ==> Before(text, u, own, t, form);
    RelatedIsRated(text, own);
    key := KeyFor(text, own, u);
    CandidatesAreCalled(terms, text, key);
    forall other | Candidate(terms, text, other) ensures KeyLe(key, other) {
      CandidatesAreCalled(terms, text, other);
      var form :| Called(terms, other.id, form) && Related(text, form) && other == KeyFor(text, form, other.id);
      BeforeMeansLess(text, u, own, other.id, form);
    }
  }

  lemma {:induction false} LeastKey(keys: set<Key>) returns (k: Key)
    requires keys != {}
    ensures k in keys && forall o :: o in keys ==> KeyLe(k, o)
  {
    hide KeyLe;
    k :| k in keys;
    KeyOrder(k, k);
    var rest := keys - {k};
    if rest != {} {
      var l := LeastKey(rest);
      KeyOrder(k, l);
      if KeyLe(k, l) {
        forall o | o in keys ensures KeyLe(k, o) {
          if o != k { KeyTransitive(k, l, o); }
        }
      } else {
        k := l;
      }
    }
  }

  /** Where some name is related to the text there is a best one. */
  lemma SomeBest(terms: Terms, text: string) returns (u: Id)
    requires Answered(terms, text)
    ensures BestFor(terms, text, u)
  {
    hide Contains, KeyLe, Related, Called, Candidate, Rate;
    var keys := set t, f | t in terms.Keys && f in SurfaceForms(terms[t]) && Rate(text, f).Some? :: KeyFor(text, f, t);
    var t, form :| Called(terms, t, form) && Related(text, form);
    assert text != "" by { RelatedIsNotEmpty(text, form); }
    forall key ensures key in keys <==> Candidate(terms, text, key) {
      CandidatesAreCalled(terms, text, key);
      if key in keys {
        var t, f :| t in terms.Keys && f in SurfaceForms(terms[t]) && Rate(text, f).Some? && key == KeyFor(text, f, t);
        RelatedIsRated(text, f);
        CalledMeans(terms, t, f);
      }
      if Candidate(terms, text, key) {
        var f :| Called(terms, key.id, f) && Related(text, f) && key == KeyFor(text, f, key.id);
        RelatedIsRated(text, f);
        CalledMeans(terms, key.id, f);
      }
    }
    RelatedIsRated(text, form);
    CandidatesAreCalled(terms, text, KeyFor(text, form, t));
    var key := LeastKey(keys);
    BestCandidateIsBest(terms, text, key);
    u := key.id;
  }

  lemma RelatedIsNotEmpty(text: string, form: string)
    requires Related(text, form)
    ensures text != ""
  {
  }

  lemma CalledMeans(terms: Terms, t: Id, form: string)
    ensures Called(terms, t, form) <==> t in terms && form in SurfaceForms(terms[t])
  {
  }

  lemma UnansweredMeans(terms: Terms, text: string)
    requires text != ""
    ensures NoCandidate(terms, text) <==> !Answered(terms, text)
  {
    hide Contains, Candidate, Related, Called, Rate;
    if Answered(terms, text) {
      var t, form :| Called(terms, t, form) && Related(text, form);
      RelatedIsRated(text, form);
      CandidatesAreCalled(terms, text, KeyFor(text, form, t));
    }
    if key :| Candidate(terms, text, key) { CandidatesAreCalled(terms, text, key); }
  }

  /** The match of a concept: the best term for the whole of it, or, where no term's name is related to
      the whole, the best term for what follows its first colon. */
  lemma MatchMeansBest(terms: Terms, concept: string, whole: string, tail: string, u: Id)
    requires Readings(concept, whole, tail)
    ensures MatchOf(terms, concept) == Some(u) <==> BestFor(terms, if Answered(terms, whole) then whole else tail, u)
  {
    hide Readings, MatchOf, BestMatch, BestFor, Answered, Variants;
    VariantsAreReadings(concept, whole, tail);
    NoTailWithoutWhole(concept, whole, tail);
    MatchOfMeans(terms, concept, u);
    BestOfReadings(terms, whole, tail, u);
  }

  lemma NoTailWithoutWhole(concept: string, whole: string, tail: string)
    requires Readings(concept, whole, tail)
    ensures whole == "" ==> tail == ""
  {
  }

  lemma BestOfReadings(terms: Terms, whole: string, tail: string, u: Id)
    requires whole == "" ==> tail == ""
    ensures BestMatch(terms, (if whole == "" then [] else [whole]) + if tail == "" then [] else [tail], u)
       <==> BestFor(terms, if Answered(terms, whole) then whole else tail, u)
  {
    hide BestCandidate, NoCandidate, BestMatch, BestFor, Answered;
    var vs := (if whole == "" then [] else [whole]) + if tail == "" then [] else [tail];
    var text := if Answered(terms, whole) then whole else tail;
    NothingAnswersEmpty(terms);
    BestIsAnswered(terms, text, u);
    if whole != "" { UnansweredMeans(terms, whole); }
    if BestMatch(terms, vs, u) {
      var i, key := DecisionOf(terms, vs, u);
      CandidateAnswers(terms, vs[i], key);
      BestCandidateIsBest(terms, vs[i], key);
      assert i > 0 ==> vs[0] == whole && vs[i] == tail && NoCandidate(terms, vs[0]);
      assert vs[i] == text;
    }
    if BestFor(terms, text, u) {
      var key := BestIsBestCandidate(terms, text, u);
      Decided(terms, vs, if Answered(terms, whole) then 0 else |vs| - 1, key);
    }
  }

  lemma DecisionOf(terms: Terms, vs: seq<string>, u: Id) returns (i: nat, key: Key)
    requires BestMatch(terms, vs, u)
    ensures i < |vs| && BestCandidate(terms, vs[i], key) && key.id == u
    ensures forall j :: 0 <= j < i ==> NoCandidate(terms, vs[j])
  {
    hide Candidate;
    i, key :| DecidedBy(terms, vs, i, key) && key.id == u;
  }

  lemma Decided(terms: Terms, vs: seq<string>, i: nat, key: Key)
    requires i < |vs| && BestCandidate(terms, vs[i], key) && forall j :: 0 <= j < i ==> NoCandidate(terms, vs[j])
    ensures BestMatch(terms, vs, key.id)
  {
    hide BestCandidate, NoCandidate;
    assert DecidedBy(terms, vs, i, key);
  }

  lemma CandidateAnswers(terms: Terms, text: string, key: Key)
    requires text != "" && BestCandidate(terms, text, key)
    ensures Answered(terms, text)
  {
    hide Contains, Related, Called, Rate, KeyLe, Candidate;
    CandidatesAreCalled(terms, text, key);
  }

  lemma NothingAnswersEmpty(terms: Terms)
    ensures !Answered(terms, "")
  {
  }

  lemma BestIsAnswered(terms: Terms, text: string, u: Id)
    ensures BestFor(terms, text, u) ==> Answered(terms, text)
  {
    hide Contains, Related, Called, Before;
  }

  /** A concept stays unmatched exactly when no name equals, contains or is contained in either reading. */
  lemma UnmatchedIff(terms: Terms, concept: string, whole: string, tail: string)
    requires Readings(concept, whole, tail)
    ensures MatchOf(terms, concept).None? <==> !Answered(terms, whole) && !Answered(terms, tail)
  {
    hide Readings, MatchOf, BestFor, Answered;
    var m := MatchOf(terms, concept);
    if m.Some? {
      MatchMeansBest(terms, concept, whole, tail, m.value);
      BestIsAnswered(terms, if Answered(terms, whole) then whole else tail, m.value);
    }
    if Answered(terms, whole) || Answered(terms, tail) {
      var u := SomeBest(terms, if Answered(terms, whole) then whole else tail);
      MatchMeansBest(terms, concept, whole, tail, u);
    }
  }

  /** A concept that is, but for blanks around it, a term's name or alias is matched to a term of that
      name, the one with the smallest id. */
  lemma NameIsMatched(terms: Terms, concept: string, whole: string, tail: string, t: Id)
    requires Readings(concept, whole, tail) && Called(terms, t, whole)
    ensures exists u :: MatchOf(terms, concept) == Some(u) && Called(terms, u, whole) && StrLe(u, t)
  {
    hide Readings, MatchOf, Contains, StrLe;
    assert Related(whole, whole);
    var u := SomeBest(terms, whole);
    MatchMeansBest(terms, concept, whole, tail, u);
    var own :| Called(terms, u, own) && Related(whole, own)
      && forall t, form :: Called(terms, t, form) && Related(whole, form) ==> Before(whole, u, own, t, form);
    assert Before(whole, u, own, t, whole);
  }

  // ---- What a trace finds ----

  /** Every term lists the next one among its prerequisites, and all are known. */
  ghost predicate Chain(terms: Terms, p: seq<Id>) {
    && p != [] && (forall t :: t in p ==> t in terms)
    && forall i, j :: 0 <= i < j < |p| && j == i + 1 ==> p[j] in terms[p[i]].prerequisites
  }

  function Last(p: seq<Id>): Option<Id> {
    if p == [] then None else Some(p[|p| - 1])
  }

  /** A chain from a root to `t`. */
  ghost predicate Leads(roots: seq<Root>, terms: Terms, p: seq<Id>, t: Id) {
    Chain(terms, p) && Last(p) == Some(t) && exists r :: r in roots && r.term == p[0]
  }

  lemma LeadsMeansPath(roots: seq<Root>, terms: Terms, p: seq<Id>, t: Id)
    requires forall r :: r in roots ==> r.term in terms
    ensures Leads(roots, terms, p, t) <==> IsPath(roots, terms, p) && Last(p) == Some(t)
  {
    if IsPath(roots, terms, p) {
      var i :| 0 <= i < |roots| && roots[i].term == p[0];
      assert roots[i] in roots;
      forall k | 0 <= k < |p| ensures p[k] in terms {
        if k > 0 { assert Step(terms, p[k - 1], p[k]); }
      }
    }
    if Leads(roots, terms, p, t) {
      var r :| r in roots && r.term == p[0];
      var i :| 0 <= i < |roots| && roots[i] == r;
      assert roots[i].term == p[0];
    }
  }

  lemma WithinMeansChain(roots: seq<Root>, terms: Terms, k: nat, t: Id)
    requires forall r :: r in roots ==> r.term in terms
    ensures Within(roots, terms, k, t) <==> exists p :: Leads(roots, terms, p, t) && |p| <= k + 1
  {
    hide Leads, Within;
    WithinMeansPath(roots, terms, k, t);
    forall p ensures Leads(roots, terms, p, t) <==> IsPath(roots, terms, p) && Last(p) == Some(t) {
      LeadsMeansPath(roots, terms, p, t);
    }
    if p: seq<Id> :| Leads(roots, terms, p, t) && |p| <= k + 1 {
      assert IsPath(roots, terms, p) && p[|p| - 1] == t;
    }
    if Within(roots, terms, k, t) {
      var p: seq<Id> :| IsPath(roots, terms, p) && |p| <= k + 1 && p[|p| - 1] == t;
      assert Leads(roots, terms, p, t);
    }
  }

  /** A trace finds the ends of the chains of at most `maxDepth` steps from a root, and the depth of a term
      is the length of a shortest one. A negative limit finds the roots. */
  lemma TraceFindsChains(roots: seq<Root>, terms: Terms, maxDepth: int, nodes: Nodes, t: Id)
    requires ExactTrace(roots, terms, Limit(maxDepth), nodes) && forall r :: r in roots ==> r.term in terms
    ensures t in nodes <==> exists p :: Leads(roots, terms, p, t) && (|p| <= maxDepth + 1 || |p| == 1)
    ensures t in nodes ==> exists p :: Leads(roots, terms, p, t) && |p| == nodes[t].depth + 1
    ensures t in nodes ==> forall p :: Leads(roots, terms, p, t) ==> |p| >= nodes[t].depth + 1
  {
    hide Leads, IsPath, Within, Last;
    forall p ensures Leads(roots, terms, p, t) <==> IsPath(roots, terms, p) && Last(p) == Some(t) {
      LeadsMeansPath(roots, terms, p, t);
    }
    forall k: nat ensures Within(roots, terms, k, t) <==> exists p :: Leads(roots, terms, p, t) && |p| <= k + 1 {
      WithinMeansChain(roots, terms, k, t);
    }
    forall p ensures Leads(roots, terms, p, t) ==> |p| >= 1 { NoEmptyChain(roots, terms, p, t); }
    assert t in nodes <==> Within(roots, terms, Limit(maxDepth), t);
    if t in nodes {
      assert Within(roots, terms, nodes[t].depth, t);
      var p :| Leads(roots, terms, p, t) && |p| <= nodes[t].depth + 1;
      assert Within(roots, terms, |p| - 1, t);
      forall p | Leads(roots, terms, p, t) ensures |p| >= nodes[t].depth + 1 {
        assert Within(roots, terms, |p| - 1, t);
      }
    }
  }

  lemma NoEmptyChain(roots: seq<Root>, terms: Terms, p: seq<Id>, t: Id)
    ensures Leads(roots, terms, p, t) ==> |p| >= 1
  {
  }

  // ---- How a path is ordered ----

  /** Deep terms come first, equally deep ones by id; what is left out is deeper than everything kept, or as
      deep and of a greater id; and nothing is left out below the allowed number. */
  lemma PathInFigures(nodes: Nodes, maxNodes: int, path: seq<Id>)
    requires GoodPath(nodes, maxNodes, path)
    ensures |path| == if maxNodes <= 0 then 0 else if maxNodes <= |nodes| then maxNodes else |nodes|
    ensures forall t :: t in path ==> t in nodes
    ensures forall i, j :: 0 <= i < j < |path| ==>
      var d, e := nodes[path[i]].depth, nodes[path[j]].depth; d > e || (d == e && StrLt(path[i], path[j]))
    ensures forall t, u :: t in path && u in nodes && u !in path ==>
      var d, e := nodes[t].depth, nodes[u].depth; d < e || (d == e && StrLt(t, u))
  {
    hide StrLe;
    forall i, j | 0 <= i < j < |path|
      ensures var d, e := nodes[path[i]].depth, nodes[path[j]].depth; d > e || (d == e && StrLt(path[i], path[j]))
    {
      assert KeyLe(Deep(nodes)(path[i]), Deep(nodes)(path[j]));
    }
    forall t, u | t in path && u in nodes && u !in path
      ensures var d, e := nodes[t].depth, nodes[u].depth; d < e || (d == e && StrLt(t, u))
    {
      assert KeyLe(Shallow(nodes)(t), Shallow(nodes)(u));
    }
  }

  // ---- Labels without a match ----

  lemma LastUnmatched(terms: Terms, weak: seq<string>)
    requires weak != []
    ensures var front, last := UnmatchedFrom(terms, weak[..|weak| - 1]), weak[|weak| - 1];
      var u := UnmatchedFrom(terms, weak);
      u == front || (u == front + [last] && MatchOf(terms, last).None? && last !in front)
  {
    hide MatchOf;
  }

  lemma NotInPart(s: seq<string>, x: string, k: nat)
    requires x !in s && k <= |s|
    ensures x !in s[..k]
  {
  }

  lemma NewcomerIsNew(terms: Terms, weak: seq<string>, i: nat)
    requires weak != [] && i < |weak| - 1
    requires |UnmatchedFrom(terms, weak)| > |UnmatchedFrom(terms, weak[..|weak| - 1])|
    ensures var u := UnmatchedFrom(terms, weak); u[|u| - 1] !in weak[..i + 1]
  {
    hide MatchOf, UnmatchedFrom;
    var n := |weak| - 1;
    LastUnmatched(terms, weak);
    assert weak[n] !in weak[..n];
    NotInPart(weak[..n], weak[n], i + 1);
    assert weak[..n][..i + 1] == weak[..i + 1];
  }

  /** Unmatched labels are listed in the order in which they first came. */
  lemma {:induction false} UnmatchedInOrder(terms: Terms, weak: seq<string>, a: nat, b: nat)
    requires a < b < |UnmatchedFrom(terms, weak)|
    ensures var u := UnmatchedFrom(terms, weak);
      exists i :: 0 <= i < |weak| && weak[i] == u[a] && u[b] !in weak[..i + 1]
  {
    hide MatchOf;
    var n := |weak| - 1;
    var front, u := UnmatchedFrom(terms, weak[..n]), UnmatchedFrom(terms, weak);
    if b < |front| {
      UnmatchedInOrder(terms, weak[..n], a, b);
      var i :| 0 <= i < n && weak[..n][i] == u[a] && u[b] !in weak[..n][..i + 1];
      assert weak[..n][..i + 1] == weak[..i + 1] && weak[i] == u[a];
    } else {
      assert u[a] == front[a] && front[a] in front;
      var i :| 0 <= i < n && weak[..n][i] == u[a];
      assert weak[i] == u[a];
      NewcomerIsNew(terms, weak, i);
    }
  }
}
