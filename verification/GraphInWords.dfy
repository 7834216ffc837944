/** The built term graph in terms of names, keywords and texts: which edges there are, on what evidence, and
    in which order. */
module GraphInWords {
  import opened Order
  import opened TermGraph
  import opened Text
  import opened Wrappers

  // ---- Finding a form in a text ----

  /** A Latin letter or a digit. */
  predicate LetterOrDigit(c: char) {
    (c as int >= 65 && c as int <= 90) || (c as int >= 97 && c as int <= 122) || (c as int >= 48 && c as int <= 57)
  }

  predicate EndsOpen(a: string) {
    a == "" || !LetterOrDigit(a[|a| - 1])
  }

  predicate BeginsOpen(b: string) {
    b == "" || !LetterOrDigit(b[0])
  }

  /** The form stands in the text between `a` and `b`, and if it consists of letters and digits only, not
      inside a longer word. */
  ghost predicate Stands(text: string, a: string, form: string, b: string) {
    text == a + form + b && ((forall i :: 0 <= i < |form| ==> LetterOrDigit(form[i])) ==> EndsOpen(a) && BeginsOpen(b))
  }

  ghost predicate Found(text: string, form: string) {
    exists a, b :: Stands(text, a, form, b)
  }

  lemma WordStands(text: string, form: string, i: nat)
    requires AsciiToken(form) && i + |form| <= |text|
    ensures WholeWordAt(text, form, i) ==> Stands(text, text[..i], form, text[i + |form|..])
  {
    if WholeWordAt(text, form, i) { assert text == text[..i] + form + text[i + |form|..]; }
  }

  lemma StandsAsWord(text: string, a: string, form: string, b: string)
    requires AsciiToken(form) && Stands(text, a, form, b)
    ensures |a| + |form| <= |text| && WholeWordAt(text, form, |a|)
  {
    assert forall i :: 0 <= i < |form| ==> LetterOrDigit(form[i]);
    assert EndsOpen(a) && BeginsOpen(b);
  }

  lemma AnythingStands(text: string, a: string, form: string, b: string)
    requires form != "" && !AsciiToken(form)
    ensures Stands(text, a, form, b) <==> text == a + form + b
  {
    var i :| 0 <= i < |form| && !Alphanumeric(form[i]);
    assert !LetterOrDigit(form[i]);
  }

  lemma MentionsMeansFound(text: string, form: string)
    requires form != ""
    ensures Mentions(text, form) <==> Found(text, form)
  {
    hide Contains, Stands, AsciiToken, WholeWordAt;
    if AsciiToken(form) {
      if Mentions(text, form) {
        var i :| 0 <= i <= |text| - |form| && WholeWordAt(text, form, i);
        WordStands(text, form, i);
      }
      if Found(text, form) {
        var a, b :| Stands(text, a, form, b);
        StandsAsWord(text, a, form, b);
      }
    } else {
      ContainsMeans(text, form);
      forall a, b ensures Stands(text, a, form, b) <==> text == a + form + b { AnythingStands(text, a, form, b); }
      if Mentions(text, form) {
        var a, b :| text == a + form + b;
        assert Stands(text, a, form, b);
      }
    }
  }

  // ---- Which edges to chunks there are ----

  ghost predicate CanBeCalled(t: Term, form: string) {
    |form| >= 2 && (form == t.name || form in t.aliases)
  }

  ghost predicate Evidence(t: Term, c: Chunk, form: string, keyword: bool) {
    CanBeCalled(t, form) && if keyword then form in c.keywords else Found(c.text, form)
  }

  lemma FormsAreNames(t: Term, form: string)
    ensures form in SurfaceForms(t) <==> CanBeCalled(t, form)
  {
  }

  /** Of the name and the aliases in turn, `form` is the first one that is evidence. */
  ghost predicate FirstEvidence(t: Term, c: Chunk, form: string, keyword: bool) {
    exists i :: FirstEvidenceAt(t, c, form, keyword, i)
  }

  ghost predicate FirstEvidenceAt(t: Term, c: Chunk, form: string, keyword: bool, i: int) {
    var names := [t.name] + t.aliases;
    && 0 <= i < |names| && names[i] == form && Evidence(t, c, form, keyword)
    && forall j :: 0 <= j < i ==> !Evidence(t, c, names[j], keyword)
  }

  /** Long forms keep the order of the names: number `k` stands at `i` in `s`, and the long ones before it
      are among the first `k`. */
  lemma {:induction false} LongFormsInOrder(s: seq<string>, k: nat) returns (i: nat)
    requires k < |LongForms(s)|
    ensures i < |s| && s[i] == LongForms(s)[k]
    ensures forall f :: f in s[..i] && |f| >= 2 ==> f in LongForms(s)[..k]
  {
    var n := |s| - 1;
    var front := LongForms(s[..n]);
    i := n;
    if k < |front| {
      i := LongFormsInOrder(s[..n], k);
      assert s[..n][..i] == s[..i] && LongForms(s)[..k] == front[..k];
    } else {
      assert LongForms(s)[..k] == front;
    }
  }

  /** The first of the forms. */
  lemma {:induction false} KeywordHitIsFirst(forms: seq<string>, keywords: seq<string>) returns (k: nat)
    requires KeywordHit(forms, keywords).Some?
    ensures k < |forms| && KeywordHit(forms, keywords) == Some(forms[k]) && forms[k] in keywords
    ensures forall f :: f in forms[..k] ==> f !in keywords
  {
    k := 0;
    if forms[0] !in keywords {
      k := KeywordHitIsFirst(forms[1..], keywords);
      assert forms[..k + 1] == [forms[0]] + forms[1..][..k];
      k := k + 1;
    }
  }

  lemma {:induction false} BodyHitIsFirst(forms: seq<string>, text: string) returns (k: nat)
    requires BodyHit(forms, text).Some?
    ensures k < |forms| && BodyHit(forms, text) == Some(forms[k]) && Mentions(text, forms[k])
    ensures forall f :: f in forms[..k] ==> !Mentions(text, f)
  {
    hide Mentions;
    k := 0;
    if !Mentions(text, forms[0]) {
      k := BodyHitIsFirst(forms[1..], text);
      assert forms[..k + 1] == [forms[0]] + forms[1..][..k];
      k := k + 1;
    }
  }

  /** A form of the term that is evidence, while no form before it is. */
  lemma FirstFormIsFirst(t: Term, c: Chunk, k: nat, keyword: bool)
    requires k < |SurfaceForms(t)| && Evidence(t, c, SurfaceForms(t)[k], keyword)
    requires forall f :: f in SurfaceForms(t)[..k] ==> !Evidence(t, c, f, keyword)
    ensures FirstEvidence(t, c, SurfaceForms(t)[k], keyword)
  {
    hide Found;
    var names := [t.name] + t.aliases;
    var i := LongFormsInOrder(names, k);
    assert forall j :: 0 <= j < i ==> names[j] in names[..i];
    assert FirstEvidenceAt(t, c, SurfaceForms(t)[k], keyword, i);
  }

  /** The edge between a term and a chunk: there is one exactly if the chunk has a form of the term as a
      keyword or in its text. With a keyword it weighs two, otherwise one, and the evidence is the first
      form among the keywords or in the text. */
  lemma EdgeToChunk(t: Term, c: Chunk)
    ensures Match(t, c) != [] <==> exists form, keyword :: Evidence(t, c, form, keyword)
    ensures |Match(t, c)| <= 1
    ensures forall e :: e in Match(t, c) ==>
      && e.from == t.id && e.kind == RagChunk && e.to == c.id && e.relation == DefinedIn
      && (e.weight == 2 || e.weight == 1) && FirstEvidence(t, c, e.evidence, e.weight == 2)
      && (e.weight == 1 ==> forall form :: !Evidence(t, c, form, true))
  {
    hide SurfaceForms, Mentions, Found, CanBeCalled, FirstEvidence;
    var forms := SurfaceForms(t);
    forall form ensures form in forms <==> CanBeCalled(t, form) { FormsAreNames(t, form); }
    forall form | form in forms ensures Mentions(c.text, form) <==> Found(c.text, form) {
      NamesAreNotEmpty(t, form);
      MentionsMeansFound(c.text, form);
    }
    if KeywordHit(forms, c.keywords).Some? {
      var k := KeywordHitIsFirst(forms, c.keywords);
      assert Evidence(t, c, forms[k], true);
      FirstFormIsFirst(t, c, k, true);
    } else if BodyHit(forms, c.text).Some? {
      var k := BodyHitIsFirst(forms, c.text);
      assert Evidence(t, c, forms[k], false);
      FirstFormIsFirst(t, c, k, false);
    }
    if form, keyword :| Evidence(t, c, form, keyword) { assert form in forms; }
  }

  lemma FirstIsEvidence(t: Term, c: Chunk, form: string, keyword: bool)
    requires FirstEvidence(t, c, form, keyword)
    ensures Evidence(t, c, form, keyword)
  {
    hide Evidence;
  }

  lemma NamesAreNotEmpty(t: Term, form: string)
    requires CanBeCalled(t, form)
    ensures form != ""
  {
  }

  ghost predicate EvidenceBetween(terms: seq<Term>, chunks: seq<Chunk>, from: string, to: string, form: string,
                                  keyword: bool) {
    exists t, c :: t in terms && c in chunks && t.id == from && c.id == to && Evidence(t, c, form, keyword)
  }

  ghost predicate FirstEvidenceBetween(terms: seq<Term>, chunks: seq<Chunk>, from: string, to: string, form: string,
                                       keyword: bool) {
    exists t, c :: t in terms && c in chunks && t.id == from && c.id == to && FirstEvidence(t, c, form, keyword)
  }

  /** The graph as built: a term is stored as defined in a chunk exactly if some form of it is a keyword of
      the chunk or stands in its text; the weight is two exactly with a keyword; and the evidence stored is
      the first such form. */
  lemma GraphHolds(terms: seq<Term>, chunks: seq<Chunk>, others: seq<Edge>, prerequisites: seq<Edge>, edges: seq<Edge>,
                   from: string, to: string)
    requires NoneDefines(others) && NoneDefines(prerequisites)
    requires Deduplicated(AllEdges(terms, chunks, others, prerequisites), edges)
    ensures (exists e :: e in edges && e.from == from && e.kind == RagChunk && e.to == to && e.relation == DefinedIn)
       <==> exists form, keyword :: EvidenceBetween(terms, chunks, from, to, form, keyword)
    ensures forall e :: e in edges && e.from == from && e.kind == RagChunk && e.to == to && e.relation == DefinedIn ==>
      && (e.weight == 1 || e.weight == 2)
      && FirstEvidenceBetween(terms, chunks, from, to, e.evidence, e.weight == 2)
      && (e.weight == 1 ==> forall form :: !EvidenceBetween(terms, chunks, from, to, form, true))
  {
    hide RagEdges, ConfusableEdges, Heaviest, Match, Evidence, FirstEvidence;
    var all := AllEdges(terms, chunks, others, prerequisites);
    HeaviestIsMax(all);
    ConfusableEdgesKind(terms);
    forall e | e in edges && e.from == from && e.kind == RagChunk && e.to == to && e.relation == DefinedIn
      ensures (e.weight == 1 || e.weight == 2)
      ensures FirstEvidenceBetween(terms, chunks, from, to, e.evidence, e.weight == 2)
      ensures EvidenceBetween(terms, chunks, from, to, e.evidence, e.weight == 2)
    {
      assert e in all && e in RagEdges(terms, chunks);
      RagEdgesMembers(terms, chunks, e);
      var t, c :| t in terms && c in chunks && e in Match(t, c);
      EdgeToChunk(t, c);
      FirstIsEvidence(t, c, e.evidence, e.weight == 2);
    }
    forall form, keyword | EvidenceBetween(terms, chunks, from, to, form, keyword)
      ensures exists e ::
        e in edges && KeyOf(e) == EdgeKey(from, RagChunk, to, DefinedIn) && (keyword ==> e.weight >= 2)
    {
      var t, c :| t in terms && c in chunks && t.id == from && c.id == to && Evidence(t, c, form, keyword);
      EdgeToChunk(t, c);
      var d := Match(t, c)[0];
      assert d in Match(t, c);
      RagEdgesMembers(terms, chunks, d);
      assert d in all && KeyOf(d) == EdgeKey(from, RagChunk, to, DefinedIn);
      assert Heaviest(all)[KeyOf(d)] in edges;
    }
    OneEdge(all, edges);
  }

  lemma OneEdge(all: seq<Edge>, edges: seq<Edge>)
    requires Deduplicated(all, edges)
    ensures forall d, e :: d in edges && e in edges && KeyOf(d) == KeyOf(e) ==> d == e
  {
    hide Heaviest;
  }

  // ---- Confusable pairs ----

  /** A term of id `a` declares that it is easily confused with `b`, for this reason. */
  ghost predicate Declares(terms: seq<Term>, a: string, b: string, reason: string) {
    exists t, p :: t in terms && p in t.confusable && t.id == a && p.term == b && p.reason == reason
  }

  lemma {:induction false} PairEdgesHold(t: Term, pairs: seq<Confusable>, e: Edge)
    ensures e in PairEdges(t, pairs) <==>
            exists p :: p in pairs && (e == Edge(t.id, TermNode, p.term, ConfusableWith, 1, p.reason)
                                       || e == Edge(p.term, TermNode, t.id, ConfusableWith, 1, p.reason))
  {
    if pairs != [] {
      var n := |pairs| - 1;
      PairEdgesHold(t, pairs[..n], e);
      assert pairs == pairs[..n] + [pairs[n]];
    }
  }

  lemma {:induction false} ConfusableEdgesHold(terms: seq<Term>, a: string, b: string, reason: string)
    ensures Edge(a, TermNode, b, ConfusableWith, 1, reason) in ConfusableEdges(terms)
       <==> Declares(terms, a, b, reason) || Declares(terms, b, a, reason)
  {
    if terms != [] {
      var n := |terms| - 1;
      ConfusableEdgesHold(terms[..n], a, b, reason);
      PairEdgesHold(terms[n], terms[n].confusable, Edge(a, TermNode, b, ConfusableWith, 1, reason));
      assert terms == terms[..n] + [terms[n]];
      OneMoreDeclares(terms, a, b, reason);
      OneMoreDeclares(terms, b, a, reason);
    }
  }

  lemma OneMoreDeclares(terms: seq<Term>, a: string, b: string, reason: string)
    requires terms != []
    ensures var n := |terms| - 1;
      Declares(terms, a, b, reason) <==>
      Declares(terms[..n], a, b, reason) || Declares([terms[n]], a, b, reason)
  {
    var n := |terms| - 1;
    assert terms == terms[..n] + [terms[n]];
  }

  lemma {:induction false} ConfusableEdgesWeigh(terms: seq<Term>)
    ensures forall e :: e in ConfusableEdges(terms) ==> e.weight == 1
  {
    if terms != [] {
      var n := |terms| - 1;
      ConfusableEdgesWeigh(terms[..n]);
      forall e | e in PairEdges(terms[n], terms[n].confusable) ensures e.weight == 1 {
        PairEdgesHold(terms[n], terms[n].confusable, e);
      }
    }
  }

  /** Two terms are stored as confusable exactly if one of them declares the other; the weight is one, and the
      reason stored is one that was declared. */
  lemma ConfusableIsStored(terms: seq<Term>, chunks: seq<Chunk>, others: seq<Edge>, prerequisites: seq<Edge>,
                           edges: seq<Edge>, a: string, b: string)
    requires forall e :: e in others || e in prerequisites ==> e.relation != ConfusableWith
    requires Deduplicated(AllEdges(terms, chunks, others, prerequisites), edges)
    ensures (exists e :: e in edges && e.from == a && e.kind == TermNode && e.to == b && e.relation == ConfusableWith)
       <==> exists reason :: Declares(terms, a, b, reason) || Declares(terms, b, a, reason)
    ensures forall e :: e in edges && e.from == a && e.kind == TermNode && e.to == b && e.relation == ConfusableWith ==>
      e.weight == 1 && (Declares(terms, a, b, e.evidence) || Declares(terms, b, a, e.evidence))
  {
    hide RagEdges, ConfusableEdges, Heaviest, Declares;
    var all := AllEdges(terms, chunks, others, prerequisites);
    HeaviestIsMax(all);
    ConfusableEdgesWeigh(terms);
    forall e | e in edges && e.from == a && e.kind == TermNode && e.to == b && e.relation == ConfusableWith
      ensures e.weight == 1 && (Declares(terms, a, b, e.evidence) || Declares(terms, b, a, e.evidence))
    {
      assert e in all;
      if e in RagEdges(terms, chunks) {
        RagEdgesMembers(terms, chunks, e);
        var t, c :| t in terms && c in chunks && e in Match(t, c);
        MatchFinds(t, c);
      }
      assert e == Edge(a, TermNode, b, ConfusableWith, 1, e.evidence);
      ConfusableEdgesHold(terms, a, b, e.evidence);
    }
    forall reason | Declares(terms, a, b, reason) || Declares(terms, b, a, reason)
      ensures exists e :: e in edges && KeyOf(e) == EdgeKey(a, TermNode, b, ConfusableWith)
    {
      ConfusableEdgesHold(terms, a, b, reason);
      var d := Edge(a, TermNode, b, ConfusableWith, 1, reason);
      assert d in all && KeyOf(d) == EdgeKey(a, TermNode, b, ConfusableWith);
      assert Heaviest(all)[KeyOf(d)] in edges;
    }
  }

  // ---- Given edges ----

  /** Edges of problems, tutorials and prerequisites are stored as given, or a heavier or earlier one that
      agrees with them; and every stored edge is one of those, or leads to a chunk or a confusable term. */
  lemma GivenEdgesAreStored(terms: seq<Term>, chunks: seq<Chunk>, others: seq<Edge>, prerequisites: seq<Edge>,
                            edges: seq<Edge>, e: Edge)
    requires Deduplicated(AllEdges(terms, chunks, others, prerequisites), edges)
    ensures e in others || e in prerequisites ==>
      exists d :: d in edges && SameEnds(d, e) && d.weight >= e.weight
    ensures e in edges ==>
      || e in others || e in prerequisites
      || (e.kind == RagChunk && e.relation == DefinedIn) || (e.kind == TermNode && e.relation == ConfusableWith)
  {
    hide RagEdges, ConfusableEdges, Heaviest, Match;
    var all := AllEdges(terms, chunks, others, prerequisites);
    HeaviestIsMax(all);
    if e in others || e in prerequisites {
      assert e in all && KeyOf(Heaviest(all)[KeyOf(e)]) == KeyOf(e);
      assert Heaviest(all)[KeyOf(e)] in edges;
    }
    if e in edges {
      assert e in all;
      ConfusableEdgesKind(terms);
      if e in RagEdges(terms, chunks) {
        RagEdgesMembers(terms, chunks, e);
        var t, c :| t in terms && c in chunks && e in Match(t, c);
        MatchFinds(t, c);
      }
    }
  }

  // ---- One edge of a kind ----

  ghost predicate SameEnds(d: Edge, e: Edge) {
    d.from == e.from && d.kind == e.kind && d.to == e.to && d.relation == e.relation
  }

  /** Number `i` is `e`, heavier than all like it before, and as heavy as all like it behind. */
  ghost predicate FirstHeaviest(all: seq<Edge>, e: Edge, i: nat) {
    && i < |all| && all[i] == e
    && (forall j :: 0 <= j < i && SameEnds(all[j], e) ==> all[j].weight < e.weight)
    && (forall j :: i < j < |all| && SameEnds(all[j], e) ==> all[j].weight <= e.weight)
  }

  lemma StaysFirst(all: seq<Edge>, e: Edge, i: nat)
    requires all != [] && FirstHeaviest(all[..|all| - 1], e, i)
    requires SameEnds(all[|all| - 1], e) ==> all[|all| - 1].weight <= e.weight
    ensures FirstHeaviest(all, e, i)
  {
    var n := |all| - 1;
    assert forall j :: 0 <= j < n ==> all[..n][j] == all[j];
  }

  lemma BecomesFirst(all: seq<Edge>)
    requires all != []
    requires forall d :: d in all[..|all| - 1] && SameEnds(d, all[|all| - 1]) ==> d.weight < all[|all| - 1].weight
    ensures FirstHeaviest(all, all[|all| - 1], |all| - 1)
  {
    var n := |all| - 1;
    assert forall j :: 0 <= j < n ==> all[..n][j] == all[j] && all[j] in all[..n];
  }

  lemma {:induction false} HeaviestIsFirst(all: seq<Edge>, k: EdgeKey) returns (i: nat)
    requires k in Heaviest(all)
    ensures FirstHeaviest(all, Heaviest(all)[k], i) && KeyOf(Heaviest(all)[k]) == k
  {
    hide FirstHeaviest;
    var n := |all| - 1;
    var seen, e := Heaviest(all[..n]), all[n];
    HeaviestIsMax(all[..n]);
    if KeyOf(e) == k && (k !in seen || e.weight > seen[k].weight) {
      i := n;
      BecomesFirst(all);
    } else {
      i := HeaviestIsFirst(all[..n], k);
      StaysFirst(all, seen[k], i);
    }
  }

  /** What deduplication keeps: of the edges that agree in source, kind, target and relation one, the first
      of the heaviest. */
  lemma DeduplicationKeeps(all: seq<Edge>, edges: seq<Edge>, e: Edge)
    requires Deduplicated(all, edges)
    ensures e in edges <==> exists i: nat :: FirstHeaviest(all, e, i)
    ensures forall i, j :: 0 <= i < j < |edges| ==> !SameEnds(edges[i], edges[j])
  {
    hide Heaviest, FirstHeaviest;
    HeaviestIsMax(all);
    if e in edges { var i := HeaviestIsFirst(all, KeyOf(e)); }
    if i: nat :| FirstHeaviest(all, e, i) {
      FirstIsMember(all, e, i);
      var k := HeaviestIsFirst(all, KeyOf(e));
      FirstHeaviestIsUnique(all, e, i, Heaviest(all)[KeyOf(e)], k);
    }
  }

  lemma FirstIsMember(all: seq<Edge>, e: Edge, i: nat)
    requires FirstHeaviest(all, e, i)
    ensures e in all
  {
  }

  lemma FirstHeaviestIsUnique(all: seq<Edge>, d: Edge, i: nat, e: Edge, k: nat)
    requires FirstHeaviest(all, d, i) && FirstHeaviest(all, e, k) && SameEnds(d, e)
    ensures d == e
  {
  }

  // ---- The order ----

  function KindName(k: Kind): string {
    match k
    case Problem => "problem"
    case RagChunk => "rag_chunk"
    case TermNode => "term"
    case Tutorial => "tutorial"
  }

  function RelationName(r: Relation): string {
    match r
    case ConfusableWith => "confusable_with"
    case DefinedIn => "defined_in"
    case ExplainedIn => "explained_in"
    case PrerequisiteOf => "prerequisite_of"
    case TestedIn => "tested_in"
  }

  /** By source, then by the name of the kind, then by target, then by the name of the relation. */
  ghost predicate Precedes(d: Edge, e: Edge) {
    || StrLt(d.from, e.from)
    || (d.from == e.from && StrLt(KindName(d.kind), KindName(e.kind)))
    || (d.from == e.from && d.kind == e.kind && StrLt(d.to, e.to))
    || (d.from == e.from && d.kind == e.kind && d.to == e.to
        && StrLt(RelationName(d.relation), RelationName(e.relation)))
  }

  lemma NamesInOrder()
    ensures forall j, k :: KindRank(j) < KindRank(k) ==> StrLt(KindName(j), KindName(k))
    ensures forall r, s :: RelationRank(r) < RelationRank(s) ==> StrLt(RelationName(r), RelationName(s))
  {
    assert "term"[1..] == "erm" && "tutorial"[1..] == "utorial";
  }

  lemma KeysMeanPrecedes(d: Edge, e: Edge)
    requires KeyLe(SortKey()(d), SortKey()(e)) && !SameEnds(d, e)
    ensures Precedes(d, e)
  {
    hide StrLe, KindName, RelationName;
    NamesInOrder();
  }

  /** The edges are stored in that order. */
  lemma EdgesInOrder(all: seq<Edge>, edges: seq<Edge>, i: nat, j: nat)
    requires Deduplicated(all, edges) && i < j < |edges|
    ensures Precedes(edges[i], edges[j])
  {
    hide Heaviest, Precedes, KeyLe, SortKey;
    KeysMeanPrecedes(edges[i], edges[j]);
  }

  /** The chunks of a term are listed in ascending order of their ids. */
  lemma {:induction false} ChunksInOrder(edges: seq<Edge>, term: string, i: nat, j: nat)
    requires (forall a, b :: 0 <= a < b < |edges| ==> Precedes(edges[a], edges[b]))
    requires i < j < |ChunksOf(edges, term)|
    ensures StrLt(ChunksOf(edges, term)[i], ChunksOf(edges, term)[j])
  {
    hide StrLe, KindName, RelationName, Precedes;
    var n := |edges| - 1;
    var front := ChunksOf(edges[..n], term);
    if j < |front| {
      assert forall a :: 0 <= a < n ==> edges[..n][a] == edges[a];
      ChunksInOrder(edges[..n], term, i, j);
    } else {
      ChunksOfMembers(edges[..n], term, front[i]);
      var d :| d in edges[..n] && KeyOf(d) == EdgeKey(term, RagChunk, front[i], DefinedIn);
      var a :| 0 <= a < n && edges[..n][a] == d;
      assert edges[a] == d && Precedes(edges[a], edges[n]);
      ChunkPrecedes(d, edges[n]);
    }
  }

  lemma ChunkPrecedes(d: Edge, e: Edge)
    requires Precedes(d, e) && d.from == e.from && d.kind == e.kind && d.relation == e.relation
    ensures StrLt(d.to, e.to)
  {
    hide StrLe, KindName, RelationName;
  }
}
