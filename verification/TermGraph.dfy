/** The term graph: edges from matching terms against chunks, one edge per key, and the index over them. */
module TermGraph {
  import opened Order
  import opened Text
  import opened Wrappers

  datatype Confusable = Confusable(term: string, reason: string)

  datatype Term = Term(id: string, name: string, aliases: seq<string>, confusable: seq<Confusable>)

  datatype Chunk = Chunk(id: string, keywords: seq<string>, text: string)

  datatype Kind = Problem | RagChunk | TermNode | Tutorial

  datatype Relation = ConfusableWith | DefinedIn | ExplainedIn | PrerequisiteOf | TestedIn

  datatype Edge = Edge(from: string, kind: Kind, to: string, relation: Relation, weight: int, evidence: string)

  datatype EdgeKey = EdgeKey(from: string, kind: Kind, to: string, relation: Relation)

  function KeyOf(e: Edge): EdgeKey {
    EdgeKey(e.from, e.kind, e.to, e.relation)
  }

  // ---- Matching ----

  predicate Alphanumeric(c: char) {
    'A' <= c <= 'Z' || 'a' <= c <= 'z' || '0' <= c <= '9'
  }

  predicate AsciiToken(s: string) {
    s != "" && forall i :: 0 <= i < |s| ==> Alphanumeric(s[i])
  }

  /** An occurrence that is not part of a longer ASCII word. */
  predicate WholeWordAt(s: string, word: string, i: nat)
    requires i + |word| <= |s|
  {
    && OccursAt(s, word, i)
    && (i == 0 || !Alphanumeric(s[i - 1]))
    && (i + |word| == |s| || !Alphanumeric(s[i + |word|]))
  }

  /** ASCII words match at word boundaries, anything else as a substring. */
  predicate Mentions(text: string, form: string) {
    if form == "" then false
    else if AsciiToken(form) then exists i :: 0 <= i <= |text| - |form| && WholeWordAt(text, form, i)
    else Contains(text, form)
  }

  /** The length of the ASCII word at the front. */
  function Run(s: string): (n: nat)
    ensures n <= |s| && (n > 0 <==> s != "" && Alphanumeric(s[0]))
    ensures forall i :: 0 <= i < n ==> Alphanumeric(s[i])
    ensures n < |s| ==> !Alphanumeric(s[n])
  {
    if s == "" || !Alphanumeric(s[0]) then 0 else 1 + Run(s[1..])
  }

  /** The maximal runs of ASCII letters and digits in a text. */
  function Words(s: string): seq<string> {
    if s == "" then []
    else if Run(s) == 0 then Words(s[1..])
    else [s[..Run(s)]] + Words(s[Run(s)..])
  }

  ghost predicate HasWord(s: string, word: string) {
    exists i :: 0 <= i <= |s| - |word| && WholeWordAt(s, word, i)
  }

  lemma WordBehind(s: string, k: nat, word: string, i: nat)
    requires k <= |s| && AsciiToken(word) && i + |word| <= |s| - k
    requires k == 0 || i > 0 || !Alphanumeric(s[k - 1])
    ensures WholeWordAt(s[k..], word, i) <==> WholeWordAt(s, word, k + i)
  {
    assert s[k..][i..i + |word|] == s[k + i..k + i + |word|];
  }

  /** Behind the front word nothing is lost, and the front word itself is the only one before that. */
  lemma FrontWord(s: string, word: string, i: nat)
    requires s != "" && AsciiToken(word) && i + |word| <= |s| && WholeWordAt(s, word, i)
    ensures if Run(s) == 0 then i >= 1 else (i == 0 && word == s[..Run(s)]) || i > Run(s)
  {
    hide Run;
    var n := Run(s);
    assert forall k :: 0 <= k < |word| ==> s[i + k] == s[i..i + |word|][k] == word[k];
    assert s[i] == word[0];
    if n > 0 && i == 0 {
      assert forall k :: 0 <= k < |word| ==> Alphanumeric(s[k]);
      assert |word| == n && s[0..|word|] == s[..n];
    }
  }

  /** A word of the text stands at its front or in the rest. */
  lemma WordInText(s: string, word: string, k: nat)
    requires s != "" && AsciiToken(word) && k == (if Run(s) == 0 then 1 else Run(s))
    ensures HasWord(s, word) <==> (Run(s) > 0 && word == s[..k]) || HasWord(s[k..], word)
  {
    hide AsciiToken, Run, WholeWordAt;
    if HasWord(s, word) {
      var i :| 0 <= i <= |s| - |word| && WholeWordAt(s, word, i);
      FrontWord(s, word, i);
      if i >= k && (i > k || Run(s) == 0) {
        WordBehind(s, k, word, i - k);
        assert HasWord(s[k..], word);
      }
    }
    if HasWord(s[k..], word) {
      var i :| 0 <= i <= |s| - k - |word| && WholeWordAt(s[k..], word, i);
      if Run(s) > 0 {
        FormNotEmpty(word);
        FrontWord(s[k..], word, i);
      }
      WordBehind(s, k, word, i);
      assert HasWord(s, word);
    }
    if Run(s) > 0 && word == s[..k] { WordInFront(s); }
  }

  /** A form of ASCII letters and digits is mentioned exactly when it is one of the text's words: a short
      alias is never found inside a longer word. */
  lemma {:induction false} WordsMatchWhole(text: string, form: string)
    requires AsciiToken(form)
    ensures Mentions(text, form) <==> form in Words(text)
  {
    hide AsciiToken, Run, WholeWordAt;
    FormNotEmpty(form);
    assert Mentions(text, form) <==> HasWord(text, form);
    if text != "" {
      var k := if Run(text) == 0 then 1 else Run(text);
      WordsMatchWhole(text[k..], form);
      assert Mentions(text[k..], form) <==> HasWord(text[k..], form);
      WordInText(text, form, k);
    }
  }

  lemma FormNotEmpty(form: string)
    requires AsciiToken(form)
    ensures form != ""
  {
  }

  lemma WordInFront(s: string)
    requires s != "" && Run(s) > 0
    ensures WholeWordAt(s, s[..Run(s)], 0)
  {
    hide Run;
  }

  /** The name and the aliases, without those of a single character. */
  function SurfaceForms(t: Term): seq<string> {
    SurfaceFormsOf(t.name, t.aliases)
  }

  /** The first form that is among the keywords. */
  function KeywordHit(forms: seq<string>, keywords: seq<string>): (hit: Option<string>)
    ensures hit.Some? <==> exists f :: f in forms && f in keywords
  {
    if forms == [] then None
    else if forms[0] in keywords then Some(forms[0])
    else
      assert forms == [forms[0]] + forms[1..];
      KeywordHit(forms[1..], keywords)
  }

  /** The first form that the text mentions. */
  function BodyHit(forms: seq<string>, text: string): (hit: Option<string>)
    ensures hit.Some? <==> exists f :: f in forms && Mentions(text, f)
  {
    if forms == [] then None
    else if Mentions(text, forms[0]) then Some(forms[0])
    else
      assert forms == [forms[0]] + forms[1..];
      BodyHit(forms[1..], text)
  }

  function DefinedInEdge(t: Term, c: Chunk, weight: int, evidence: string): Edge {
    Edge(t.id, RagChunk, c.id, DefinedIn, weight, evidence)
  }

  /** A keyword counts double; the text is searched only when no keyword hits. */
  function Match(t: Term, c: Chunk): seq<Edge> {
    var keyword := KeywordHit(SurfaceForms(t), c.keywords);
    if keyword.Some? then [DefinedInEdge(t, c, 2, keyword.value)]
    else
      var body := BodyHit(SurfaceForms(t), c.text);
      if body.Some? then [DefinedInEdge(t, c, 1, body.value)] else []
  }

  function RagEdges(terms: seq<Term>, chunks: seq<Chunk>): seq<Edge> {
    if terms == [] then [] else RagEdges(terms[..|terms| - 1], chunks) + RagEdgesOf(terms[|terms| - 1], chunks)
  }

  function RagEdgesOf(t: Term, chunks: seq<Chunk>): seq<Edge> {
    if chunks == [] then [] else RagEdgesOf(t, chunks[..|chunks| - 1]) + Match(t, chunks[|chunks| - 1])
  }

  method EdgesOfTerm(t: Term, chunks: seq<Chunk>) returns (edges: seq<Edge>)
    ensures edges == RagEdgesOf(t, chunks)
  {
    edges := [];
    var forms := SurfaceForms(t);
    for k := 0 to |chunks|
      invariant edges == RagEdgesOf(t, chunks[..k])
    {
      assert chunks[..k + 1][..k] == chunks[..k];
      var keyword := KeywordHit(forms, chunks[k].keywords);
      if keyword.Some? {
        edges := edges + [DefinedInEdge(t, chunks[k], 2, keyword.value)];
        continue;
      }
      var body := BodyHit(forms, chunks[k].text);
      if body.Some? {
        edges := edges + [DefinedInEdge(t, chunks[k], 1, body.value)];
      }
    }
    assert chunks[..|chunks|] == chunks;
  }

  method EdgesToRag(terms: seq<Term>, chunks: seq<Chunk>) returns (edges: seq<Edge>)
    ensures edges == RagEdges(terms, chunks)
  {
    edges := [];
    for i := 0 to |terms|
      invariant edges == RagEdges(terms[..i], chunks)
    {
      assert terms[..i + 1][..i] == terms[..i];
      var more := EdgesOfTerm(terms[i], chunks);
      edges := edges + more;
    }
    assert terms[..|terms|] == terms;
  }

  /** Both directions of every declared pair. */
  function PairEdges(t: Term, pairs: seq<Confusable>): seq<Edge> {
    if pairs == [] then []
    else
      var p := pairs[|pairs| - 1];
      PairEdges(t, pairs[..|pairs| - 1]) +
      [Edge(t.id, TermNode, p.term, ConfusableWith, 1, p.reason),
       Edge(p.term, TermNode, t.id, ConfusableWith, 1, p.reason)]
  }

  function ConfusableEdges(terms: seq<Term>): seq<Edge> {
    if terms == [] then []
    else ConfusableEdges(terms[..|terms| - 1]) + PairEdges(terms[|terms| - 1], terms[|terms| - 1].confusable)
  }

  method EdgesConfusable(terms: seq<Term>) returns (edges: seq<Edge>)
    ensures edges == ConfusableEdges(terms)
  {
    edges := [];
    for i := 0 to |terms|
      invariant edges == ConfusableEdges(terms[..i])
    {
      assert terms[..i + 1][..i] == terms[..i];
      ghost var before := edges;
      var pairs := terms[i].confusable;
      for k := 0 to |pairs|
        invariant edges == before + PairEdges(terms[i], pairs[..k])
      {
        assert pairs[..k + 1][..k] == pairs[..k];
        edges := edges + [Edge(terms[i].id, TermNode, pairs[k].term, ConfusableWith, 1, pairs[k].reason)];
        edges := edges + [Edge(pairs[k].term, TermNode, terms[i].id, ConfusableWith, 1, pairs[k].reason)];
      }
      assert pairs[..|pairs|] == pairs;
    }
    assert terms[..|terms|] == terms;
  }

  // ---- One edge per key ----

  /** The heaviest edge of each key, the earliest of several heaviest. */
  function Heaviest(all: seq<Edge>): map<EdgeKey, Edge> {
    if all == [] then map[]
    else
      var seen, e := Heaviest(all[..|all| - 1]), all[|all| - 1];
      if KeyOf(e) !in seen || e.weight > seen[KeyOf(e)].weight then seen[KeyOf(e) := e] else seen
  }

  function KindRank(k: Kind): int {
    match k
    case Problem => 0
    case RagChunk => 1
    case TermNode => 2
    case Tutorial => 3
  }

  function RelationRank(r: Relation): int {
    match r
    case ConfusableWith => 0
    case DefinedIn => 1
    case ExplainedIn => 2
    case PrerequisiteOf => 3
    case TestedIn => 4
  }

  /** By source, kind, target and relation; names of kinds and relations are alphabetical. */
  function SortKey(): Edge -> Key {
    (e: Edge) => Key(KindRank(e.kind), 0, e.to, first := e.from, last := RelationRank(e.relation))
  }

  /** `edges` holds exactly the heaviest edge of every key, in order. */
  ghost predicate Deduplicated(all: seq<Edge>, edges: seq<Edge>) {
    && (forall e :: e in edges <==> KeyOf(e) in Heaviest(all) && Heaviest(all)[KeyOf(e)] == e)
    && (forall i, j :: 0 <= i < j < |edges| ==> KeyOf(edges[i]) != KeyOf(edges[j]))
    && Sorted(edges, SortKey())
  }

  /** Keep the heaviest edge of each key, in the order of first insertion, then sort. */
  method Deduplicate(all: seq<Edge>) returns (edges: seq<Edge>)
    ensures Deduplicated(all, edges)
  {
    var seen: map<EdgeKey, Edge> := map[];
    var keys: seq<EdgeKey> := [];
    for i := 0 to |all|
      invariant seen == Heaviest(all[..i])
      invariant Distinct(keys) && forall k :: k in keys <==> k in seen
      invariant forall k :: k in seen ==> KeyOf(seen[k]) == k
    {
      assert all[..i + 1][..i] == all[..i];
      var k := KeyOf(all[i]);
      if k !in seen { keys := keys + [k]; }
      if k !in seen || all[i].weight > seen[k].weight { seen := seen[k := all[i]]; }
    }
    assert all[..|all|] == all;
    edges := SortValues(all, keys, seen);
  }

  method SortValues(ghost all: seq<Edge>, keys: seq<EdgeKey>, seen: map<EdgeKey, Edge>) returns (edges: seq<Edge>)
    requires seen == Heaviest(all) && Distinct(keys) && forall k :: k in keys <==> k in seen
    requires forall k :: k in seen ==> KeyOf(seen[k]) == k
    ensures Deduplicated(all, edges)
  {
    hide Heaviest, SortKey, Sorted, KeyOf, Distinct;
    assert forall i :: 0 <= i < |keys| ==> keys[i] in keys;
    var values := seq(|keys|, i requires 0 <= i < |keys| => seen[keys[i]]);
    edges := SortBy(values, SortKey());
    ValuesOf(keys, seen, values);
    SortBySorts(values, SortKey());
    DistinctSameElements(values, edges);
    OneEdgePerKey(seen, edges);
  }

  lemma OneEdgePerKey(seen: map<EdgeKey, Edge>, edges: seq<Edge>)
    requires Distinct(edges) && forall e :: e in edges ==> KeyOf(e) in seen && seen[KeyOf(e)] == e
    ensures forall i, j :: 0 <= i < j < |edges| ==> KeyOf(edges[i]) != KeyOf(edges[j])
  {
    hide KeyOf;
    forall i, j | 0 <= i < j < |edges| ensures KeyOf(edges[i]) != KeyOf(edges[j]) {
      assert edges[i] in edges && edges[j] in edges && edges[i] != edges[j];
    }
  }

  lemma ValuesOf(keys: seq<EdgeKey>, seen: map<EdgeKey, Edge>, values: seq<Edge>)
    requires Distinct(keys) && (forall k :: k in keys <==> k in seen) && |values| == |keys|
    requires forall i :: 0 <= i < |keys| ==> keys[i] in seen && values[i] == seen[keys[i]]
    requires forall k :: k in seen ==> KeyOf(seen[k]) == k
    ensures forall e :: e in values <==> KeyOf(e) in seen && seen[KeyOf(e)] == e
    ensures Distinct(values)
  {
    forall e ensures e in values <==> KeyOf(e) in seen && seen[KeyOf(e)] == e {
      if KeyOf(e) in seen && seen[KeyOf(e)] == e {
        assert KeyOf(e) in keys;
        var i :| 0 <= i < |keys| && keys[i] == KeyOf(e);
        assert values[i] == e;
      }
    }
    forall i, j | 0 <= i < j < |values| ensures values[i] != values[j] {
      assert KeyOf(values[i]) == keys[i] != keys[j] == KeyOf(values[j]);
    }
  }

  /** Every edge's key survives, with a weight at least its own, and nothing is invented. */
  lemma {:induction false} HeaviestIsMax(all: seq<Edge>)
    ensures forall k :: k in Heaviest(all) ==> Heaviest(all)[k] in all && KeyOf(Heaviest(all)[k]) == k
    ensures forall e :: e in all ==> KeyOf(e) in Heaviest(all) && e.weight <= Heaviest(all)[KeyOf(e)].weight
  {
    if all != [] {
      HeaviestIsMax(all[..|all| - 1]);
      assert all == all[..|all| - 1] + [all[|all| - 1]];
    }
  }

  ghost predicate HasKey(edges: seq<Edge>, k: EdgeKey) {
    exists e :: e in edges && KeyOf(e) == k
  }

  lemma DeduplicatedKeys(all: seq<Edge>, edges: seq<Edge>, k: EdgeKey)
    requires Deduplicated(all, edges)
    ensures HasKey(edges, k) <==> HasKey(all, k)
  {
    hide Heaviest;
    HeaviestIsMax(all);
    if HasKey(all, k) {
      var e :| e in all && KeyOf(e) == k;
      assert Heaviest(all)[k] in edges;
    }
    if HasKey(edges, k) {
      var e :| e in edges && KeyOf(e) == k;
      assert e in all;
    }
  }

  /** All edges together; those of problems and tutorials, and of prerequisites, come from elsewhere. */
  function AllEdges(terms: seq<Term>, chunks: seq<Chunk>, others: seq<Edge>, prerequisites: seq<Edge>): seq<Edge> {
    RagEdges(terms, chunks) + others + ConfusableEdges(terms) + prerequisites
  }

  method BuildEdges(terms: seq<Term>, chunks: seq<Chunk>, others: seq<Edge>, prerequisites: seq<Edge>)
    returns (edges: seq<Edge>)
    ensures Deduplicated(AllEdges(terms, chunks, others, prerequisites), edges)
  {
    var rag := EdgesToRag(terms, chunks);
    var confusable := EdgesConfusable(terms);
    var all := rag + others + confusable + prerequisites;
    edges := Deduplicate(all);
  }

  // ---- The index ----

  predicate Defines(e: Edge) {
    e.kind == RagChunk && e.relation == DefinedIn
  }

  /** The chunks that a term's edges point to, in edge order. */
  function ChunksOf(edges: seq<Edge>, term: string): seq<string> {
    if edges == [] then []
    else
      var e := edges[|edges| - 1];
      ChunksOf(edges[..|edges| - 1], term) + if Defines(e) && e.from == term then [e.to] else []
  }

  function TermsOf(edges: seq<Edge>, chunk: string): set<string> {
    set e | e in edges && Defines(e) && e.to == chunk :: e.from
  }

  lemma TermsOfAppend(edges: seq<Edge>, e: Edge, chunk: string)
    ensures TermsOf(edges + [e], chunk) == TermsOf(edges, chunk) + if Defines(e) && e.to == chunk then {e.from} else {}
  {
    assert forall x :: x in edges + [e] <==> x in edges || x == e;
  }

  lemma ChunksOfAppend(edges: seq<Edge>, e: Edge, term: string)
    ensures ChunksOf(edges + [e], term) == ChunksOf(edges, term) + if Defines(e) && e.from == term then [e.to] else []
  {
    assert (edges + [e])[..|edges|] == edges;
  }

  lemma NothingIndexed()
    ensures forall c :: TermsOf([], c) == {}
    ensures forall t :: ChunksOf([], t) == []
  {
  }

  class TermIndex {
    var chunkToTerms: map<string, set<string>>
    var termToChunks: map<string, seq<string>>

    /** Fill both tables edge by edge. */
    constructor (edges: seq<Edge>)
      ensures forall c :: ChunkDefinedBy(c) == TermsOf(edges, c)
      ensures forall t :: RelatedChunks(t) == ChunksOf(edges, t)
    {
      chunkToTerms, termToChunks := map[], map[];
      new;
      NothingIndexed();
      hide TermsOf, ChunksOf;
      for i := 0 to |edges|
        invariant forall c :: ChunkDefinedBy(c) == TermsOf(edges[..i], c)
        invariant forall t :: RelatedChunks(t) == ChunksOf(edges[..i], t)
      {
        assert edges[..i + 1] == edges[..i] + [edges[i]];
        var e := edges[i];
        forall c { TermsOfAppend(edges[..i], e, c); }
        forall t { ChunksOfAppend(edges[..i], e, t); }
        if e.kind == RagChunk && e.relation == DefinedIn {
          chunkToTerms := chunkToTerms[e.to := ChunkDefinedBy(e.to) + {e.from}];
          termToChunks := termToChunks[e.from := RelatedChunks(e.from) + [e.to]];
        }
      }
      assert edges[..|edges|] == edges;
    }

    function ChunkDefinedBy(chunk: string): set<string>
      reads this
    {
      if chunk in chunkToTerms then chunkToTerms[chunk] else {}
    }

    function RelatedChunks(term: string): seq<string>
      reads this
    {
      if term in termToChunks then termToChunks[term] else []
    }
  }

  // ---- The index agrees with direct matching ----

  /** Does a surface form of the term occur among the chunk's keywords or in its text? */
  ghost predicate Matches(t: Term, c: Chunk) {
    exists f :: f in SurfaceForms(t) && (f in c.keywords || Mentions(c.text, f))
  }

  ghost predicate Defined(terms: seq<Term>, chunks: seq<Chunk>, term: string, chunk: string) {
    exists t, c :: t in terms && c in chunks && t.id == term && c.id == chunk && Matches(t, c)
  }

  /** No edge from elsewhere claims that a chunk defines a term. */
  ghost predicate NoneDefines(edges: seq<Edge>) {
    forall e :: e in edges ==> !Defines(e)
  }

  lemma MatchFinds(t: Term, c: Chunk)
    ensures Match(t, c) != [] <==> Matches(t, c)
    ensures forall e :: e in Match(t, c) ==> Defines(e) && e.from == t.id && e.to == c.id
  {
    hide SurfaceForms, Mentions;
    if Matches(t, c) {
      var f :| f in SurfaceForms(t) && (f in c.keywords || Mentions(c.text, f));
    }
  }

  lemma {:induction false} RagEdgesOfMembers(t: Term, chunks: seq<Chunk>, e: Edge)
    ensures e in RagEdgesOf(t, chunks) <==> exists c :: c in chunks && e in Match(t, c)
  {
    hide Match;
    if chunks != [] {
      RagEdgesOfMembers(t, chunks[..|chunks| - 1], e);
      assert chunks == chunks[..|chunks| - 1] + [chunks[|chunks| - 1]];
    }
  }

  lemma {:induction false} RagEdgesMembers(terms: seq<Term>, chunks: seq<Chunk>, e: Edge)
    ensures e in RagEdges(terms, chunks) <==> exists t, c :: t in terms && c in chunks && e in Match(t, c)
  {
    hide Match;
    if terms != [] {
      var n := |terms| - 1;
      RagEdgesMembers(terms[..n], chunks, e);
      RagEdgesOfMembers(terms[n], chunks, e);
      assert terms == terms[..n] + [terms[n]];
    }
  }

  lemma {:induction false} ConfusableEdgesKind(terms: seq<Term>)
    ensures forall e :: e in ConfusableEdges(terms) ==> e.kind == TermNode && e.relation == ConfusableWith
  {
    if terms != [] {
      ConfusableEdgesKind(terms[..|terms| - 1]);
      PairEdgesKind(terms[|terms| - 1], terms[|terms| - 1].confusable);
    }
  }

  lemma {:induction false} PairEdgesKind(t: Term, pairs: seq<Confusable>)
    ensures forall e :: e in PairEdges(t, pairs) ==> e.kind == TermNode && e.relation == ConfusableWith
  {
    if pairs != [] { PairEdgesKind(t, pairs[..|pairs| - 1]); }
  }

  lemma ChunkEdgesMatch(terms: seq<Term>, chunks: seq<Chunk>, others: seq<Edge>, prerequisites: seq<Edge>,
                        term: string, chunk: string)
    requires NoneDefines(others) && NoneDefines(prerequisites)
    ensures HasKey(AllEdges(terms, chunks, others, prerequisites), EdgeKey(term, RagChunk, chunk, DefinedIn))
       <==> Defined(terms, chunks, term, chunk)
  {
    hide Match, Matches, RagEdges, ConfusableEdges;
    var all, k := AllEdges(terms, chunks, others, prerequisites), EdgeKey(term, RagChunk, chunk, DefinedIn);
    if HasKey(all, k) {
      var e :| e in all && KeyOf(e) == k;
      ConfusableEdgesKind(terms);
      assert Defines(e) && e in RagEdges(terms, chunks);
      RagEdgesMembers(terms, chunks, e);
      var t, c :| t in terms && c in chunks && e in Match(t, c);
      MatchFinds(t, c);
    }
    if Defined(terms, chunks, term, chunk) {
      var t, c :| t in terms && c in chunks && t.id == term && c.id == chunk && Matches(t, c);
      MatchFinds(t, c);
      var e := Match(t, c)[0];
      assert e in Match(t, c);
      RagEdgesMembers(terms, chunks, e);
      assert e in all;
    }
  }

  lemma {:induction false} ChunksOfMembers(edges: seq<Edge>, term: string, chunk: string)
    ensures chunk in ChunksOf(edges, term) <==> HasKey(edges, EdgeKey(term, RagChunk, chunk, DefinedIn))
  {
    if edges != [] {
      var n := |edges| - 1;
      ChunksOfMembers(edges[..n], term, chunk);
      assert edges == edges[..n] + [edges[n]];
      var k := EdgeKey(term, RagChunk, chunk, DefinedIn);
      assert HasKey(edges, k) <==> HasKey(edges[..n], k) || KeyOf(edges[n]) == k;
    }
  }

  lemma {:induction false} ChunksOfDistinct(edges: seq<Edge>, term: string)
    requires forall i, j :: 0 <= i < j < |edges| ==> KeyOf(edges[i]) != KeyOf(edges[j])
    ensures Distinct(ChunksOf(edges, term))
  {
    if edges != [] {
      var n := |edges| - 1;
      ChunksOfDistinct(edges[..n], term);
      ChunksOfMembers(edges[..n], term, edges[n].to);
    }
  }

  /** The index over the built graph says exactly what direct matching says: a term defines a chunk
      when one of its surface forms is a keyword of the chunk or occurs in its text, and the chunks
      related to a term are the same relation read backwards, without repeats. */
  lemma IndexAgreesWithMatching(terms: seq<Term>, chunks: seq<Chunk>, others: seq<Edge>, prerequisites: seq<Edge>,
                                edges: seq<Edge>, term: string, chunk: string)
    requires NoneDefines(others) && NoneDefines(prerequisites)
    requires Deduplicated(AllEdges(terms, chunks, others, prerequisites), edges)
    ensures term in TermsOf(edges, chunk) <==> Defined(terms, chunks, term, chunk)
    ensures chunk in ChunksOf(edges, term) <==> Defined(terms, chunks, term, chunk)
    ensures Distinct(ChunksOf(edges, term))
  {
    hide AllEdges, Defined;
    var k := EdgeKey(term, RagChunk, chunk, DefinedIn);
    ChunkEdgesMatch(terms, chunks, others, prerequisites, term, chunk);
    DeduplicatedKeys(AllEdges(terms, chunks, others, prerequisites), edges, k);
    assert term in TermsOf(edges, chunk) <==> HasKey(edges, k);
    ChunksOfMembers(edges, term, chunk);
    ChunksOfDistinct(edges, term);
  }

  ghost predicate KeywordDefined(terms: seq<Term>, chunks: seq<Chunk>, term: string, chunk: string) {
    exists t, c :: t in terms && c in chunks && t.id == term && c.id == chunk && HasKeyword(t, c)
  }

  ghost predicate HasKeyword(t: Term, c: Chunk) {
    exists f :: f in SurfaceForms(t) && f in c.keywords
  }

  lemma MatchWeighs(t: Term, c: Chunk)
    ensures forall e :: e in Match(t, c) ==> e.weight == if HasKeyword(t, c) then 2 else 1
    ensures HasKeyword(t, c) ==> Matches(t, c)
  {
    hide SurfaceForms, Mentions;
  }

  /** A stored weight is 2 exactly when a keyword, and not only the text, of a chunk of that id
      matches a term of that id: deduplication lets the stronger evidence win. */
  lemma WeightMeansKeyword(terms: seq<Term>, chunks: seq<Chunk>, others: seq<Edge>, prerequisites: seq<Edge>,
                           edges: seq<Edge>, e: Edge)
    requires NoneDefines(others) && NoneDefines(prerequisites)
    requires Deduplicated(AllEdges(terms, chunks, others, prerequisites), edges) && e in edges && Defines(e)
    ensures e.weight == if KeywordDefined(terms, chunks, e.from, e.to) then 2 else 1
  {
    hide RagEdges, ConfusableEdges, Heaviest, Match, HasKeyword, Matches;
    var all := AllEdges(terms, chunks, others, prerequisites);
    HeaviestIsMax(all);
    ConfusableEdgesKind(terms);
    assert e in all && e in RagEdges(terms, chunks);
    RagEdgesMembers(terms, chunks, e);
    var t, c :| t in terms && c in chunks && e in Match(t, c);
    MatchFinds(t, c);
    MatchWeighs(t, c);
    if KeywordDefined(terms, chunks, e.from, e.to) {
      var t', c' :| t' in terms && c' in chunks && t'.id == e.from && c'.id == e.to && HasKeyword(t', c');
      MatchWeighs(t', c');
      MatchFinds(t', c');
      var strong := Match(t', c')[0];
      assert strong in Match(t', c');
      RagEdgesMembers(terms, chunks, strong);
      assert strong in all && KeyOf(strong) == KeyOf(e);
    }
  }

  // ---- Confusable pairs ----

  lemma {:induction false} PairEdgesSymmetric(t: Term, pairs: seq<Confusable>, e: Edge)
    requires e in PairEdges(t, pairs)
    ensures Edge(e.to, e.kind, e.from, e.relation, e.weight, e.evidence) in PairEdges(t, pairs)
  {
    var front := PairEdges(t, pairs[..|pairs| - 1]);
    if e in front { PairEdgesSymmetric(t, pairs[..|pairs| - 1], e); }
  }

  lemma {:induction false} ConfusableEdgesSymmetric(terms: seq<Term>, e: Edge)
    requires e in ConfusableEdges(terms)
    ensures Edge(e.to, e.kind, e.from, e.relation, e.weight, e.evidence) in ConfusableEdges(terms)
  {
    var n := |terms| - 1;
    if e in ConfusableEdges(terms[..n]) {
      ConfusableEdgesSymmetric(terms[..n], e);
    } else {
      PairEdgesSymmetric(terms[n], terms[n].confusable, e);
    }
  }

  /** Confusion is mutual in the stored graph. */
  lemma ConfusableIsSymmetric(terms: seq<Term>, chunks: seq<Chunk>, others: seq<Edge>, prerequisites: seq<Edge>,
                              edges: seq<Edge>, a: string, b: string)
    requires forall e :: e in others || e in prerequisites ==> e.relation != ConfusableWith
    requires Deduplicated(AllEdges(terms, chunks, others, prerequisites), edges)
    requires HasKey(edges, EdgeKey(a, TermNode, b, ConfusableWith))
    ensures HasKey(edges, EdgeKey(b, TermNode, a, ConfusableWith))
  {
    hide RagEdges, ConfusableEdges, Deduplicated;
    var all := AllEdges(terms, chunks, others, prerequisites);
    DeduplicatedKeys(all, edges, EdgeKey(a, TermNode, b, ConfusableWith));
    DeduplicatedKeys(all, edges, EdgeKey(b, TermNode, a, ConfusableWith));
    var e :| e in all && KeyOf(e) == EdgeKey(a, TermNode, b, ConfusableWith);
    if e in RagEdges(terms, chunks) {
      RagEdgesMembers(terms, chunks, e);
      var t, c :| t in terms && c in chunks && e in Match(t, c);
      MatchFinds(t, c);
    }
    ConfusableEdgesSymmetric(terms, e);
    var back := Edge(b, TermNode, a, ConfusableWith, e.weight, e.evidence);
    assert back in all && KeyOf(back) == EdgeKey(b, TermNode, a, ConfusableWith);
  }
}
