/** Learning paths: weak concepts are traced back to their prerequisites, truncated and ordered. */
module LearningPath {
  import opened Filters
  import opened Order
  import opened Text
  import opened Wrappers

  type Id = string

  /** A seed term: the surface forms it can be recognised by, and the terms to study before it. */
  datatype Term = Term(name: string, aliases: seq<string>, prerequisites: seq<Id>)

  type Terms = map<Id, Term>

  datatype Root = Root(term: Id, concept: string)

  /** Why a term is on the path. */
  datatype Why = Matched(concept: string) | Needed(parent: Id, concept: string, steps: nat)

  datatype Node = Node(depth: nat, why: Why)

  type Nodes = map<Id, Node>

  // ---- What should be found ----

  /** The prerequisites of `t` that are seed terms themselves. */
  predicate Step(terms: Terms, t: Id, p: Id) {
    t in terms && p in terms && p in terms[t].prerequisites
  }

  predicate IsRoot(roots: seq<Root>, t: Id) {
    exists i :: 0 <= i < |roots| && roots[i].term == t
  }

  /** Can `t` be reached from a root in at most `k` prerequisite steps through seed terms? */
  ghost predicate Within(roots: seq<Root>, terms: Terms, k: nat, t: Id)
    decreases k
  {
    IsRoot(roots, t) || (k > 0 && exists u :: Within(roots, terms, k - 1, u) && Step(terms, u, t))
  }

  ghost predicate IsPath(roots: seq<Root>, terms: Terms, p: seq<Id>) {
    p != [] && IsRoot(roots, p[0]) && forall i :: 0 < i < |p| ==> Step(terms, p[i - 1], p[i])
  }

  /** The layers are the ends of paths: `Within(k)` means a path of at most `k` steps. */
  lemma {:induction false} WithinMeansPath(roots: seq<Root>, terms: Terms, k: nat, t: Id)
    ensures Within(roots, terms, k, t) <==>
            exists p: seq<Id> :: IsPath(roots, terms, p) && |p| <= k + 1 && p[|p| - 1] == t
  {
    if Within(roots, terms, k, t) {
      if IsRoot(roots, t) {
        assert IsPath(roots, terms, [t]);
      } else {
        var u :| Within(roots, terms, k - 1, u) && Step(terms, u, t);
        WithinMeansPath(roots, terms, k - 1, u);
        var p :| IsPath(roots, terms, p) && |p| <= k && p[|p| - 1] == u;
        assert IsPath(roots, terms, p + [t]);
      }
    }
    forall p: seq<Id> | IsPath(roots, terms, p) && |p| <= k + 1 && p[|p| - 1] == t
      ensures Within(roots, terms, k, t)
    {
      PathEndsWithin(roots, terms, k, p);
    }
  }

  lemma {:induction false} PathEndsWithin(roots: seq<Root>, terms: Terms, k: nat, p: seq<Id>)
    requires IsPath(roots, terms, p) && |p| <= k + 1
    ensures Within(roots, terms, k, p[|p| - 1])
  {
    if |p| > 1 {
      var q := p[..|p| - 1];
      assert IsPath(roots, terms, q);
      PathEndsWithin(roots, terms, k - 1, q);
      assert Step(terms, q[|q| - 1], p[|p| - 1]);
    }
  }

  lemma {:induction false} WithinGrows(roots: seq<Root>, terms: Terms, j: nat, k: nat, t: Id)
    requires j <= k && Within(roots, terms, j, t)
    ensures Within(roots, terms, k, t)
  {
    if !IsRoot(roots, t) {
      var u :| Within(roots, terms, j - 1, u) && Step(terms, u, t);
      WithinGrows(roots, terms, j - 1, k - 1, u);
    }
  }

  /** A negative depth limit allows no step at all. */
  function Limit(maxDepth: int): nat {
    if maxDepth < 0 then 0 else maxDepth
  }

  /** The trace is right: exactly the terms within the limit, each at its least distance. */
  ghost predicate ExactTrace(roots: seq<Root>, terms: Terms, limit: nat, nodes: Nodes) {
    && (forall t :: t in nodes <==> Within(roots, terms, limit, t))
    && (forall t, k: nat :: t in nodes ==> (Within(roots, terms, k, t) <==> nodes[t].depth <= k))
  }

  /** Every recorded reason is true: a root is its own reason, any other term has a parent one step
      closer that lists it, and both carry the concept of the same root. */
  ghost predicate ReasonsHold(roots: seq<Root>, terms: Terms, nodes: Nodes) {
    forall t :: t in nodes ==> ReasonHolds(roots, terms, nodes, t)
  }

  ghost predicate ReasonHolds(roots: seq<Root>, terms: Terms, nodes: Nodes, t: Id)
    requires t in nodes
  {
    match nodes[t].why
    case Matched(concept) => nodes[t].depth == 0 && Root(t, concept) in roots
    case Needed(parent, concept, steps) =>
      && parent in nodes && nodes[t].depth == nodes[parent].depth + 1 == steps
      && Step(terms, parent, t) && ConceptOf(nodes[parent].why) == concept
  }

  function ConceptOf(w: Why): string {
    w.concept
  }

  // ---- The breadth-first search ----

  datatype Visit = Visit(term: Id, concept: string, depth: nat)

  /** The queue holds recorded terms with their depths, shallow first, within one level of each other. */
  ghost predicate QueueValid(nodes: Nodes, queue: seq<Visit>) {
    && (forall i :: 0 <= i < |queue| ==> Recorded(nodes, queue[i]))
    && (forall i, j :: 0 <= i <= j < |queue| ==> queue[i].depth <= queue[j].depth <= queue[i].depth + 1)
  }

  ghost predicate Recorded(nodes: Nodes, v: Visit) {
    v.term in nodes && nodes[v.term].depth == v.depth && ConceptOf(nodes[v.term].why) == v.concept
  }

  ghost predicate Queued(queue: seq<Visit>, t: Id) {
    exists i :: 0 <= i < |queue| && queue[i].term == t
  }

  /** All of `t`'s listed seed terms are recorded, at most one level below `t`. */
  ghost predicate Expanded(terms: Terms, nodes: Nodes, t: Id)
    requires t in nodes
  {
    forall p :: Step(terms, t, p) ==> p in nodes && nodes[p].depth <= nodes[t].depth + 1
  }

  /** Everything recorded and no longer queued has been expanded, unless it is at the limit. */
  ghost predicate Done(terms: Terms, limit: int, nodes: Nodes, queue: seq<Visit>) {
    forall t :: t in nodes && !Queued(queue, t) && nodes[t].depth < limit ==> Expanded(terms, nodes, t)
  }

  ghost predicate Sound(roots: seq<Root>, terms: Terms, limit: nat, nodes: Nodes) {
    && nodes.Keys <= terms.Keys
    && (forall t :: t in nodes ==> nodes[t].depth <= limit && Within(roots, terms, nodes[t].depth, t))
    && (forall i :: 0 <= i < |roots| ==> roots[i].term in nodes && nodes[roots[i].term].depth == 0)
    && ReasonsHold(roots, terms, nodes)
  }

  /** When the queue has run dry, soundness and closure give the exact trace. */
  lemma ClosedTraceIsExact(roots: seq<Root>, terms: Terms, limit: nat, nodes: Nodes)
    requires Sound(roots, terms, limit, nodes) && Done(terms, limit, nodes, [])
    ensures ExactTrace(roots, terms, limit, nodes)
  {
    forall t, k: nat | k <= limit && Within(roots, terms, k, t) ensures t in nodes && nodes[t].depth <= k {
      ReachedInTime(roots, terms, limit, nodes, k, t);
    }
    forall t | t in nodes ensures Within(roots, terms, limit, t) {
      WithinGrows(roots, terms, nodes[t].depth, limit, t);
    }
    forall t, k: nat | t in nodes ensures Within(roots, terms, k, t) <==> nodes[t].depth <= k {
      if nodes[t].depth <= k { WithinGrows(roots, terms, nodes[t].depth, k, t); }
    }
  }

  lemma {:induction false} ReachedInTime(roots: seq<Root>, terms: Terms, limit: nat, nodes: Nodes, k: nat, t: Id)
    requires Sound(roots, terms, limit, nodes) && Done(terms, limit, nodes, [])
    requires k <= limit && Within(roots, terms, k, t)
    ensures t in nodes && nodes[t].depth <= k
  {
    if !IsRoot(roots, t) {
      var u :| Within(roots, terms, k - 1, u) && Step(terms, u, t);
      ReachedInTime(roots, terms, limit, nodes, k - 1, u);
      assert Expanded(terms, nodes, u);
    }
  }

  /** The roots in order, each recorded once. */
  function Seeded(roots: seq<Root>): (Nodes, seq<Visit>) {
    if roots == [] then (map[], [])
    else
      var (nodes, queue) := Seeded(roots[..|roots| - 1]);
      var r := roots[|roots| - 1];
      if r.term in nodes then (nodes, queue)
      else (nodes[r.term := Node(0, Matched(r.concept))], queue + [Visit(r.term, r.concept, 0)])
  }

  function Record(v: Visit, nodes: Nodes, p: Id): Nodes {
    nodes[p := Node(v.depth + 1, Needed(v.term, v.concept, v.depth + 1))]
  }

  /** The listed terms in order: each unseen seed term is recorded and queued. */
  function Discover(terms: Terms, v: Visit, ps: seq<Id>, nodes: Nodes, queue: seq<Visit>): (r: (Nodes, seq<Visit>))
    ensures nodes.Keys <= r.0.Keys <= nodes.Keys + terms.Keys
    ensures r.0.Keys == nodes.Keys ==> r == (nodes, queue)
  {
    if ps == [] then (nodes, queue)
    else
      var (m, q) := Discover(terms, v, ps[..|ps| - 1], nodes, queue);
      var p := ps[|ps| - 1];
      if p in m || p !in terms then (m, q)
      else (Record(v, m, p), q + [Visit(p, v.concept, v.depth + 1)])
  }

  lemma DiscoverNext(terms: Terms, v: Visit, ps: seq<Id>, k: nat, nodes: Nodes, queue: seq<Visit>)
    requires k < |ps|
    ensures var (m, q) := Discover(terms, v, ps[..k], nodes, queue);
      Discover(terms, v, ps[..k + 1], nodes, queue) ==
      if ps[k] in m || ps[k] !in terms then (m, q)
      else (Record(v, m, ps[k]), q + [Visit(ps[k], v.concept, v.depth + 1)])
  {
    assert ps[..k + 1][..k] == ps[..k];
  }

  lemma NothingDiscovered(terms: Terms, v: Visit, nodes: Nodes, queue: seq<Visit>)
    ensures Discover(terms, v, [], nodes, queue) == (nodes, queue)
  {
  }

  /** The whole search: which terms are found, how deep, and for which reason. */
  function Search(terms: Terms, maxDepth: int, nodes: Nodes, queue: seq<Visit>): Nodes
    requires nodes.Keys <= terms.Keys
    decreases terms.Keys - nodes.Keys, |queue|
  {
    if queue == [] then nodes
    else
      var v := queue[0];
      if v.depth >= maxDepth || v.term !in terms then Search(terms, maxDepth, nodes, queue[1..])
      else
        var (m, q) := Discover(terms, v, terms[v.term].prerequisites, nodes, queue[1..]);
        Search(terms, maxDepth, m, q)
  }

  function Trace(roots: seq<Root>, terms: Terms, maxDepth: int): Nodes
    requires Seeded(roots).0.Keys <= terms.Keys
  {
    Search(terms, maxDepth, Seeded(roots).0, Seeded(roots).1)
  }

  /** What holds once the first `k` roots are recorded and queued. */
  ghost predicate Planted(roots: seq<Root>, terms: Terms, k: nat, nodes: Nodes, queue: seq<Visit>)
    requires k <= |roots|
  {
    && nodes.Keys <= terms.Keys
    && (forall t :: t in nodes ==> nodes[t].depth == 0 && Queued(queue, t) && IsRoot(roots, t))
    && (forall t :: t in nodes ==> nodes[t].why.Matched? && Root(t, nodes[t].why.concept) in roots)
    && (forall i :: 0 <= i < k ==> roots[i].term in nodes)
    && (forall i :: 0 <= i < |queue| ==> Recorded(nodes, queue[i]))
  }

  lemma {:induction false} SeededIsPlanted(roots: seq<Root>, terms: Terms, k: nat)
    requires k <= |roots| && forall r :: r in roots ==> r.term in terms
    ensures Planted(roots, terms, k, Seeded(roots[..k]).0, Seeded(roots[..k]).1)
  {
    if k > 0 {
      SeededIsPlanted(roots, terms, k - 1);
      assert roots[..k][..k - 1] == roots[..k - 1];
      var (nodes, queue) := Seeded(roots[..k - 1]);
      PlantOne(roots, terms, k - 1, nodes, queue);
    }
  }

  lemma PlantOne(roots: seq<Root>, terms: Terms, k: nat, nodes: Nodes, queue: seq<Visit>)
    requires k < |roots| && roots[k].term in terms && Planted(roots, terms, k, nodes, queue)
    ensures roots[k].term in nodes ==> Planted(roots, terms, k + 1, nodes, queue)
    ensures roots[k].term !in nodes ==>
      Planted(roots, terms, k + 1, nodes[roots[k].term := Node(0, Matched(roots[k].concept))],
              queue + [Visit(roots[k].term, roots[k].concept, 0)])
  {
    QueuedAppend(queue, Visit(roots[k].term, roots[k].concept, 0));
    assert IsRoot(roots, roots[k].term);
    assert Root(roots[k].term, roots[k].concept) == roots[k];
  }

  lemma PlantedIsSound(roots: seq<Root>, terms: Terms, nodes: Nodes, queue: seq<Visit>)
    requires Planted(roots, terms, |roots|, nodes, queue)
    ensures Sound(roots, terms, 0, nodes) && QueueValid(nodes, queue)
    ensures forall limit :: Done(terms, limit, nodes, queue)
  {
  }

  method QueueRoots(roots: seq<Root>, terms: Terms) returns (nodes: Nodes, queue: seq<Visit>)
    requires forall r :: r in roots ==> r.term in terms
    ensures (nodes, queue) == Seeded(roots)
    ensures Sound(roots, terms, 0, nodes) && QueueValid(nodes, queue)
    ensures forall t :: t in nodes ==> nodes[t].depth == 0
    ensures forall limit :: Done(terms, limit, nodes, queue)
  {
    hide Sound, QueueValid, Done;
    nodes, queue := map[], [];
    for k := 0 to |roots|
      invariant (nodes, queue) == Seeded(roots[..k])
    {
      assert roots[..k + 1][..k] == roots[..k];
      if roots[k].term in nodes {
        continue;
      }
      nodes := nodes[roots[k].term := Node(0, Matched(roots[k].concept))];
      queue := queue + [Visit(roots[k].term, roots[k].concept, 0)];
    }
    assert roots[..|roots|] == roots;
    SeededIsPlanted(roots, terms, |roots|);
    PlantedIsSound(roots, terms, nodes, queue);
  }

  lemma QueuedAppend(queue: seq<Visit>, v: Visit)
    ensures forall t :: Queued(queue + [v], t) <==> Queued(queue, t) || v.term == t
  {
    var q := queue + [v];
    assert q[|queue|] == v;
    forall t | Queued(queue, t) ensures Queued(q, t) {
      var i :| 0 <= i < |queue| && queue[i].term == t;
      assert q[i].term == t;
    }
  }

  lemma QueuedPop(queue: seq<Visit>, t: Id)
    requires queue != []
    ensures Queued(queue, t) <==> queue[0].term == t || Queued(queue[1..], t)
  {
    if Queued(queue, t) && queue[0].term != t {
      var i :| 0 <= i < |queue| && queue[i].term == t;
      assert queue[1..][i - 1].term == t;
    }
    if Queued(queue[1..], t) {
      var i :| 0 <= i < |queue| - 1 && queue[1..][i].term == t;
      assert queue[i + 1].term == t;
    }
  }

  /** Record the unseen prerequisites of one term, and queue them behind the rest. */
  method Expand(roots: seq<Root>, terms: Terms, limit: nat, v: Visit, nodes: Nodes, queue: seq<Visit>)
    returns (nodes': Nodes, queue': seq<Visit>)
    requires Sound(roots, terms, limit, nodes) && QueueValid(nodes, [v] + queue)
    requires Done(terms, limit, nodes, [v] + queue) && v.depth < limit
    requires forall t :: t in nodes ==> nodes[t].depth <= v.depth + 1
    ensures Sound(roots, terms, limit, nodes') && QueueValid(nodes', queue')
    ensures Done(terms, limit, nodes', queue')
    ensures queue' != [] ==> forall t :: t in nodes' ==> nodes'[t].depth <= queue'[0].depth + 1
    ensures nodes.Keys < nodes'.Keys || (nodes' == nodes && queue' == queue)
    ensures v.term in terms && (nodes', queue') == Discover(terms, v, terms[v.term].prerequisites, nodes, queue)
  {
    hide Sound, QueueValid, Done, Discover;
    FrontIsRecorded(roots, terms, limit, v, nodes, queue);
    nodes', queue' := nodes, queue;
    NothingDiscovered(terms, v, nodes, queue);
    var prerequisites := terms[v.term].prerequisites;
    for k := 0 to |prerequisites|
      invariant Sound(roots, terms, limit, nodes') && QueueValid(nodes', [v] + queue')
      invariant Done(terms, limit, nodes', [v] + queue') && Recorded(nodes', v)
      invariant forall t :: t in nodes' ==> nodes'[t].depth <= v.depth + 1
      invariant nodes.Keys < nodes'.Keys || (nodes' == nodes && queue' == queue)
      invariant forall i :: 0 <= i < k && prerequisites[i] in terms ==> prerequisites[i] in nodes'
      invariant (nodes', queue') == Discover(terms, v, prerequisites[..k], nodes, queue)
    {
      DiscoverNext(terms, v, prerequisites, k, nodes, queue);
      var p := prerequisites[k];
      if p in nodes' || p !in terms {
        continue;
      }
      RecordIsSound(roots, terms, limit, v, nodes', p);
      RecordKeepsQueue(v, nodes', queue', p);
      RecordKeepsDone(terms, limit, v, nodes', queue', p);
      nodes' := Record(v, nodes', p);
      queue' := queue' + [Visit(p, v.concept, v.depth + 1)];
    }
    assert prerequisites[..|prerequisites|] == prerequisites;
    FrontIsShallow(v, nodes', queue');
    PopExpanded(terms, limit, v, nodes', queue');
  }

  lemma FrontIsRecorded(roots: seq<Root>, terms: Terms, limit: nat, v: Visit, nodes: Nodes, queue: seq<Visit>)
    requires Sound(roots, terms, limit, nodes) && QueueValid(nodes, [v] + queue)
    ensures Recorded(nodes, v) && v.term in terms
  {
    assert ([v] + queue)[0] == v;
  }

  lemma ReasonStays(roots: seq<Root>, terms: Terms, v: Visit, nodes: Nodes, p: Id, t: Id)
    requires t in nodes && p !in nodes && ReasonHolds(roots, terms, nodes, t)
    ensures ReasonHolds(roots, terms, Record(v, nodes, p), t)
  {
    hide Step;
  }

  lemma RecordKeepsReasons(roots: seq<Root>, terms: Terms, v: Visit, nodes: Nodes, p: Id)
    requires ReasonsHold(roots, terms, nodes) && Recorded(nodes, v) && Step(terms, v.term, p) && p !in nodes
    ensures ReasonsHold(roots, terms, Record(v, nodes, p))
  {
    hide ReasonHolds, Step;
    var nodes' := Record(v, nodes, p);
    forall t | t in nodes' ensures ReasonHolds(roots, terms, nodes', t) {
      if t == p {
        NewReason(roots, terms, v, nodes, p);
      } else {
        ReasonStays(roots, terms, v, nodes, p, t);
      }
    }
  }

  lemma NewReason(roots: seq<Root>, terms: Terms, v: Visit, nodes: Nodes, p: Id)
    requires Recorded(nodes, v) && Step(terms, v.term, p) && p !in nodes
    ensures ReasonHolds(roots, terms, Record(v, nodes, p), p)
  {
    hide Step;
  }

  lemma RecordIsSound(roots: seq<Root>, terms: Terms, limit: nat, v: Visit, nodes: Nodes, p: Id)
    requires Sound(roots, terms, limit, nodes) && Recorded(nodes, v) && v.depth < limit
    requires Step(terms, v.term, p) && p !in nodes
    ensures Sound(roots, terms, limit, Record(v, nodes, p))
  {
    hide ReasonsHold;
    assert Within(roots, terms, v.depth, v.term);
    assert Within(roots, terms, v.depth + 1, p);
    RecordKeepsReasons(roots, terms, v, nodes, p);
  }

  lemma RecordKeepsQueue(v: Visit, nodes: Nodes, queue: seq<Visit>, p: Id)
    requires QueueValid(nodes, [v] + queue) && p !in nodes
    ensures QueueValid(Record(v, nodes, p), [v] + (queue + [Visit(p, v.concept, v.depth + 1)]))
  {
    var q := [v] + queue;
    var q' := [v] + (queue + [Visit(p, v.concept, v.depth + 1)]);
    assert q[0] == v;
    assert forall i :: 0 <= i < |q| ==> q'[i] == q[i];
    forall i | 0 <= i < |q| ensures v.depth <= q[i].depth <= v.depth + 1 && Recorded(nodes, q[i]) {
      assert q[0].depth <= q[i].depth;
    }
  }

  lemma RecordKeepsDone(terms: Terms, limit: int, v: Visit, nodes: Nodes, queue: seq<Visit>, p: Id)
    requires Done(terms, limit, nodes, [v] + queue) && p !in nodes
    requires QueueValid(nodes, [v] + queue)
    requires forall t :: t in nodes ==> nodes[t].depth <= v.depth + 1
    ensures Done(terms, limit, Record(v, nodes, p), [v] + (queue + [Visit(p, v.concept, v.depth + 1)]))
  {
    var visit := Visit(p, v.concept, v.depth + 1);
    var nodes' := Record(v, nodes, p);
    assert [v] + (queue + [visit]) == [v] + queue + [visit];
    QueuedAppend([v] + queue, visit);
    forall t | t in nodes' && !Queued([v] + (queue + [visit]), t) && nodes'[t].depth < limit
      ensures Expanded(terms, nodes', t)
    {
      assert t in nodes && !Queued([v] + queue, t);
      assert Expanded(terms, nodes, t);
    }
  }

  /** Once all its prerequisites are recorded, the front of the queue may be dropped. */
  lemma PopExpanded(terms: Terms, limit: nat, v: Visit, nodes: Nodes, queue: seq<Visit>)
    requires QueueValid(nodes, [v] + queue) && Done(terms, limit, nodes, [v] + queue)
    requires v.term in nodes && nodes[v.term].depth == v.depth
    requires forall t :: t in nodes ==> nodes[t].depth <= v.depth + 1
    requires forall p :: Step(terms, v.term, p) ==> p in nodes
    ensures QueueValid(nodes, queue) && Done(terms, limit, nodes, queue)
  {
    var q := [v] + queue;
    assert q[1..] == queue && q[0] == v;
    assert forall i :: 0 <= i < |queue| ==> queue[i] == q[i + 1];
    forall t | t in nodes && !Queued(queue, t) && nodes[t].depth < limit ensures Expanded(terms, nodes, t) {
      QueuedPop(q, t);
    }
  }

  /** At the depth limit the front of the queue is dropped unexpanded. */
  lemma PopAtLimit(terms: Terms, limit: int, v: Visit, nodes: Nodes, queue: seq<Visit>)
    requires QueueValid(nodes, [v] + queue) && Done(terms, limit, nodes, [v] + queue) && v.depth >= limit
    ensures QueueValid(nodes, queue) && Done(terms, limit, nodes, queue)
  {
    var q := [v] + queue;
    assert q[1..] == queue && q[0] == v && Recorded(nodes, q[0]);
    assert forall i :: 0 <= i < |queue| ==> queue[i] == q[i + 1];
    forall t | t in nodes && !Queued(queue, t) && nodes[t].depth < limit ensures Expanded(terms, nodes, t) {
      QueuedPop(q, t);
    }
  }

  lemma FrontIsShallow(v: Visit, nodes: Nodes, queue: seq<Visit>)
    requires QueueValid(nodes, [v] + queue) && (forall t :: t in nodes ==> nodes[t].depth <= v.depth + 1)
    ensures queue != [] ==> forall t :: t in nodes ==> nodes[t].depth <= queue[0].depth + 1
  {
    var q := [v] + queue;
    if queue != [] { assert q[0] == v && q[1] == queue[0] && q[0].depth <= q[1].depth; }
  }

  /** Breadth-first search from the roots, never deeper than `maxDepth`; cycles are harmless. */
  method TracePrerequisites(roots: seq<Root>, terms: Terms, maxDepth: int) returns (nodes: Nodes)
    requires forall r :: r in roots ==> r.term in terms
    ensures ExactTrace(roots, terms, Limit(maxDepth), nodes)
    ensures ReasonsHold(roots, terms, nodes)
    ensures nodes.Keys <= terms.Keys
    ensures Seeded(roots).0.Keys <= terms.Keys && nodes == Trace(roots, terms, maxDepth)
  {
    hide QueueValid, Done, ReasonsHold, ExactTrace, Seeded, Discover;
    var limit := Limit(maxDepth);
    var queue;
    nodes, queue := QueueRoots(roots, terms);
    while queue != []
      invariant Sound(roots, terms, limit, nodes) && QueueValid(nodes, queue)
      invariant Done(terms, limit, nodes, queue)
      invariant queue != [] ==> forall t :: t in nodes ==> nodes[t].depth <= queue[0].depth + 1
      invariant nodes.Keys <= terms.Keys && Search(terms, maxDepth, nodes, queue) == Trace(roots, terms, maxDepth)
      decreases terms.Keys - nodes.Keys, |queue|
    {
      var v := queue[0];
      assert queue == [v] + queue[1..];
      queue := queue[1..];
      if v.depth >= maxDepth {
        FrontIsShallow(v, nodes, queue);
        PopAtLimit(terms, limit, v, nodes, queue);
        continue;
      }
      nodes, queue := Expand(roots, terms, limit, v, nodes, queue);
    }
    ClosedTraceIsExact(roots, terms, limit, nodes);
  }

  // ---- Matching a concept to a term ----

  predicate IsSpace(c: char) {
    c == ' ' || c == '\t' || c == '\n' || c == '\r'
  }

  function Strip(s: string): string {
    if s == "" then ""
    else if IsSpace(s[0]) then Strip(s[1..])
    else if IsSpace(s[|s| - 1]) then Strip(s[..|s| - 1])
    else s
  }

  function AfterColon(s: string): Option<string> {
    if s == "" then None else if s[0] == ':' then Some(s[1..]) else AfterColon(s[1..])
  }

  /** The whole concept, then what follows its first colon; a full-width colon counts as one. */
  function Variants(concept: string): seq<string> {
    var whole := Strip(seq(|concept|, i requires 0 <= i < |concept| =>
      if concept[i] == '\U{FF1A}' then ':' else concept[i]));
    var tail := AfterColon(whole);
    var first := if whole == "" then [] else [whole];
    if tail.Some? && Strip(tail.value) != "" && Strip(tail.value) != whole then first + [Strip(tail.value)] else first
  }

  function SurfaceForms(t: Term): seq<string> {
    SurfaceFormsOf(t.name, t.aliases)
  }

  datatype Rating = Rating(rank: int, length: int)

  /** Equal, then the form inside the concept (longer is better), then the concept inside the form. */
  function Rate(variant: string, form: string): Option<Rating> {
    if variant == form then Some(Rating(0, -|form|))
    else if Contains(variant, form) then Some(Rating(1, -|form|))
    else if Contains(form, variant) then Some(Rating(2, |form|))
    else None
  }

  predicate Answers(variant: string, form: string, key: Key) {
    Rate(variant, form) == Some(Rating(key.major, key.minor)) && key == Key(key.major, key.minor, key.id)
  }

  ghost predicate AnsweredBy(forms: seq<string>, variant: string, key: Key) {
    exists form :: form in forms && Answers(variant, form, key)
  }

  /** `key` is how some form of the term `key.id` answers to `variant`. */
  ghost predicate Candidate(terms: Terms, variant: string, key: Key) {
    key.id in terms && AnsweredBy(SurfaceForms(terms[key.id]), variant, key)
  }

  ghost predicate NoCandidate(terms: Terms, variant: string) {
    forall key :: !Candidate(terms, variant, key)
  }

  ghost predicate BestCandidate(terms: Terms, variant: string, key: Key) {
    Candidate(terms, variant, key) && forall other :: Candidate(terms, variant, other) ==> KeyLe(key, other)
  }

  ghost predicate DecidedBy(terms: Terms, variants: seq<string>, i: nat, key: Key) {
    && i < |variants| && BestCandidate(terms, variants[i], key)
    && forall j :: 0 <= j < i ==> NoCandidate(terms, variants[j])
  }

  /** The first variant that any term answers to decides, by its best candidate. */
  ghost predicate BestMatch(terms: Terms, variants: seq<string>, t: Id) {
    exists i, key :: DecidedBy(terms, variants, i, key) && key.id == t
  }

  /** The match does not depend on the order in which the terms are stored. */
  lemma BestMatchIsUnique(terms: Terms, variants: seq<string>, t: Id, u: Id)
    requires BestMatch(terms, variants, t) && BestMatch(terms, variants, u)
    ensures t == u
  {
    var i, key :| DecidedBy(terms, variants, i, key) && key.id == t;
    var k, other :| DecidedBy(terms, variants, k, other) && other.id == u;
    SameDecision(terms, variants, i, key, k, other);
  }

  lemma SameDecision(terms: Terms, variants: seq<string>, i: nat, key: Key, k: nat, other: Key)
    requires DecidedBy(terms, variants, i, key) && DecidedBy(terms, variants, k, other)
    ensures key == other
  {
    hide Candidate;
    assert Candidate(terms, variants[i], key) && Candidate(terms, variants[k], other);
    assert i == k;
    KeyOrder(key, other);
  }

  lemma NoMatch(terms: Terms, variants: seq<string>)
    requires forall i :: 0 <= i < |variants| ==> NoCandidate(terms, variants[i])
    ensures forall t :: !BestMatch(terms, variants, t)
  {
    hide Candidate;
  }

  /** Is `form` one of the surface forms of the term `t`? */
  ghost predicate HasForm(terms: Terms, t: Id, form: string) {
    t in terms && form in SurfaceForms(terms[t])
  }

  predicate AtLeastAsGood(variant: string, own: string, form: string) {
    && (own == variant || Contains(variant, own) || Contains(own, variant))
    && (form == variant ==> own == variant)
    && (Contains(variant, form) ==> own == variant || (Contains(variant, own) && |own| >= |form|))
    && (Contains(form, variant) ==> own == variant || Contains(variant, own) || |own| <= |form|)
  }

  /** What the best candidate means: an exactly equal form beats everything; without one, the longest
      form inside the concept; without one, the shortest form around it. */
  lemma BestCandidateMeans(terms: Terms, variant: string, key: Key, other: Id, form: string)
    requires BestCandidate(terms, variant, key) && HasForm(terms, other, form)
    ensures exists own :: HasForm(terms, key.id, own) && AtLeastAsGood(variant, own, form)
  {
    hide Contains, SurfaceForms, KeyLe;
    var own :| own in SurfaceForms(terms[key.id]) && Answers(variant, own, key);
    assert HasForm(terms, key.id, own);
    var rating := Rate(variant, form);
    if rating.Some? {
      var rival := Key(rating.value.rank, rating.value.length, other);
      assert Answers(variant, form, rival);
      assert Candidate(terms, variant, rival);
      KeysByRating(key, rival);
    }
  }

  lemma KeysByRating(a: Key, b: Key)
    requires KeyLe(a, b) && a == Key(a.major, a.minor, a.id) && b == Key(b.major, b.minor, b.id)
    ensures a.major < b.major || (a.major == b.major && a.minor <= b.minor)
  {
  }

  function Same(): Key -> Key {
    k => k
  }

  method TermCandidates(id: Id, forms: seq<string>, variant: string) returns (c: seq<Key>)
    ensures forall key :: key in c <==> key.id == id && AnsweredBy(forms, variant, key)
  {
    c := [];
    for m := 0 to |forms|
      invariant forall key :: key in c <==> key.id == id && AnsweredBy(forms[..m], variant, key)
    {
      assert forms[..m + 1] == forms[..m] + [forms[m]];
      var rating := Rate(variant, forms[m]);
      if rating.Some? { c := c + [Key(rating.value.rank, rating.value.length, id)]; }
      forall key ensures key in c <==> key.id == id && AnsweredBy(forms[..m + 1], variant, key) {
        if key.id == id && Answers(variant, forms[m], key) { assert forms[m] in forms[..m + 1]; }
      }
    }
    assert forms[..|forms|] == forms;
  }

  method Candidates(terms: Terms, variant: string) returns (c: seq<Key>)
    ensures forall key :: key in c <==> Candidate(terms, variant, key)
  {
    hide AnsweredBy;
    c := [];
    var ids := SetToSeq(terms.Keys);
    for k := 0 to |ids|
      invariant forall key :: key in c <==> Candidate(terms, variant, key) && key.id in ids[..k]
    {
      assert ids[..k + 1] == ids[..k] + [ids[k]];
      assert ids[k] in ids;
      var more := TermCandidates(ids[k], SurfaceForms(terms[ids[k]]), variant);
      c := c + more;
    }
    assert ids[..|ids|] == ids;
  }

  method MatchConcept(terms: Terms, concept: string) returns (r: Option<Id>)
    ensures r.None? ==> forall t :: !BestMatch(terms, Variants(concept), t)
    ensures r.Some? ==> r.value in terms && BestMatch(terms, Variants(concept), r.value)
  {
    var variants := Variants(concept);
    for i := 0 to |variants|
      invariant forall j :: 0 <= j < i ==> NoCandidate(terms, variants[j])
    {
      var c := Candidates(terms, variants[i]);
      if c != [] {
        var sorted := SortBy(c, Same());
        SortBySorts(c, Same());
        assert sorted[0] in sorted;
        forall other | Candidate(terms, variants[i], other) ensures KeyLe(sorted[0], other) {
          assert other in sorted;
          KeyOrder(other, other);
        }
        assert DecidedBy(terms, variants, i, sorted[0]);
        return Some(sorted[0].id);
      }
      assert NoCandidate(terms, variants[i]) by {
        forall key ensures !Candidate(terms, variants[i], key) { assert key !in c; }
      }
    }
    NoMatch(terms, variants);
    r := None;
  }

  // ---- Truncation and study order ----

  function DepthOf(nodes: Nodes, t: Id): int {
    if t in nodes then nodes[t].depth else 0
  }

  /** Truncation keeps the shallow terms; study starts with the deep ones. */
  function Shallow(nodes: Nodes): Id -> Key {
    t => Key(DepthOf(nodes, t), 0, t)
  }

  function Deep(nodes: Nodes): Id -> Key {
    t => Key(-DepthOf(nodes, t), 0, t)
  }

  function Kept(nodes: Nodes, maxNodes: int): nat {
    if maxNodes < 0 then 0 else if maxNodes < |nodes| then maxNodes else |nodes|
  }

  /** The path holds as many terms as allowed, each once, none deeper than a term left out,
      and is laid out from the deepest to the shallowest. */
  ghost predicate GoodPath(nodes: Nodes, maxNodes: int, path: seq<Id>) {
    && |path| == Kept(nodes, maxNodes) && Distinct(path)
    && (forall t :: t in path ==> t in nodes)
    && (forall t, u :: t in path && u in nodes && u !in path ==> KeyLe(Shallow(nodes)(t), Shallow(nodes)(u)))
    && Sorted(path, Deep(nodes))
  }

  method OrderPath(nodes: Nodes, maxNodes: int) returns (path: seq<Id>)
    ensures GoodPath(nodes, maxNodes, path)
  {
    var ids := SetToSeq(nodes.Keys);
    var order := SortBy(ids, Shallow(nodes));
    SortBySorts(ids, Shallow(nodes));
    DistinctSameElements(ids, order);
    var kept := Kept(nodes, maxNodes);
    assert |ids| == |nodes|;
    var selected := order[..kept];
    path := SortBy(selected, Deep(nodes));
    SortBySorts(selected, Deep(nodes));
    DistinctSameElements(selected, path);
    forall t, u | t in path && u in nodes && u !in path ensures KeyLe(Shallow(nodes)(t), Shallow(nodes)(u)) {
      PrefixComesFirst(order, kept, Shallow(nodes), t, u);
    }
  }

  lemma {:induction false} DistinctSize(s: seq<Id>)
    requires Distinct(s)
    ensures |set x | x in s| == |s|
  {
    if s == [] {
      assert (set x | x in s) == {};
    } else {
      var n := |s| - 1;
      DistinctSize(s[..n]);
      assert s == s[..n] + [s[n]];
      assert (set x | x in s) == (set x | x in s[..n]) + {s[n]};
      assert s[n] !in s[..n];
    }
  }

  /** Of two selections of the same size neither has a term that the other lacks. */
  lemma SameSelection(nodes: Nodes, maxNodes: int, p: seq<Id>, q: seq<Id>, t: Id)
    requires GoodPath(nodes, maxNodes, p) && GoodPath(nodes, maxNodes, q) && t in p
    ensures t in q
  {
    hide Sorted, Distinct;
    var ps, qs := set x | x in p, set x | x in q;
    DistinctSize(p);
    DistinctSize(q);
    if t !in q {
      assert !(qs <= ps) by {
        if qs <= ps { SmallerWithout(qs, ps, t); }
      }
      var u :| u in qs && u !in ps;
      KeyOrder(Shallow(nodes)(t), Shallow(nodes)(u));
      assert false;
    }
  }

  lemma SmallerWithout(a: set<Id>, b: set<Id>, t: Id)
    requires a <= b && t in b && t !in a
    ensures |a| < |b|
  {
    SubsetSize(a, b - {t});
  }

  lemma {:induction false} SubsetSize(a: set<Id>, b: set<Id>)
    requires a <= b
    ensures |a| <= |b|
  {
    if a != {} {
      var x :| x in a;
      SubsetSize(a - {x}, b - {x});
    }
  }

  /** The path is determined by the recorded nodes: the same input always gives the same path. */
  lemma PathIsUnique(nodes: Nodes, maxNodes: int, p: seq<Id>, q: seq<Id>)
    requires GoodPath(nodes, maxNodes, p) && GoodPath(nodes, maxNodes, q)
    ensures p == q
  {
    forall t ensures multiset(p)[t] == multiset(q)[t] {
      AtMostOnce(p, t);
      AtMostOnce(q, t);
      if t in p { SameSelection(nodes, maxNodes, p, q, t); }
      if t in q { SameSelection(nodes, maxNodes, q, p, t); }
      assert t in p <==> t in multiset(p);
      assert t in q <==> t in multiset(q);
    }
    SortedUnique(p, q, Deep(nodes));
  }

  ghost predicate ParentOf(terms: Terms, nodes: Nodes, p: Id, t: Id) {
    p in nodes && t in nodes && nodes[p].depth == nodes[t].depth - 1 && Step(terms, p, t)
  }

  lemma DepthOrder(nodes: Nodes, t: Id, u: Id)
    ensures KeyLe(Shallow(nodes)(t), Shallow(nodes)(u)) ==> DepthOf(nodes, t) <= DepthOf(nodes, u)
    ensures KeyLe(Deep(nodes)(t), Deep(nodes)(u)) ==> DepthOf(nodes, u) <= DepthOf(nodes, t)
  {
    hide StrLe;
  }

  lemma ShallowerIsKept(nodes: Nodes, maxNodes: int, path: seq<Id>, t: Id, p: Id)
    requires GoodPath(nodes, maxNodes, path) && t in path && p in nodes && DepthOf(nodes, p) < DepthOf(nodes, t)
    ensures p in path
  {
    hide KeyLe, Sorted, Distinct;
    DepthOrder(nodes, t, p);
  }

  lemma ShallowerIsLater(nodes: Nodes, maxNodes: int, path: seq<Id>, i: nat, j: nat)
    requires GoodPath(nodes, maxNodes, path) && i < |path| && j < |path|
    requires DepthOf(nodes, path[j]) < DepthOf(nodes, path[i])
    ensures i < j
  {
    hide KeyLe, Distinct;
    DepthOrder(nodes, path[j], path[i]);
  }

  /** A truncated path stays connected: whatever is kept below a root keeps its parent, and the
      parent is studied later. */
  lemma TruncationKeepsParents(roots: seq<Root>, terms: Terms, nodes: Nodes, maxNodes: int, path: seq<Id>, t: Id)
    requires ReasonsHold(roots, terms, nodes) && GoodPath(nodes, maxNodes, path)
    requires t in path && nodes[t].depth > 0
    ensures exists i, j :: 0 <= i < j < |path| && path[i] == t && ParentOf(terms, nodes, path[j], t)
  {
    hide KeyLe, Sorted, Distinct, Step;
    assert ReasonHolds(roots, terms, nodes, t);
    var p := nodes[t].why.parent;
    ShallowerIsKept(nodes, maxNodes, path, t, p);
    var i :| 0 <= i < |path| && path[i] == t;
    var j :| 0 <= j < |path| && path[j] == p;
    ShallowerIsLater(nodes, maxNodes, path, i, j);
  }

  // ---- Roots ----

  /** The term that a concept is matched to. */
  ghost function MatchOf(terms: Terms, concept: string): Option<Id> {
    if t :| BestMatch(terms, Variants(concept), t) then Some(t) else None
  }

  lemma MatchOfMeans(terms: Terms, concept: string, t: Id)
    ensures MatchOf(terms, concept) == Some(t) <==> BestMatch(terms, Variants(concept), t)
  {
    hide BestMatch, Variants;
    var m := MatchOf(terms, concept);
    if m.Some? && BestMatch(terms, Variants(concept), t) { BestMatchIsUnique(terms, Variants(concept), m.value, t); }
  }

  /** The matched terms in order, each with the first concept that it was matched to. */
  ghost function RootsFrom(terms: Terms, weak: seq<string>): seq<Root> {
    if weak == [] then []
    else
      var front, concept := RootsFrom(terms, weak[..|weak| - 1]), weak[|weak| - 1];
      var m := MatchOf(terms, concept);
      if m.Some? && !IsRoot(front, m.value) then front + [Root(m.value, concept)] else front
  }

  /** The concepts without a match in order, each once. */
  ghost function UnmatchedFrom(terms: Terms, weak: seq<string>): (u: seq<string>)
    ensures Distinct(u) && forall c :: c in u <==> c in weak && MatchOf(terms, c).None?
  {
    if weak == [] then []
    else
      var front, concept := UnmatchedFrom(terms, weak[..|weak| - 1]), weak[|weak| - 1];
      if MatchOf(terms, concept).None? && concept !in front then front + [concept] else front
  }

  ghost function MatchesOf(terms: Terms, weak: seq<string>): (m: seq<Option<Id>>)
    ensures |m| == |weak|
  {
    seq(|weak|, i requires 0 <= i < |weak| => MatchOf(terms, weak[i]))
  }

  /** The position of the first weak concept matched to `t`, or past the end if there is none. */
  ghost function FirstMatch(terms: Terms, weak: seq<string>, t: Id): (i: nat)
    ensures i <= |weak|
  {
    FirstIndex(MatchesOf(terms, weak), Some(t))
  }

  /** The roots are exactly the matched terms, each once, under the first concept matched to it, and in
      the order of those concepts. */
  ghost predicate RootsOf(terms: Terms, weak: seq<string>, roots: seq<Root>) {
    && (forall r :: r in roots ==>
          var i := FirstMatch(terms, weak, r.term); i < |weak| && weak[i] == r.concept)
    && (forall a, b :: 0 <= a < b < |roots| ==>
          FirstMatch(terms, weak, roots[a].term) < FirstMatch(terms, weak, roots[b].term))
    && (forall t :: IsRoot(roots, t) <==> FirstMatch(terms, weak, t) < |weak|)
  }

  /** A further concept changes the first match of terms only that had none. */
  lemma FirstMatchLater(terms: Terms, weak: seq<string>, t: Id)
    requires weak != []
    ensures var n, f := |weak| - 1, FirstMatch(terms, weak[..|weak| - 1], t);
      FirstMatch(terms, weak, t) == if f < n then f else if MatchOf(terms, weak[n]) == Some(t) then n else n + 1
  {
    hide MatchOf, FirstIndex;
    var n := |weak| - 1;
    var before := MatchesOf(terms, weak[..n]);
    assert MatchesOf(terms, weak) == before + [MatchOf(terms, weak[n])];
    FirstIndexAppend(before, MatchOf(terms, weak[n]), Some(t));
  }

  lemma RootsStay(terms: Terms, weak: seq<string>, roots: seq<Root>)
    requires weak != [] && RootsOf(terms, weak[..|weak| - 1], roots)
    requires forall t :: MatchOf(terms, weak[|weak| - 1]) == Some(t) ==> IsRoot(roots, t)
    ensures RootsOf(terms, weak, roots)
  {
    hide MatchOf, FirstMatch, IsRoot;
    RootMembers(roots);
    var front := weak[..|weak| - 1];
    forall t ensures IsRoot(roots, t) ==> FirstMatch(terms, weak, t) == FirstMatch(terms, front, t) < |front|
      ensures !IsRoot(roots, t) ==> FirstMatch(terms, weak, t) == |weak|
    {
      FirstMatchLater(terms, weak, t);
    }
  }

  lemma RootJoins(terms: Terms, weak: seq<string>, roots: seq<Root>, r: Root)
    requires weak != [] && RootsOf(terms, weak[..|weak| - 1], roots)
    requires MatchOf(terms, weak[|weak| - 1]) == Some(r.term) && r.concept == weak[|weak| - 1] && !IsRoot(roots, r.term)
    ensures RootsOf(terms, weak, roots + [r])
  {
    hide MatchOf, FirstMatch, IsRoot;
    RootMembers(roots);
    RootAppend(roots, r);
    var n, front := |weak| - 1, weak[..|weak| - 1];
    forall t ensures IsRoot(roots, t) ==> FirstMatch(terms, weak, t) == FirstMatch(terms, front, t) < n
      ensures !IsRoot(roots, t) ==> FirstMatch(terms, weak, t) == if t == r.term then n else n + 1
    {
      FirstMatchLater(terms, weak, t);
    }
    forall a, b | 0 <= a < b < |roots + [r]|
      ensures FirstMatch(terms, weak, (roots + [r])[a].term) < FirstMatch(terms, weak, (roots + [r])[b].term)
    {
      assert (roots + [r])[a] == roots[a];
    }
  }

  lemma {:induction false} RootsAreFirstMatches(terms: Terms, weak: seq<string>)
    ensures RootsOf(terms, weak, RootsFrom(terms, weak))
  {
    hide MatchOf, RootsOf;
    if weak == [] {
      NoRoots(terms);
    } else {
      var c, front := weak[|weak| - 1], RootsFrom(terms, weak[..|weak| - 1]);
      RootsAreFirstMatches(terms, weak[..|weak| - 1]);
      var m := MatchOf(terms, c);
      if m.Some? && !IsRoot(front, m.value) {
        RootJoins(terms, weak, front, Root(m.value, c));
      } else {
        RootsStay(terms, weak, front);
      }
    }
  }

  lemma NoRoots(terms: Terms)
    ensures RootsOf(terms, [], [])
  {
  }

  lemma RootMembers(roots: seq<Root>)
    ensures forall r :: r in roots ==> IsRoot(roots, r.term)
    ensures forall a :: 0 <= a < |roots| ==> IsRoot(roots, roots[a].term)
  {
  }

  lemma BestMatchIsTerm(terms: Terms, variants: seq<string>, t: Id)
    requires BestMatch(terms, variants, t)
    ensures t in terms
  {
    var i, key :| DecidedBy(terms, variants, i, key) && key.id == t;
  }

  lemma RootsAreTerms(terms: Terms, weak: seq<string>)
    ensures forall r :: r in RootsFrom(terms, weak) ==> r.term in terms
  {
    hide MatchOf, BestMatch, Variants, RootsFrom;
    RootsAreFirstMatches(terms, weak);
    forall r | r in RootsFrom(terms, weak) ensures r.term in terms {
      var i := FirstMatch(terms, weak, r.term);
      MatchOfMeans(terms, weak[i], r.term);
      BestMatchIsTerm(terms, Variants(weak[i]), r.term);
    }
  }

  method MatchAll(terms: Terms, weak: seq<string>) returns (roots: seq<Root>, unmatched: seq<string>)
    ensures roots == RootsFrom(terms, weak) && RootsOf(terms, weak, roots)
    ensures unmatched == UnmatchedFrom(terms, weak)
  {
    hide BestMatch, Variants, RootsOf, MatchOf;
    roots, unmatched := [], [];
    var matched: set<Id> := {};
    for k := 0 to |weak|
      invariant roots == RootsFrom(terms, weak[..k])
      invariant forall t :: t in matched <==> IsRoot(roots, t)
      invariant unmatched == UnmatchedFrom(terms, weak[..k])
    {
      assert weak[..k + 1][..k] == weak[..k];
      var t := MatchConcept(terms, weak[k]);
      if t.Some? {
        MatchOfMeans(terms, weak[k], t.value);
      } else if MatchOf(terms, weak[k]).Some? {
        MatchOfMeans(terms, weak[k], MatchOf(terms, weak[k]).value);
      }
      if t.None? {
        if weak[k] !in unmatched { unmatched := unmatched + [weak[k]]; }
      } else {
        if t.value !in matched {
          matched := matched + {t.value};
          RootAppend(roots, Root(t.value, weak[k]));
          roots := roots + [Root(t.value, weak[k])];
        }
      }
    }
    assert weak[..|weak|] == weak;
    RootsAreFirstMatches(terms, weak);
  }

  lemma RootAppend(roots: seq<Root>, r: Root)
    ensures forall t :: IsRoot(roots + [r], t) <==> IsRoot(roots, t) || r.term == t
  {
    var s := roots + [r];
    assert s[|roots|] == r;
    forall t | IsRoot(roots, t) ensures IsRoot(s, t) {
      var i :| 0 <= i < |roots| && roots[i].term == t;
      assert s[i].term == t;
    }
  }

  lemma SameDepths(roots: seq<Root>, terms: Terms, limit: nat, m: Nodes, n: Nodes)
    requires ExactTrace(roots, terms, limit, m) && ExactTrace(roots, terms, limit, n)
    ensures m.Keys == n.Keys && |m| == |n| && forall t :: DepthOf(m, t) == DepthOf(n, t)
  {
    hide Within;
    assert forall t :: t in m <==> t in n;
    assert |m| == |m.Keys| && |n| == |n.Keys|;
    forall t | t in m ensures m[t].depth == n[t].depth {
      assert Within(roots, terms, m[t].depth, t) && Within(roots, terms, n[t].depth, t);
    }
  }

  /** The same weak concepts and terms always give the same path and the same list of unmatched concepts. */
  lemma PathIsDetermined(weak: seq<string>, terms: Terms, maxNodes: int, maxDepth: int, m: Nodes, n: Nodes, p: seq<Id>,
                         q: seq<Id>)
    requires ExactTrace(RootsFrom(terms, weak), terms, Limit(maxDepth), m) && GoodPath(m, maxNodes, p)
    requires ExactTrace(RootsFrom(terms, weak), terms, Limit(maxDepth), n) && GoodPath(n, maxNodes, q)
    ensures p == q
  {
    hide ExactTrace, Sorted, Distinct, KeyLe;
    SameDepths(RootsFrom(terms, weak), terms, Limit(maxDepth), m, n);
    assert forall t :: Shallow(m)(t) == Shallow(n)(t) && Deep(m)(t) == Deep(n)(t);
    SortedSameKeys(q, Deep(n), Deep(m));
    PathIsUnique(m, maxNodes, p, q);
  }

  lemma SortedSameKeys(s: seq<Id>, k: Id -> Key, l: Id -> Key)
    requires Sorted(s, k) && forall t :: k(t) == l(t)
    ensures Sorted(s, l)
  {
    hide KeyLe;
  }

  /** From weak concepts to a study order. */
  method BuildLearningPath(weak: seq<string>, terms: Terms, maxNodes: int, maxDepth: int)
    returns (path: seq<Id>, unmatched: seq<string>, ghost nodes: Nodes)
    ensures ExactTrace(RootsFrom(terms, weak), terms, Limit(maxDepth), nodes)
    ensures ReasonsHold(RootsFrom(terms, weak), terms, nodes)
    ensures var roots := RootsFrom(terms, weak);
      Seeded(roots).0.Keys <= terms.Keys && nodes == Trace(roots, terms, maxDepth)
    ensures GoodPath(nodes, maxNodes, path)
    ensures unmatched == UnmatchedFrom(terms, weak)
  {
    hide RootsOf, ExactTrace, ReasonsHold, RootsFrom, Trace, Seeded;
    var found, roots;
    roots, unmatched := MatchAll(terms, weak);
    RootsAreTerms(terms, weak);
    found := TracePrerequisites(roots, terms, maxDepth);
    path := OrderPath(found, maxNodes);
    nodes := found;
  }
}
