/** The order in which a trace visits terms, and the reason it records for each: breadth first, in the order
    of the roots and of the prerequisite lists. */
module TraceOrder {
  import opened Filters
  import opened LearningPath
  import opened Order

  function RootTerms(roots: seq<Root>): (r: seq<Id>)
    ensures |r| == |roots|
  {
    seq(|roots|, i requires 0 <= i < |roots| => roots[i].term)
  }

  /** Of all terms visited, `p` is the first one that lists `t`. */
  ghost predicate FirstToList(terms: Terms, order: seq<Id>, p: Id, t: Id) {
    && p in order && Step(terms, p, t)
    && forall i :: 0 <= i < FirstIndex(order, p) ==> !Step(terms, order[i], t)
  }

  /** Roots come first, in their order; then a term before those that were listed later: by another term
      visited later, or further down the same list. */
  ghost predicate Sooner(roots: seq<Root>, terms: Terms, nodes: Nodes, order: seq<Id>, t: Id, u: Id)
    requires t in nodes && u in nodes
  {
    match nodes[t].why
    case Matched(_) =>
      nodes[u].why.Matched? ==> FirstIndex(RootTerms(roots), t) < FirstIndex(RootTerms(roots), u)
    case Needed(p, _, _) =>
      && nodes[u].why.Needed?
      && var q := nodes[u].why.parent;
      || FirstIndex(order, p) < FirstIndex(order, q)
      || (p == q && p in terms && FirstIndex(terms[p].prerequisites, t) < FirstIndex(terms[p].prerequisites, u))
  }

  /** Why a term was visited: as a root, under the first concept given for it, or because the first visited
      term that lists it does. */
  ghost predicate Reason(roots: seq<Root>, terms: Terms, nodes: Nodes, order: seq<Id>, t: Id)
    requires t in nodes
  {
    match nodes[t].why
    case Matched(concept) =>
      var i := FirstIndex(RootTerms(roots), t); i < |roots| && roots[i].concept == concept
    case Needed(p, concept, steps) =>
      && FirstToList(terms, order, p, t) && p in nodes
      && nodes[t].depth == steps == nodes[p].depth + 1 && ConceptOf(nodes[p].why) == concept
  }

  /** `order` lists the terms as they are visited. */
  ghost predicate Visited(roots: seq<Root>, terms: Terms, nodes: Nodes, order: seq<Id>) {
    && Distinct(order) && (forall t :: t in order <==> t in nodes)
    && (forall a, b :: 0 <= a < b < |order| ==> Sooner(roots, terms, nodes, order, order[a], order[b]))
    && (forall t :: t in nodes ==> Reason(roots, terms, nodes, order, t))
  }

  // ---- Adding one term ----

  lemma StepsStay(order: seq<Id>, x: Id, p: Id)
    requires x !in order && p in order
    ensures FirstIndex(order + [x], p) == FirstIndex(order, p) < |order|
  {
    FirstIndexAppend(order, x, p);
  }

  lemma SoonerStays(roots: seq<Root>, terms: Terms, nodes: Nodes, order: seq<Id>, x: Id, n: Node, t: Id, u: Id)
    requires x !in nodes && t in nodes && u in nodes && Sooner(roots, terms, nodes, order, t, u)
    requires (forall s :: s in order <==> s in nodes) && Reason(roots, terms, nodes, order, t)
    requires Reason(roots, terms, nodes, order, u)
    ensures Sooner(roots, terms, nodes[x := n], order + [x], t, u)
  {
    hide FirstIndex, Step;
    if nodes[t].why.Needed? && nodes[u].why.Needed? {
      StepsStay(order, x, nodes[t].why.parent);
      StepsStay(order, x, nodes[u].why.parent);
    }
  }

  lemma ReasonStays(roots: seq<Root>, terms: Terms, nodes: Nodes, order: seq<Id>, x: Id, n: Node, t: Id)
    requires x !in nodes && t in nodes && Reason(roots, terms, nodes, order, t)
    requires forall s :: s in order <==> s in nodes
    ensures Reason(roots, terms, nodes[x := n], order + [x], t)
  {
    hide FirstIndex, Step;
    if nodes[t].why.Needed? { StepsStay(order, x, nodes[t].why.parent); }
  }

  /** A new term is visited last. */
  lemma OneMoreVisited(roots: seq<Root>, terms: Terms, nodes: Nodes, order: seq<Id>, x: Id, n: Node)
    requires Visited(roots, terms, nodes, order) && x !in nodes
    requires Reason(roots, terms, nodes[x := n], order + [x], x)
    requires forall t :: t in nodes ==> Sooner(roots, terms, nodes[x := n], order + [x], t, x)
    ensures Visited(roots, terms, nodes[x := n], order + [x])
  {
    hide Reason, Sooner;
    var nodes', order' := nodes[x := n], order + [x];
    forall t | t in nodes ensures Reason(roots, terms, nodes', order', t) {
      ReasonStays(roots, terms, nodes, order, x, n, t);
    }
    forall a, b | 0 <= a < b < |order'| ensures Sooner(roots, terms, nodes', order', order'[a], order'[b]) {
      assert order[a] in order;
      if b < |order| {
        assert order[b] in order;
        SoonerStays(roots, terms, nodes, order, x, n, order[a], order[b]);
      }
    }
  }

  // ---- The roots ----

  ghost predicate AllMatched(nodes: Nodes) {
    forall t :: t in nodes ==> nodes[t].why.Matched?
  }

  function Ids(queue: seq<Visit>): (s: seq<Id>)
    ensures |s| == |queue|
  {
    seq(|queue|, i requires 0 <= i < |queue| => queue[i].term)
  }

  lemma IdsAppend(queue: seq<Visit>, v: Visit)
    ensures Ids(queue + [v]) == Ids(queue) + [v.term]
  {
  }

  lemma {:induction false} RootsVisited(roots: seq<Root>, terms: Terms, k: nat)
    requires k <= |roots|
    ensures var (nodes, queue) := Seeded(roots[..k]);
      && Visited(roots, terms, nodes, Ids(queue)) && AllMatched(nodes)
      && (forall t :: t in nodes <==> FirstIndex(RootTerms(roots), t) < k)
      && (forall v :: v in queue ==> Recorded(nodes, v) && v.depth == 0)
  {
    hide FirstIndex, Step, Reason, Sooner, Visited;
    if k == 0 {
      NothingVisited(roots, terms);
      assert roots[..0] == [];
    } else {
      RootsVisited(roots, terms, k - 1);
      assert roots[..k][..k - 1] == roots[..k - 1];
      var (nodes, queue) := Seeded(roots[..k - 1]);
      NextRoot(roots, terms, k - 1, nodes, queue);
    }
  }

  lemma NothingVisited(roots: seq<Root>, terms: Terms)
    ensures Visited(roots, terms, map[], Ids([]))
  {
  }

  /** A root that comes up again is found at its first place. */
  lemma NextRoot(roots: seq<Root>, terms: Terms, k: nat, nodes: Nodes, queue: seq<Visit>)
    requires k < |roots| && Visited(roots, terms, nodes, Ids(queue)) && AllMatched(nodes)
    requires forall t :: t in nodes <==> FirstIndex(RootTerms(roots), t) < k
    ensures var x := roots[k].term;
      if x in nodes then forall t :: t in nodes <==> FirstIndex(RootTerms(roots), t) < k + 1
      else
        var nodes' := nodes[x := Node(0, Matched(roots[k].concept))];
        && Visited(roots, terms, nodes', Ids(queue + [Visit(x, roots[k].concept, 0)]))
        && forall t :: t in nodes' <==> FirstIndex(RootTerms(roots), t) < k + 1
  {
    hide FirstIndex, Visited;
    var x, names := roots[k].term, RootTerms(roots);
    assert names[k] == x;
    assert FirstIndex(names, x) <= k;
    forall t | FirstIndex(names, t) == k ensures t == x {}
    if x !in nodes {
      IdsAppend(queue, Visit(x, roots[k].concept, 0));
      OneMoreVisited(roots, terms, nodes, Ids(queue), x, Node(0, Matched(roots[k].concept)));
    }
  }

  // ---- The search ----

  /** All that the first `d` visited terms list has been visited. */
  ghost predicate Closed(terms: Terms, nodes: Nodes, done: seq<Id>) {
    forall t, p :: t in done && Step(terms, t, p) ==> p in nodes
  }

  /** Whatever was needed was listed by a term that is done with. */
  ghost predicate NeededBy(nodes: Nodes, done: seq<Id>) {
    forall t :: t in nodes && nodes[t].why.Needed? ==> nodes[t].why.parent in done
  }

  /** The terms done with, and those still queued. */
  ghost predicate UnderWay(roots: seq<Root>, terms: Terms, maxDepth: int, nodes: Nodes, done: seq<Id>,
                           queue: seq<Visit>) {
    && Visited(roots, terms, nodes, done + Ids(queue)) && QueueValid(nodes, queue) && NeededBy(nodes, done)
    && (Closed(terms, nodes, done) || (queue != [] ==> queue[0].depth >= maxDepth))
  }

  /** While `v` is expanded: the first `k` of its list have been looked at. */
  ghost predicate Expanding(roots: seq<Root>, terms: Terms, v: Visit, k: nat, nodes: Nodes, done: seq<Id>,
                            queue: seq<Visit>)
    requires v.term in terms && k <= |terms[v.term].prerequisites|
  {
    && Visited(roots, terms, nodes, done + [v.term] + Ids(queue)) && QueueValid(nodes, [v] + queue)
    && Closed(terms, nodes, done)
    && (forall t :: t in nodes && nodes[t].why.Needed? ==>
          || nodes[t].why.parent in done
          || (nodes[t].why.parent == v.term && FirstIndex(terms[v.term].prerequisites, t) < k))
    && (forall i :: 0 <= i < k && terms[v.term].prerequisites[i] in terms ==> terms[v.term].prerequisites[i] in nodes)
  }

  lemma PositionOf(done: seq<Id>, x: Id, rest: seq<Id>, p: Id)
    requires Distinct(done + [x] + rest) && (p in done || p == x)
    ensures var i := FirstIndex(done + [x] + rest, p); if p in done then i < |done| else i == |done|
  {
    hide FirstIndex;
    var o := done + [x] + rest;
    if p in done {
      var j :| 0 <= j < |done| && done[j] == p;
      assert o[j] == p;
    } else {
      assert o[|done|] == x;
    }
  }

  /** Where the term under expansion stands among those visited, with one more behind them. */
  lemma ExpandedStands(done: seq<Id>, x: Id, rest: seq<Id>, p: Id)
    requires Distinct(done + [x] + rest) && p !in done + [x] + rest
    ensures var order := done + [x] + rest + [p];
      && x in order && FirstIndex(order, x) == |done|
      && (forall i :: 0 <= i < |done| ==> order[i] in done)
      && (forall u :: u in done ==> u in order && FirstIndex(order, u) < |done|)
  {
    hide FirstIndex, Distinct;
    var visited := done + [x] + rest;
    assert x in visited;
    StepsStay(visited, p, x);
    PositionOf(done, x, rest, x);
    NotDone(done, x, rest);
    forall u | u in done ensures u in visited + [p] && FirstIndex(visited + [p], u) < |done| {
      StepsStay(visited, p, u);
      PositionOf(done, x, rest, u);
    }
  }

  lemma NewcomersReason(roots: seq<Root>, terms: Terms, v: Visit, k: nat, nodes: Nodes, done: seq<Id>,
                        queue: seq<Visit>)
    requires v.term in terms && k < |terms[v.term].prerequisites| && Expanding(roots, terms, v, k, nodes, done, queue)
    requires terms[v.term].prerequisites[k] in terms && terms[v.term].prerequisites[k] !in nodes
    ensures var p := terms[v.term].prerequisites[k];
      && FirstIndex(terms[v.term].prerequisites, p) == k
      && Reason(roots, terms, Record(v, nodes, p), done + [v.term] + Ids(queue) + [p], p)
  {
    hide FirstIndex, Distinct, Sooner;
    var p, order := terms[v.term].prerequisites[k], done + [v.term] + Ids(queue);
    FrontRecorded(nodes, v, queue);
    assert p !in order;
    ExpandedStands(done, v.term, Ids(queue), p);
    assert FirstToList(terms, order + [p], v.term, p);
  }

  lemma SoonerThanNewcomer(roots: seq<Root>, terms: Terms, v: Visit, k: nat, nodes: Nodes, done: seq<Id>,
                           queue: seq<Visit>, p: Id, t: Id)
    requires v.term in terms && k < |terms[v.term].prerequisites| && Expanding(roots, terms, v, k, nodes, done, queue)
    requires p !in nodes && FirstIndex(terms[v.term].prerequisites, p) == k && t in nodes
    ensures Sooner(roots, terms, Record(v, nodes, p), done + [v.term] + Ids(queue) + [p], t, p)
  {
    hide FirstIndex, Distinct, Reason, QueueValid, Closed;
    assert p !in done + [v.term] + Ids(queue);
    ExpandedStands(done, v.term, Ids(queue), p);
  }

  /** Why the next unseen term of the list is visited, and that it is visited last. */
  lemma NewcomerIsLast(roots: seq<Root>, terms: Terms, v: Visit, k: nat, nodes: Nodes, done: seq<Id>,
                       queue: seq<Visit>)
    requires v.term in terms && k < |terms[v.term].prerequisites| && Expanding(roots, terms, v, k, nodes, done, queue)
    requires terms[v.term].prerequisites[k] in terms && terms[v.term].prerequisites[k] !in nodes
    ensures var p := terms[v.term].prerequisites[k];
      var nodes', order' := Record(v, nodes, p), done + [v.term] + Ids(queue) + [p];
      && FirstIndex(terms[v.term].prerequisites, p) == k
      && Reason(roots, terms, nodes', order', p)
      && forall t :: t in nodes ==> Sooner(roots, terms, nodes', order', t, p)
  {
    hide FirstIndex, Expanding, Sooner, Reason;
    var p := terms[v.term].prerequisites[k];
    NewcomersReason(roots, terms, v, k, nodes, done, queue);
    forall t | t in nodes
      ensures Sooner(roots, terms, Record(v, nodes, p), done + [v.term] + Ids(queue) + [p], t, p)
    {
      SoonerThanNewcomer(roots, terms, v, k, nodes, done, queue, p, t);
    }
  }

  lemma NotDone(done: seq<Id>, x: Id, rest: seq<Id>)
    requires Distinct(done + [x] + rest)
    ensures x !in done
  {
    var o := done + [x] + rest;
    assert o[|done|] == x && forall i :: 0 <= i < |done| ==> o[i] == done[i];
  }

  lemma FrontRecorded(nodes: Nodes, v: Visit, queue: seq<Visit>)
    requires QueueValid(nodes, [v] + queue)
    ensures Recorded(nodes, v)
  {
    assert ([v] + queue)[0] == v;
  }

  lemma ExpandOne(roots: seq<Root>, terms: Terms, v: Visit, k: nat, nodes: Nodes, done: seq<Id>, queue: seq<Visit>)
    requires v.term in terms && k < |terms[v.term].prerequisites| && Expanding(roots, terms, v, k, nodes, done, queue)
    ensures var p := terms[v.term].prerequisites[k];
      if p in nodes || p !in terms then Expanding(roots, terms, v, k + 1, nodes, done, queue)
      else Expanding(roots, terms, v, k + 1, Record(v, nodes, p), done, queue + [Visit(p, v.concept, v.depth + 1)])
  {
    hide FirstIndex, Distinct, Sooner, Reason, Visited, QueueValid;
    var p := terms[v.term].prerequisites[k];
    if p !in nodes && p in terms {
      var visit := Visit(p, v.concept, v.depth + 1);
      NewcomerIsLast(roots, terms, v, k, nodes, done, queue);
      OneMoreVisited(roots, terms, nodes, done + [v.term] + Ids(queue), p,
                     Node(v.depth + 1, Needed(v.term, v.concept, v.depth + 1)));
      RecordKeepsQueue(v, nodes, queue, p);
      IdsAppend(queue, visit);
      assert done + [v.term] + Ids(queue + [visit]) == done + [v.term] + Ids(queue) + [p];
    }
  }

  lemma {:induction false} ExpandAll(roots: seq<Root>, terms: Terms, v: Visit, k: nat, nodes: Nodes, done: seq<Id>,
                                     queue: seq<Visit>)
    requires v.term in terms && k <= |terms[v.term].prerequisites| && Expanding(roots, terms, v, 0, nodes, done, queue)
    ensures var (m, q) := Discover(terms, v, terms[v.term].prerequisites[..k], nodes, queue);
      Expanding(roots, terms, v, k, m, done, q)
  {
    hide Expanding, Discover;
    var ps := terms[v.term].prerequisites;
    if k == 0 {
      NothingDiscovered(terms, v, nodes, queue);
      assert ps[..0] == [];
    } else {
      ExpandAll(roots, terms, v, k - 1, nodes, done, queue);
      DiscoverNext(terms, v, ps, k - 1, nodes, queue);
      var (m, q) := Discover(terms, v, ps[..k - 1], nodes, queue);
      ExpandOne(roots, terms, v, k - 1, m, done, q);
    }
  }

  lemma BeginExpanding(roots: seq<Root>, terms: Terms, maxDepth: int, nodes: Nodes, done: seq<Id>, v: Visit,
                       queue: seq<Visit>)
    requires UnderWay(roots, terms, maxDepth, nodes, done, [v] + queue) && v.depth < maxDepth && v.term in terms
    ensures Expanding(roots, terms, v, 0, nodes, done, queue)
  {
    hide Visited, QueueValid;
    assert done + Ids([v] + queue) == done + [v.term] + Ids(queue);
  }

  lemma EndExpanding(roots: seq<Root>, terms: Terms, maxDepth: int, nodes: Nodes, done: seq<Id>, v: Visit,
                     queue: seq<Visit>)
    requires v.term in terms
    requires Expanding(roots, terms, v, |terms[v.term].prerequisites|, nodes, done, queue)
    ensures UnderWay(roots, terms, maxDepth, nodes, done + [v.term], queue)
  {
    hide Visited, QueueValid;
    QueueTail(nodes, v, queue);
    var ps := terms[v.term].prerequisites;
    forall p | Step(terms, v.term, p) ensures p in nodes { var i :| 0 <= i < |ps| && ps[i] == p; }
  }

  lemma QueueTail(nodes: Nodes, v: Visit, queue: seq<Visit>)
    requires QueueValid(nodes, [v] + queue)
    ensures QueueValid(nodes, queue) && (queue != [] ==> v.depth <= queue[0].depth)
  {
    var q := [v] + queue;
    assert q[0] == v && forall i :: 0 <= i < |queue| ==> queue[i] == q[i + 1];
  }

  lemma SkipAtLimit(roots: seq<Root>, terms: Terms, maxDepth: int, nodes: Nodes, done: seq<Id>, v: Visit,
                    queue: seq<Visit>)
    requires UnderWay(roots, terms, maxDepth, nodes, done, [v] + queue) && v.depth >= maxDepth
    ensures UnderWay(roots, terms, maxDepth, nodes, done + [v.term], queue)
  {
    hide Visited, QueueValid;
    QueueTail(nodes, v, queue);
    assert done + Ids([v] + queue) == done + [v.term] + Ids(queue);
  }

  lemma {:induction false} SearchVisits(roots: seq<Root>, terms: Terms, maxDepth: int, nodes: Nodes, done: seq<Id>,
                                        queue: seq<Visit>) returns (order: seq<Id>)
    requires nodes.Keys <= terms.Keys && UnderWay(roots, terms, maxDepth, nodes, done, queue)
    ensures Visited(roots, terms, Search(terms, maxDepth, nodes, queue), order)
    decreases terms.Keys - nodes.Keys, |queue|
  {
    hide Visited, UnderWay, Expanding, Discover;
    if queue == [] {
      order := done;
      NothingQueued(roots, terms, maxDepth, nodes, done);
    } else {
      var v, rest := queue[0], queue[1..];
      assert queue == [v] + rest;
      QueuedIsKnown(roots, terms, maxDepth, nodes, done, v, rest);
      if v.depth >= maxDepth {
        SkipAtLimit(roots, terms, maxDepth, nodes, done, v, rest);
        order := SearchVisits(roots, terms, maxDepth, nodes, done + [v.term], rest);
      } else {
        var ps := terms[v.term].prerequisites;
        BeginExpanding(roots, terms, maxDepth, nodes, done, v, rest);
        ExpandAll(roots, terms, v, |ps|, nodes, done, rest);
        assert ps[..|ps|] == ps;
        var (m, q) := Discover(terms, v, ps, nodes, rest);
        EndExpanding(roots, terms, maxDepth, m, done, v, q);
        order := SearchVisits(roots, terms, maxDepth, m, done + [v.term], q);
      }
    }
  }

  lemma NothingQueued(roots: seq<Root>, terms: Terms, maxDepth: int, nodes: Nodes, done: seq<Id>)
    requires UnderWay(roots, terms, maxDepth, nodes, done, [])
    ensures Visited(roots, terms, nodes, done)
  {
    hide Visited;
    assert done + Ids([]) == done;
  }

  lemma QueuedIsKnown(roots: seq<Root>, terms: Terms, maxDepth: int, nodes: Nodes, done: seq<Id>, v: Visit,
                      queue: seq<Visit>)
    requires UnderWay(roots, terms, maxDepth, nodes, done, [v] + queue) && nodes.Keys <= terms.Keys
    ensures v.term in terms
  {
    hide Visited;
    FrontRecorded(nodes, v, queue);
  }

  /** A trace goes breadth first: roots in their order, then what they list, in the order of the lists, and so
      on; and every term that is no root is there because of the first visited term that lists it. */
  lemma TraceIsBreadthFirst(roots: seq<Root>, terms: Terms, maxDepth: int) returns (order: seq<Id>)
    requires forall r :: r in roots ==> r.term in terms
    ensures Seeded(roots).0.Keys <= terms.Keys && Visited(roots, terms, Trace(roots, terms, maxDepth), order)
  {
    hide Visited, Search;
    assert roots[..|roots|] == roots;
    RootsVisited(roots, terms, |roots|);
    SeededIsPlanted(roots, terms, |roots|);
    var (nodes, queue) := Seeded(roots);
    RootsUnderWay(roots, terms, maxDepth, nodes, queue);
    order := SearchVisits(roots, terms, maxDepth, nodes, [], queue);
  }

  lemma RootsUnderWay(roots: seq<Root>, terms: Terms, maxDepth: int, nodes: Nodes, queue: seq<Visit>)
    requires Visited(roots, terms, nodes, Ids(queue)) && AllMatched(nodes)
    requires forall v :: v in queue ==> Recorded(nodes, v) && v.depth == 0
    ensures UnderWay(roots, terms, maxDepth, nodes, [], queue)
  {
    hide Visited;
    assert [] + Ids(queue) == Ids(queue);
    forall i | 0 <= i < |queue| ensures Recorded(nodes, queue[i]) && queue[i].depth == 0 { assert queue[i] in queue; }
  }
}
