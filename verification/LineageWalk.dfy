/** The walk behind a lineage answer (src/domain/artifact.rs 373-448), over any finite graph, cycles
    included: nodes waiting at the length of the path they were met on, nodes met, and what a step keeps. */
module LineageWalk {
  import opened Reach

  type Iri = string

  datatype Relation = DerivedFrom | RevisionOf | GeneratedBy | Used

  datatype Edge = Edge(source: Iri, target: Iri, rel: Relation)

  /** What a node leads to, and the edge listed for it. */
  datatype Link = Link(edge: Edge, next: Iri)

  /** What each node leads to, in the order it is followed. */
  type Graph = map<Iri, seq<Link>>

  datatype Node = Node(iri: Iri, depth: int, unresolved: bool)

  function At(g: Graph, x: Iri): seq<Link> {
    if x in g then g[x] else []
  }

  /** Every node that is led to is a node of the graph. */
  ghost predicate Closed(g: Graph) {
    forall x, l | x in g && l in g[x] :: l.next in g
  }

  ghost function Follows(g: Graph): set<(Iri, Iri)> {
    set x, l | x in g && l in g[x] :: (x, l.next)
  }

  lemma AtFollows(g: Graph, x: Iri, l: Link)
    requires Closed(g) && l in At(g, x)
    ensures (x, l.next) in Follows(g) && l.next in g
  {
  }

  type Waiting = seq<(Iri, int)>

  predicate Waits(frontier: Waiting, x: Iri) {
    exists i :: 0 <= i < |frontier| && frontier[i].0 == x
  }

  ghost predicate Lists(nodes: seq<Node>, x: Iri) {
    exists i :: 0 <= i < |nodes| && nodes[i].iri == x
  }

  ghost predicate AtPath(g: Graph, root: Iri, limit: int, x: Iri, d: int) {
    && 0 <= d <= (if limit < 0 then 0 else limit)
    && ReachesIn(Follows(g), root, x, d)
    && x in g.Keys + {root}
  }

  ghost predicate NodesSound(g: Graph, root: Iri, limit: int, nodes: seq<Node>) {
    && (forall i | 0 <= i < |nodes| :: AtPath(g, root, limit, nodes[i].iri, nodes[i].depth))
    && (forall i, j | 0 <= i < j < |nodes| :: nodes[i].iri != nodes[j].iri)
  }

  ghost predicate WaitingSound(g: Graph, root: Iri, limit: int, frontier: Waiting) {
    forall i | 0 <= i < |frontier| :: AtPath(g, root, limit, frontier[i].0, frontier[i].1)
  }

  /** `e` is listed for a link of a listed node whose other end is listed or waits. */
  ghost predicate Justified(g: Graph, seen: set<Iri>, frontier: Waiting, e: Edge) {
    exists x, l :: JustifiedBy(g, seen, frontier, e, x, l)
  }

  ghost predicate JustifiedBy(g: Graph, seen: set<Iri>, frontier: Waiting, e: Edge, x: Iri, l: Link) {
    x in seen && l in At(g, x) && l.edge == e && (l.next in seen || Waits(frontier, l.next))
  }

  ghost predicate EdgesSound(g: Graph, seen: set<Iri>, frontier: Waiting, edges: seq<Edge>) {
    forall i | 0 <= i < |edges| :: Justified(g, seen, frontier, edges[i])
  }

  /** Everything this node leads to is listed or waits, and so is the edge. */
  ghost predicate Expanded(g: Graph, seen: set<Iri>, frontier: Waiting, edges: seq<Edge>, x: Iri) {
    forall l | l in At(g, x) :: (l.next in seen || Waits(frontier, l.next)) && l.edge in edges
  }

  ghost predicate AllExpanded(g: Graph, limit: int, seen: set<Iri>, frontier: Waiting, edges: seq<Edge>, nodes: seq<Node>) {
    forall i | 0 <= i < |nodes| && nodes[i].depth < limit :: Expanded(g, seen, frontier, edges, nodes[i].iri)
  }

  ghost predicate Seen(nodes: seq<Node>, seen: set<Iri>) {
    forall x :: x in seen <==> Lists(nodes, x)
  }

  /** The root is taken first, at depth 0. */
  predicate RootFirst(root: Iri, frontier: Waiting, nodes: seq<Node>) {
    if nodes == [] then frontier == [(root, 0)] else nodes[0].iri == root && nodes[0].depth == 0
  }

  ghost predicate Walking(g: Graph, root: Iri, limit: int, seen: set<Iri>, frontier: Waiting, nodes: seq<Node>, edges: seq<Edge>) {
    && Seen(nodes, seen)
    && RootFirst(root, frontier, nodes)
    && NodesSound(g, root, limit, nodes)
    && WaitingSound(g, root, limit, frontier)
    && EdgesSound(g, seen, frontier, edges)
    && AllExpanded(g, limit, seen, frontier, edges, nodes)
  }

  function Pushed(links: seq<Link>, d: int): Waiting {
    seq(|links|, i requires 0 <= i < |links| => (links[i].next, d))
  }

  function EdgesOf(links: seq<Link>): seq<Edge> {
    seq(|links|, i requires 0 <= i < |links| => links[i].edge)
  }

  /** What stands for the frontier: everything waiting waits still, or is seen now. */
  ghost predicate Carried(before: Waiting, seen: set<Iri>, frontier: Waiting) {
    forall x | Waits(before, x) :: x in seen || Waits(frontier, x)
  }

  lemma PopCarries(frontier: Waiting, seen: set<Iri>, more: Waiting)
    requires frontier != [] && frontier[|frontier| - 1].0 in seen
    ensures Carried(frontier, seen, frontier[..|frontier| - 1] + more)
  {
    var rest := frontier[..|frontier| - 1];
    forall x | Waits(frontier, x) ensures x in seen || Waits(rest + more, x) {
      var i :| 0 <= i < |frontier| && frontier[i].0 == x;
      assert i < |rest| ==> (rest + more)[i].0 == x;
    }
  }

  lemma CarryEdges(g: Graph, seen: set<Iri>, before: Waiting, now: set<Iri>, after: Waiting, edges: seq<Edge>)
    requires EdgesSound(g, seen, before, edges) && seen <= now && Carried(before, now, after)
    ensures EdgesSound(g, now, after, edges)
  {
    forall i | 0 <= i < |edges| ensures Justified(g, now, after, edges[i]) {
      assert Justified(g, seen, before, edges[i]);
      var x, l :| JustifiedBy(g, seen, before, edges[i], x, l);
      assert JustifiedBy(g, now, after, edges[i], x, l);
    }
  }

  lemma CarryExpanded(g: Graph, limit: int, seen: set<Iri>, before: Waiting, now: set<Iri>, after: Waiting,
                      edges: seq<Edge>, more: seq<Edge>, nodes: seq<Node>)
    requires AllExpanded(g, limit, seen, before, edges, nodes) && seen <= now && Carried(before, now, after)
    ensures AllExpanded(g, limit, now, after, edges + more, nodes)
  {
    forall i | 0 <= i < |nodes| && nodes[i].depth < limit
      ensures Expanded(g, now, after, edges + more, nodes[i].iri)
    {
      assert Expanded(g, seen, before, edges, nodes[i].iri);
    }
  }

  lemma PushWaits(rest: Waiting, links: seq<Link>, d: int, l: Link)
    requires l in links
    ensures Waits(rest + Pushed(links, d), l.next) && l.edge in EdgesOf(links)
  {
    var i :| 0 <= i < |links| && links[i] == l;
    assert (rest + Pushed(links, d))[|rest| + i].0 == l.next;
    assert EdgesOf(links)[i] == l.edge;
  }

  /** A node that was seen already is dropped from the frontier. */
  lemma SkipKeeps(g: Graph, root: Iri, limit: int, seen: set<Iri>, frontier: Waiting, nodes: seq<Node>, edges: seq<Edge>)
    requires Walking(g, root, limit, seen, frontier, nodes, edges)
    requires frontier != [] && frontier[|frontier| - 1].0 in seen
    ensures Walking(g, root, limit, seen, frontier[..|frontier| - 1], nodes, edges)
  {
    var rest := frontier[..|frontier| - 1];
    PopCarries(frontier, seen, []);
    assert rest + [] == rest;
    CarryEdges(g, seen, frontier, seen, rest, edges);
    CarryExpanded(g, limit, seen, frontier, seen, rest, edges, [], nodes);
    assert edges + [] == edges;
  }

  lemma NodeAdded(g: Graph, root: Iri, limit: int, seen: set<Iri>, frontier: Waiting, nodes: seq<Node>, n: Node)
    requires Seen(nodes, seen) && NodesSound(g, root, limit, nodes)
    requires n.iri !in seen && AtPath(g, root, limit, n.iri, n.depth)
    ensures Seen(nodes + [n], seen + {n.iri}) && NodesSound(g, root, limit, nodes + [n])
  {
    var more := nodes + [n];
    forall x ensures x in seen + {n.iri} <==> Lists(more, x) {
      if Lists(nodes, x) {
        var i :| 0 <= i < |nodes| && nodes[i].iri == x;
        assert more[i].iri == x;
      }
      assert more[|nodes|].iri == n.iri;
      if Lists(more, x) && x != n.iri {
        var i :| 0 <= i < |more| && more[i].iri == x;
        assert nodes[i].iri == x;
      }
    }
    forall i | 0 <= i < |nodes| ensures nodes[i].iri != n.iri {
      assert Lists(nodes, nodes[i].iri);
    }
  }

  /** A node at the limit is listed and not followed. */
  lemma LimitKeeps(g: Graph, root: Iri, limit: int, seen: set<Iri>, frontier: Waiting, nodes: seq<Node>, edges: seq<Edge>, n: Node)
    requires Walking(g, root, limit, seen, frontier, nodes, edges)
    requires frontier != [] && frontier[|frontier| - 1] == (n.iri, n.depth) && n.iri !in seen
    requires n.depth >= limit
    ensures Walking(g, root, limit, seen + {n.iri}, frontier[..|frontier| - 1], nodes + [n], edges)
  {
    var rest := frontier[..|frontier| - 1];
    assert rest + [] == rest && edges + [] == edges;
    NodeTaken(g, root, limit, seen, frontier, nodes, n, []);
    EdgesTaken(g, seen, frontier, edges, n.iri, []);
    ExpandedTaken(g, limit, seen, frontier, edges, nodes, n, [], []);
  }

  /** The frontier once its last entry has been taken and `more` pushed. */
  function Taken(frontier: Waiting, more: Waiting): Waiting
    requires frontier != []
  {
    frontier[..|frontier| - 1] + more
  }

  lemma NodeTaken(g: Graph, root: Iri, limit: int, seen: set<Iri>, frontier: Waiting, nodes: seq<Node>, n: Node, more: Waiting)
    requires Seen(nodes, seen) && NodesSound(g, root, limit, nodes) && WaitingSound(g, root, limit, frontier)
    requires RootFirst(root, frontier, nodes)
    requires frontier != [] && frontier[|frontier| - 1] == (n.iri, n.depth) && n.iri !in seen
    requires WaitingSound(g, root, limit, more)
    ensures Seen(nodes + [n], seen + {n.iri}) && NodesSound(g, root, limit, nodes + [n])
    ensures WaitingSound(g, root, limit, Taken(frontier, more))
    ensures RootFirst(root, Taken(frontier, more), nodes + [n])
  {
    assert AtPath(g, root, limit, frontier[|frontier| - 1].0, frontier[|frontier| - 1].1);
    NodeAdded(g, root, limit, seen, frontier, nodes, n);
    PopCarries(frontier, seen + {n.iri}, more);
    WaitingAppended(g, root, limit, frontier[..|frontier| - 1], more);
  }

  lemma EdgesTaken(g: Graph, seen: set<Iri>, frontier: Waiting, edges: seq<Edge>, x: Iri, more: Waiting)
    requires EdgesSound(g, seen, frontier, edges) && frontier != [] && frontier[|frontier| - 1].0 == x
    ensures EdgesSound(g, seen + {x}, Taken(frontier, more), edges)
  {
    PopCarries(frontier, seen + {x}, more);
    CarryEdges(g, seen, frontier, seen + {x}, Taken(frontier, more), edges);
  }

  lemma ExpandedTaken(g: Graph, limit: int, seen: set<Iri>, frontier: Waiting, edges: seq<Edge>, nodes: seq<Node>, n: Node,
                      more: Waiting, added: seq<Edge>)
    requires AllExpanded(g, limit, seen, frontier, edges, nodes)
    requires frontier != [] && frontier[|frontier| - 1].0 == n.iri
    requires n.depth < limit ==> Expanded(g, seen + {n.iri}, Taken(frontier, more), edges + added, n.iri)
    ensures AllExpanded(g, limit, seen + {n.iri}, Taken(frontier, more), edges + added, nodes + [n])
  {
    var now, after := seen + {n.iri}, Taken(frontier, more);
    PopCarries(frontier, now, more);
    CarryExpanded(g, limit, seen, frontier, now, after, edges, added, nodes);
  }

  /** A node below the limit is listed, and everything it leads to waits one step deeper. */
  lemma FollowKeeps(g: Graph, root: Iri, limit: int, seen: set<Iri>, frontier: Waiting, nodes: seq<Node>, edges: seq<Edge>, n: Node)
    requires Closed(g) && Walking(g, root, limit, seen, frontier, nodes, edges)
    requires frontier != [] && frontier[|frontier| - 1] == (n.iri, n.depth) && n.iri !in seen
    requires n.depth < limit
    ensures var links := At(g, n.iri);
            Walking(g, root, limit, seen + {n.iri}, Taken(frontier, Pushed(links, n.depth + 1)), nodes + [n], edges + EdgesOf(links))
  {
    assert AtPath(g, root, limit, frontier[|frontier| - 1].0, frontier[|frontier| - 1].1);
    var links := At(g, n.iri);
    NewLinks(g, root, limit, seen + {n.iri}, frontier, edges, n);
    FollowedKeeps(g, root, limit, seen, frontier, nodes, edges, n, Pushed(links, n.depth + 1), EdgesOf(links));
  }

  lemma NewLinks(g: Graph, root: Iri, limit: int, now: set<Iri>, frontier: Waiting, edges: seq<Edge>, n: Node)
    requires Closed(g) && frontier != [] && n.iri in now && n.depth < limit && AtPath(g, root, limit, n.iri, n.depth)
    ensures var links := At(g, n.iri);
            var more := Pushed(links, n.depth + 1);
            && WaitingSound(g, root, limit, more)
            && EdgesSound(g, now, Taken(frontier, more), EdgesOf(links))
            && Expanded(g, now, Taken(frontier, more), edges + EdgesOf(links), n.iri)
  {
    var links, rest := At(g, n.iri), frontier[..|frontier| - 1];
    NewLinksSound(g, root, limit, now, rest, n.iri, n.depth, links);
    NewLinksExpanded(g, now, rest, n.iri, n.depth + 1, edges, links);
  }

  lemma FollowedKeeps(g: Graph, root: Iri, limit: int, seen: set<Iri>, frontier: Waiting, nodes: seq<Node>, edges: seq<Edge>,
                      n: Node, more: Waiting, added: seq<Edge>)
    requires Walking(g, root, limit, seen, frontier, nodes, edges)
    requires frontier != [] && frontier[|frontier| - 1] == (n.iri, n.depth) && n.iri !in seen
    requires WaitingSound(g, root, limit, more)
    requires EdgesSound(g, seen + {n.iri}, Taken(frontier, more), added)
    requires Expanded(g, seen + {n.iri}, Taken(frontier, more), edges + added, n.iri)
    ensures Walking(g, root, limit, seen + {n.iri}, Taken(frontier, more), nodes + [n], edges + added)
  {
    NodeTaken(g, root, limit, seen, frontier, nodes, n, more);
    EdgesTaken(g, seen, frontier, edges, n.iri, more);
    EdgesAppended(g, seen + {n.iri}, Taken(frontier, more), edges, added);
    ExpandedTaken(g, limit, seen, frontier, edges, nodes, n, more, added);
  }

  lemma WaitingAppended(g: Graph, root: Iri, limit: int, rest: Waiting, more: Waiting)
    requires WaitingSound(g, root, limit, rest) && WaitingSound(g, root, limit, more)
    ensures WaitingSound(g, root, limit, rest + more)
  {
  }

  lemma EdgesAppended(g: Graph, seen: set<Iri>, frontier: Waiting, edges: seq<Edge>, more: seq<Edge>)
    requires EdgesSound(g, seen, frontier, edges) && EdgesSound(g, seen, frontier, more)
    ensures EdgesSound(g, seen, frontier, edges + more)
  {
    var all := edges + more;
    forall i | 0 <= i < |all| ensures Justified(g, seen, frontier, all[i]) {
      assert all[i] == if i < |edges| then edges[i] else more[i - |edges|];
    }
  }

  lemma NewLinksExpanded(g: Graph, now: set<Iri>, rest: Waiting, x: Iri, d: int, edges: seq<Edge>, links: seq<Link>)
    requires links == At(g, x)
    ensures Expanded(g, now, rest + Pushed(links, d), edges + EdgesOf(links), x)
  {
    forall l | l in links ensures Waits(rest + Pushed(links, d), l.next) && l.edge in edges + EdgesOf(links) {
      PushWaits(rest, links, d, l);
    }
  }

  lemma NewLinksSound(g: Graph, root: Iri, limit: int, now: set<Iri>, rest: Waiting, x: Iri, d: int, links: seq<Link>)
    requires Closed(g) && links == At(g, x) && x in now && d < limit && AtPath(g, root, limit, x, d)
    ensures WaitingSound(g, root, limit, Pushed(links, d + 1))
    ensures EdgesSound(g, now, rest + Pushed(links, d + 1), EdgesOf(links))
  {
    forall i | 0 <= i < |links|
      ensures AtPath(g, root, limit, links[i].next, d + 1)
      ensures Justified(g, now, rest + Pushed(links, d + 1), EdgesOf(links)[i])
    {
      AtFollows(g, x, links[i]);
      ReachesNext(Follows(g), root, x, links[i].next, d);
      PushWaits(rest, links, d + 1, links[i]);
      assert JustifiedBy(g, now, rest + Pushed(links, d + 1), EdgesOf(links)[i], x, links[i]);
    }
  }

  lemma WalkStarts(g: Graph, root: Iri, limit: int)
    ensures Walking(g, root, limit, {}, [(root, 0)], [], [])
  {
    ReachesSelf(Follows(g), root);
    var frontier: Waiting := [(root, 0)];
    assert frontier[0].0 == root;
  }

  lemma WaitingInScope(g: Graph, root: Iri, limit: int, seen: set<Iri>, frontier: Waiting, nodes: seq<Node>, edges: seq<Edge>)
    requires Walking(g, root, limit, seen, frontier, nodes, edges) && frontier != []
    ensures frontier[|frontier| - 1].0 in g.Keys + {root}
  {
    assert AtPath(g, root, limit, frontier[|frontier| - 1].0, frontier[|frontier| - 1].1);
  }

  // ------------------------------------------------------------------------- when nothing waits

  ghost predicate LinkListed(nodes: seq<Node>, g: Graph, e: Edge, x: Iri, l: Link) {
    Lists(nodes, x) && l in At(g, x) && l.edge == e && Lists(nodes, l.next)
  }

  /** What a finished walk has listed: the root first, each node once, at the length of a real path within the limit, edges
      between listed nodes, and everything a node above the limit leads to. */
  ghost predicate Finished(g: Graph, root: Iri, limit: int, nodes: seq<Node>, edges: seq<Edge>) {
    && nodes != [] && nodes[0].iri == root && nodes[0].depth == 0
    && NodesSound(g, root, limit, nodes)
    && (forall e | e in edges :: exists x, l :: LinkListed(nodes, g, e, x, l))
    && forall i, l | 0 <= i < |nodes| && nodes[i].depth < limit && l in At(g, nodes[i].iri) ::
         Lists(nodes, l.next) && l.edge in edges
  }

  lemma WalkedIsFinished(g: Graph, root: Iri, limit: int, seen: set<Iri>, nodes: seq<Node>, edges: seq<Edge>)
    requires Walking(g, root, limit, seen, [], nodes, edges)
    ensures Finished(g, root, limit, nodes, edges)
  {
    forall e | e in edges ensures exists x, l :: LinkListed(nodes, g, e, x, l) {
      var i :| 0 <= i < |edges| && edges[i] == e;
      assert Justified(g, seen, [], edges[i]);
      var x, l :| JustifiedBy(g, seen, [], edges[i], x, l);
      assert LinkListed(nodes, g, e, x, l);
    }
    forall i, l | 0 <= i < |nodes| && nodes[i].depth < limit && l in At(g, nodes[i].iri)
      ensures Lists(nodes, l.next) && l.edge in edges
    {
      assert Expanded(g, seen, [], edges, nodes[i].iri);
    }
  }

  lemma ListedIsReached(g: Graph, root: Iri, limit: int, nodes: seq<Node>, edges: seq<Edge>, y: Iri)
    requires Finished(g, root, limit, nodes, edges) && Lists(nodes, y)
    ensures Reaches(Follows(g), root, y)
  {
    var i :| 0 <= i < |nodes| && nodes[i].iri == y;
    assert AtPath(g, root, limit, y, nodes[i].depth);
    var k: nat := nodes[i].depth;
    assert ReachesIn(Follows(g), root, y, k);
  }

  /** Every node at the limit leads only to what is listed anyway. */
  ghost predicate NothingBeyond(g: Graph, limit: int, nodes: seq<Node>) {
    forall i, l | 0 <= i < |nodes| && nodes[i].depth >= limit && l in At(g, nodes[i].iri) :: Lists(nodes, l.next)
  }

  /** What is listed is everything that can be reached exactly when the nodes at the limit lead nowhere new. */
  lemma CompleteIff(g: Graph, root: Iri, limit: int, nodes: seq<Node>, edges: seq<Edge>)
    requires Closed(g) && Finished(g, root, limit, nodes, edges)
    ensures (forall y :: Lists(nodes, y) <==> Reaches(Follows(g), root, y)) <==> NothingBeyond(g, limit, nodes)
  {
    forall y | Lists(nodes, y) ensures Reaches(Follows(g), root, y) {
      ListedIsReached(g, root, limit, nodes, edges, y);
    }
    if NothingBeyond(g, limit, nodes) {
      ClosedWhenNothingBeyond(g, root, limit, nodes, edges);
    } else {
      var i, l :| 0 <= i < |nodes| && nodes[i].depth >= limit && l in At(g, nodes[i].iri) && !Lists(nodes, l.next);
      AtFollows(g, nodes[i].iri, l);
      assert Lists(nodes, nodes[i].iri);
      var k: nat :| ReachesIn(Follows(g), root, nodes[i].iri, k);
      ReachesNext(Follows(g), root, nodes[i].iri, l.next, k);
      assert Reaches(Follows(g), root, l.next);
    }
  }

  lemma ClosedWhenNothingBeyond(g: Graph, root: Iri, limit: int, nodes: seq<Node>, edges: seq<Edge>)
    requires Finished(g, root, limit, nodes, edges) && NothingBeyond(g, limit, nodes)
    ensures forall y | Reaches(Follows(g), root, y) :: Lists(nodes, y)
  {
    var s := set i | 0 <= i < |nodes| :: nodes[i].iri;
    forall e | e in Follows(g) && e.0 in s ensures e.1 in s {
      var l :| l in At(g, e.0) && l.next == e.1;
      var i :| 0 <= i < |nodes| && nodes[i].iri == e.0;
      assert Lists(nodes, l.next);
    }
    assert root in s;
    forall y | Reaches(Follows(g), root, y) ensures Lists(nodes, y) {
      var k: nat :| ReachesIn(Follows(g), root, y, k);
      ClosedHoldsReached(Follows(g), s, root, y, k);
    }
  }
}
