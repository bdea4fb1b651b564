/** The depth-limited lineage of an artifact (src/domain/artifact.rs 373-448). */
module Lineage {
  import opened LineageWalk
  import opened Reach

  /** One provenance statement: `s` was derived from, is a revision of, was generated by, or used `o`. */
  datatype Statement = Statement(s: Iri, rel: Relation, o: Iri)

  /** The statements in the order rows come back, and every subject something is stated about. */
  datatype Store = Store(facts: seq<Statement>, described: set<Iri>)

  ghost predicate Valid(store: Store) {
    forall st | st in store.facts :: st.s in store.described
  }

  datatype Direction = Up | Down | Both

  predicate GoesUp(dir: Direction) { dir.Up? || dir.Both? }
  predicate GoesDown(dir: Direction) { dir.Down? || dir.Both? }

  /** Upwards a generation is listed from the run to what it generated. */
  function UpEdge(st: Statement): Edge {
    if st.rel.GeneratedBy? then Edge(st.o, st.s, st.rel) else Edge(st.s, st.o, st.rel)
  }

  function DownEdge(st: Statement): Edge {
    Edge(st.s, st.o, st.rel)
  }

  function About(facts: seq<Statement>, x: Iri, rel: Relation): seq<Statement> {
    if facts == [] then []
    else (if facts[0].s == x && facts[0].rel == rel then [facts[0]] else []) + About(facts[1..], x, rel)
  }

  function Citing(facts: seq<Statement>, x: Iri): seq<Statement> {
    if facts == [] then []
    else (if facts[0].o == x then [facts[0]] else []) + Citing(facts[1..], x)
  }

  /** Of a relation read as single-valued only the first statement is followed. */
  predicate Single(rel: Relation) {
    rel.RevisionOf? || rel.GeneratedBy?
  }

  function FollowedUp(facts: seq<Statement>, x: Iri, rel: Relation): seq<Statement> {
    var all := About(facts, x, rel);
    if Single(rel) && all != [] then all[..1] else all
  }

  function Parents(facts: seq<Statement>, x: Iri): seq<Statement> {
    FollowedUp(facts, x, DerivedFrom) + FollowedUp(facts, x, RevisionOf)
    + FollowedUp(facts, x, GeneratedBy) + FollowedUp(facts, x, Used)
  }

  function UpLinks(sts: seq<Statement>): seq<Link> {
    seq(|sts|, i requires 0 <= i < |sts| => Link(UpEdge(sts[i]), sts[i].o))
  }

  function DownLinks(sts: seq<Statement>): seq<Link> {
    seq(|sts|, i requires 0 <= i < |sts| => Link(DownEdge(sts[i]), sts[i].s))
  }

  function Links(facts: seq<Statement>, x: Iri, dir: Direction): seq<Link> {
    (if GoesUp(dir) then UpLinks(Parents(facts, x)) else []) + (if GoesDown(dir) then DownLinks(Citing(facts, x)) else [])
  }

  // --------------------------------------------------------------------- what the links are

  lemma {:induction false} AboutExactly(facts: seq<Statement>, x: Iri, rel: Relation, st: Statement)
    ensures st in About(facts, x, rel) <==> st in facts && st.s == x && st.rel == rel
  {
    if facts != [] {
      AboutExactly(facts[1..], x, rel, st);
      assert facts == [facts[0]] + facts[1..];
    }
  }

  lemma {:induction false} CitingExactly(facts: seq<Statement>, x: Iri, st: Statement)
    ensures st in Citing(facts, x) <==> st in facts && st.o == x
  {
    if facts != [] {
      CitingExactly(facts[1..], x, st);
      assert facts == [facts[0]] + facts[1..];
    }
  }

  lemma ParentsSound(facts: seq<Statement>, x: Iri, st: Statement)
    requires st in Parents(facts, x)
    ensures st in facts && st.s == x && st in FollowedUp(facts, x, st.rel)
  {
    AboutExactly(facts, x, DerivedFrom, st);
    AboutExactly(facts, x, RevisionOf, st);
    AboutExactly(facts, x, GeneratedBy, st);
    AboutExactly(facts, x, Used, st);
    assert exists rel :: st in FollowedUp(facts, x, rel);
  }

  /** A statement of the store that takes the walk from `x` to the link's other end, and its edge. */
  ghost predicate StatesUp(facts: seq<Statement>, x: Iri, l: Link, st: Statement) {
    st in facts && st.s == x && st.o == l.next && l.edge == UpEdge(st) && st in Parents(facts, x)
  }

  ghost predicate StatesDown(facts: seq<Statement>, x: Iri, l: Link, st: Statement) {
    st in facts && st.o == x && st.s == l.next && l.edge == DownEdge(st)
  }

  /** The edge states a statement of the store, and joins the node to what it leads to. */
  ghost predicate Real(facts: seq<Statement>, x: Iri, dir: Direction, l: Link) {
    || (GoesUp(dir) && exists st :: StatesUp(facts, x, l, st))
    || (GoesDown(dir) && exists st :: StatesDown(facts, x, l, st))
  }

  lemma UpLinksExactly(facts: seq<Statement>, x: Iri, l: Link)
    ensures l in UpLinks(Parents(facts, x)) <==> exists st :: StatesUp(facts, x, l, st)
  {
    var sts := Parents(facts, x);
    if l in UpLinks(sts) {
      var i :| 0 <= i < |sts| && UpLinks(sts)[i] == l;
      ParentsSound(facts, x, sts[i]);
      assert StatesUp(facts, x, l, sts[i]);
    }
    if st :| StatesUp(facts, x, l, st) {
      var i :| 0 <= i < |sts| && sts[i] == st;
      assert UpLinks(sts)[i] == l;
    }
  }

  lemma DownLinksExactly(facts: seq<Statement>, x: Iri, l: Link)
    ensures l in DownLinks(Citing(facts, x)) <==> exists st :: StatesDown(facts, x, l, st)
  {
    var sts := Citing(facts, x);
    if l in DownLinks(sts) {
      var i :| 0 <= i < |sts| && DownLinks(sts)[i] == l;
      CitingExactly(facts, x, sts[i]);
      assert StatesDown(facts, x, l, sts[i]);
    }
    if st :| StatesDown(facts, x, l, st) {
      CitingExactly(facts, x, st);
      var i :| 0 <= i < |sts| && sts[i] == st;
      assert DownLinks(sts)[i] == l;
    }
  }

  lemma LinkReal(facts: seq<Statement>, x: Iri, dir: Direction, l: Link)
    ensures l in Links(facts, x, dir) <==> Real(facts, x, dir, l)
  {
    UpLinksExactly(facts, x, l);
    DownLinksExactly(facts, x, l);
  }

  function Named(facts: seq<Statement>): set<Iri> {
    (set st | st in facts :: st.s) + (set st | st in facts :: st.o)
  }

  /** What the walk follows from every node that a statement names. */
  function GraphOf(store: Store, dir: Direction): Graph {
    map x | x in Named(store.facts) :: Links(store.facts, x, dir)
  }

  lemma GraphLinks(store: Store, dir: Direction, x: Iri, l: Link)
    ensures l in At(GraphOf(store, dir), x) <==> Real(store.facts, x, dir, l)
    ensures l in At(GraphOf(store, dir), x) ==>
              l.next in Named(store.facts)
              && ((l.edge.source == x && l.edge.target == l.next) || (l.edge.source == l.next && l.edge.target == x))
  {
    LinkReal(store.facts, x, dir, l);
    if Real(store.facts, x, dir, l) {
      NamesBoth(store.facts, x, dir, l);
    }
  }

  lemma NamesBoth(facts: seq<Statement>, x: Iri, dir: Direction, l: Link)
    requires Real(facts, x, dir, l)
    ensures x in Named(facts) && l.next in Named(facts)
    ensures (l.edge.source == x && l.edge.target == l.next) || (l.edge.source == l.next && l.edge.target == x)
  {
  }

  lemma GraphClosed(store: Store, dir: Direction)
    ensures Closed(GraphOf(store, dir))
  {
    var g := GraphOf(store, dir);
    forall x, l: Link | x in g && l in g[x] ensures l.next in g {
      GraphLinks(store, dir, x, l);
    }
  }

  /** A node no statement names leads nowhere. */
  lemma AtGraph(store: Store, dir: Direction, x: Iri)
    ensures At(GraphOf(store, dir), x) == Links(store.facts, x, dir)
  {
    var links := Links(store.facts, x, dir);
    if links != [] {
      LinkReal(store.facts, x, dir, links[0]);
      NamesBoth(store.facts, x, dir, links[0]);
    }
  }

  // ------------------------------------------------------------------------------- the answer

  ghost predicate Cut(limit: int, nodes: seq<Node>) {
    exists i :: 0 <= i < |nodes| && nodes[i].depth >= limit && !nodes[i].unresolved
  }

  lemma CutAdded(limit: int, nodes: seq<Node>, n: Node)
    ensures Cut(limit, nodes + [n]) <==> Cut(limit, nodes) || (n.depth >= limit && !n.unresolved)
  {
    var more := nodes + [n];
    if Cut(limit, nodes) {
      var i :| 0 <= i < |nodes| && nodes[i].depth >= limit && !nodes[i].unresolved;
      assert more[i] == nodes[i];
    }
    assert more[|nodes|] == n;
  }

  method Follow(links: seq<Link>, d: int, rest: Waiting, listed: seq<Edge>) returns (frontier: Waiting, edges: seq<Edge>)
    ensures frontier == rest + Pushed(links, d) && edges == listed + EdgesOf(links)
  {
    frontier, edges := rest, listed;
    for i := 0 to |links|
      invariant edges == listed + EdgesOf(links)[..i]
      invariant frontier == rest + Pushed(links, d)[..i]
    {
      edges := edges + [links[i].edge];
      frontier := frontier + [(links[i].next, d)];
    }
    assert EdgesOf(links)[..|links|] == EdgesOf(links) && Pushed(links, d)[..|links|] == Pushed(links, d);
  }

  /** Each edge states something about a listed node, and both its ends are listed. */
  ghost predicate EndsListed(store: Store, dir: Direction, nodes: seq<Node>, e: Edge) {
    Lists(nodes, e.source) && Lists(nodes, e.target)
    && exists x, l: Link :: Lists(nodes, x) && l.edge == e && Real(store.facts, x, dir, l)
  }

  ghost predicate Listing(store: Store, root: Iri, limit: int, dir: Direction, nodes: seq<Node>, edges: seq<Edge>) {
    && Finished(GraphOf(store, dir), root, limit, nodes, edges)
    && (forall e | e in edges :: EndsListed(store, dir, nodes, e))
    && forall i | 0 <= i < |nodes| :: nodes[i].unresolved <==> nodes[i].iri !in store.described
  }

  method LinksOf(store: Store, dir: Direction, x: Iri, ghost g: Graph) returns (links: seq<Link>)
    requires g == GraphOf(store, dir)
    ensures links == At(g, x)
  {
    links := Links(store.facts, x, dir);
    AtGraph(store, dir, x);
  }

  ghost predicate Marked(store: Store, limit: int, nodes: seq<Node>, truncated: bool) {
    (truncated <==> Cut(limit, nodes))
    && forall i | 0 <= i < |nodes| :: nodes[i].unresolved <==> nodes[i].iri !in store.described
  }

  /** One node that was not seen before. */
  method Visit(store: Store, limit: int, dir: Direction, n: Node, rest: Waiting, nodes: seq<Node>, edges: seq<Edge>, truncated: bool,
               ghost g: Graph, ghost root: Iri, ghost seen: set<Iri>, ghost frontier: Waiting)
    returns (waiting: Waiting, joined: seq<Edge>, cut: bool)
    requires Closed(g) && g == GraphOf(store, dir) && Walking(g, root, limit, seen, frontier, nodes, edges)
    requires frontier != [] && frontier[|frontier| - 1] == (n.iri, n.depth) && rest == frontier[..|frontier| - 1]
    requires n.iri !in seen && (n.unresolved <==> n.iri !in store.described) && Marked(store, limit, nodes, truncated)
    ensures Walking(g, root, limit, seen + {n.iri}, waiting, nodes + [n], joined)
    ensures Marked(store, limit, nodes + [n], cut)
  {
    CutAdded(limit, nodes, n);
    if n.depth >= limit {
      LimitKeeps(g, root, limit, seen, frontier, nodes, edges, n);
      waiting, joined, cut := rest, edges, truncated || !n.unresolved;
    } else {
      FollowKeeps(g, root, limit, seen, frontier, nodes, edges, n);
      var links := LinksOf(store, dir, n.iri, g);
      waiting, joined := Follow(links, n.depth + 1, rest, edges);
      cut := truncated;
    }
  }

  method Walk(store: Store, root: Iri, limit: int, dir: Direction, ghost g: Graph) returns (nodes: seq<Node>, edges: seq<Edge>, truncated: bool)
    requires Closed(g) && g == GraphOf(store, dir)
    ensures Finished(g, root, limit, nodes, edges) && Marked(store, limit, nodes, truncated)
  {
    nodes, edges, truncated := [], [], false;
    var seen: set<Iri> := {};
    var frontier: Waiting := [(root, 0)];
    WalkStarts(g, root, limit);
    while frontier != []
      invariant Walking(g, root, limit, seen, frontier, nodes, edges)
      invariant Marked(store, limit, nodes, truncated)
      decreases g.Keys + {root} - seen, |frontier|
    {
      WaitingInScope(g, root, limit, seen, frontier, nodes, edges);
      var (iri, d) := frontier[|frontier| - 1];
      var rest := frontier[..|frontier| - 1];
      if iri in seen {
        SkipKeeps(g, root, limit, seen, frontier, nodes, edges);
        frontier := rest;
      } else {
        var n := Node(iri, d, iri !in store.described);
        frontier, edges, truncated := Visit(store, limit, dir, n, rest, nodes, edges, truncated, g, root, seen, frontier);
        assert iri in g.Keys + {root} - seen;
        nodes, seen := nodes + [n], seen + {iri};
      }
    }
    WalkedIsFinished(g, root, limit, seen, nodes, edges);
  }

  /** Any finite graph, cycles included: each IRI once, at the length of a real path no longer than the
      limit, edges that are statements with both ends listed, and `truncated` exactly when a listed node
      at the limit holds statements of its own. */
  method LineageOf(store: Store, root: Iri, limit: int, dir: Direction) returns (nodes: seq<Node>, edges: seq<Edge>, truncated: bool)
    ensures Listing(store, root, limit, dir, nodes, edges)
    ensures truncated <==> Cut(limit, nodes)
  {
    GraphClosed(store, dir);
    nodes, edges, truncated := Walk(store, root, limit, dir, GraphOf(store, dir));
    forall e | e in edges ensures EndsListed(store, dir, nodes, e) {
      EdgeIsStated(store, root, limit, dir, nodes, edges, e);
    }
  }

  lemma EdgeIsStated(store: Store, root: Iri, limit: int, dir: Direction, nodes: seq<Node>, edges: seq<Edge>, e: Edge)
    requires Finished(GraphOf(store, dir), root, limit, nodes, edges) && e in edges
    ensures EndsListed(store, dir, nodes, e)
  {
    var x, l :| LinkListed(nodes, GraphOf(store, dir), e, x, l);
    GraphLinks(store, dir, x, l);
  }

  /** An edge states a statement of the store by its own ends and relation. Upwards a generation is listed from the
      run to the artifact, everything else from subject to object. */
  ghost predicate StatedBy(e: Edge, st: Statement, dir: Direction) {
    e.rel == st.rel
    && ((e.source == st.s && e.target == st.o && (dir.Up? ==> st.rel != GeneratedBy))
        || (e.source == st.o && e.target == st.s && st.rel == GeneratedBy && !dir.Down?))
  }

  lemma EdgesAreStatements(store: Store, root: Iri, limit: int, dir: Direction, nodes: seq<Node>, edges: seq<Edge>, e: Edge)
    requires Listing(store, root, limit, dir, nodes, edges) && e in edges
    ensures Lists(nodes, e.source) && Lists(nodes, e.target) && exists st :: st in store.facts && StatedBy(e, st, dir)
  {
    assert EndsListed(store, dir, nodes, e);
    var x, l: Link :| Lists(nodes, x) && l.edge == e && Real(store.facts, x, dir, l);
    RealIsStated(store.facts, x, dir, l);
  }

  lemma RealIsStated(facts: seq<Statement>, x: Iri, dir: Direction, l: Link)
    requires Real(facts, x, dir, l)
    ensures exists st :: st in facts && StatedBy(l.edge, st, dir)
  {
    if GoesUp(dir) && exists st :: StatesUp(facts, x, l, st) {
      var st :| StatesUp(facts, x, l, st);
      assert StatedBy(l.edge, st, dir);
    } else {
      var st :| StatesDown(facts, x, l, st);
      assert StatedBy(l.edge, st, dir);
    }
  }

  /** Where the walk goes: upwards from subject to object of what it follows, downwards from what is cited to every
      subject that cites it. */
  lemma FollowsExactly(store: Store, dir: Direction, x: Iri, y: Iri)
    ensures (x, y) in Follows(GraphOf(store, dir)) <==>
              || (dir != Down && exists st :: st in Parents(store.facts, x) && st.o == y)
              || (dir != Up && exists st :: st in store.facts && st.o == x && st.s == y)
  {
    var g := GraphOf(store, dir);
    GraphClosed(store, dir);
    if (x, y) in Follows(g) {
      var l :| l in At(g, x) && l.next == y;
      GraphLinks(store, dir, x, l);
    }
    if dir != Down && exists st :: st in Parents(store.facts, x) && st.o == y {
      var st :| st in Parents(store.facts, x) && st.o == y;
      ParentsSound(store.facts, x, st);
      var l := Link(UpEdge(st), y);
      assert StatesUp(store.facts, x, l, st);
      GraphLinks(store, dir, x, l);
      AtFollows(g, x, l);
    }
    if dir != Up && exists st :: st in store.facts && st.o == x && st.s == y {
      var st :| st in store.facts && st.o == x && st.s == y;
      CiterFollows(store, dir, st);
      AtFollows(g, x, Link(DownEdge(st), y));
    }
  }

  /** What is not followed. */
  lemma UnfollowedExactly(facts: seq<Statement>, st: Statement)
    requires st in facts
    ensures Unfollowed(facts, st) <==> st !in Parents(facts, st.s)
  {
    AboutExactly(facts, st.s, st.rel, st);
    if !Unfollowed(facts, st) {
      FollowedIsParent(facts, st);
    }
    if st in Parents(facts, st.s) {
      ParentsSound(facts, st.s, st);
    }
  }

  /** Which statements of a node are followed upwards: everything it was derived from and used, and of its revisions
      and of its generations the first each. */
  lemma ParentsExactly(facts: seq<Statement>, x: Iri, st: Statement)
    ensures st in Parents(facts, x) <==>
              st in facts && st.s == x
              && (st.rel == RevisionOf || st.rel == GeneratedBy ==>
                    exists i :: 0 <= i < |facts| && facts[i] == st
                                && forall j | 0 <= j < i :: facts[j].s != x || facts[j].rel != st.rel)
  {
    AboutExactly(facts, x, st.rel, st);
    FirstAbout(facts, x, st.rel);
    if st in Parents(facts, x) {
      ParentsSound(facts, x, st);
    }
    if st.s == x && st in FollowedUp(facts, x, st.rel) {
      match st.rel
      case DerivedFrom =>
      case RevisionOf =>
      case GeneratedBy =>
      case Used =>
    }
  }

  lemma {:induction false} FirstAbout(facts: seq<Statement>, x: Iri, rel: Relation)
    ensures About(facts, x, rel) != [] ==>
              exists i :: 0 <= i < |facts| && facts[i] == About(facts, x, rel)[0] && facts[i].s == x && facts[i].rel == rel
                          && forall j | 0 <= j < i :: facts[j].s != x || facts[j].rel != rel
    ensures About(facts, x, rel) == [] ==> forall j | 0 <= j < |facts| :: facts[j].s != x || facts[j].rel != rel
  {
    if facts != [] {
      FirstAbout(facts[1..], x, rel);
      if facts[0].s != x || facts[0].rel != rel {
        forall j | 1 <= j < |facts| ensures facts[j] == facts[1..][j - 1] {
        }
        if About(facts, x, rel) != [] {
          var i :| 0 <= i < |facts| - 1 && facts[1..][i] == About(facts, x, rel)[0] && facts[1..][i].s == x && facts[1..][i].rel == rel
                   && forall j | 0 <= j < i :: facts[1..][j].s != x || facts[1..][j].rel != rel;
          forall j | 0 <= j < i + 1 ensures facts[j].s != x || facts[j].rel != rel {
            assert j > 0 ==> facts[j] == facts[1..][j - 1];
          }
          assert facts[i + 1] == facts[1..][i];
        }
      } else {
        assert facts[0] == About(facts, x, rel)[0];
      }
    }
  }

  ghost predicate Reached(store: Store, dir: Direction, root: Iri, y: Iri) {
    Reaches(Follows(GraphOf(store, dir)), root, y)
  }

  /** In every direction, what is listed is everything reachable exactly when the nodes at the limit lead
      nowhere new. */
  lemma ListedIsReachableIff(store: Store, root: Iri, limit: int, dir: Direction, nodes: seq<Node>, edges: seq<Edge>)
    requires Listing(store, root, limit, dir, nodes, edges)
    ensures (forall y :: Lists(nodes, y) <==> Reached(store, dir, root, y)) <==> NothingBeyond(GraphOf(store, dir), limit, nodes)
  {
    GraphClosed(store, dir);
    CompleteIff(GraphOf(store, dir), root, limit, nodes, edges);
  }

  lemma UndescribedLeadsNowhere(store: Store, x: Iri)
    requires Valid(store)
    ensures At(GraphOf(store, Up), x) == [] || x in store.described
  {
    if At(GraphOf(store, Up), x) != [] {
      GraphLinks(store, Up, x, At(GraphOf(store, Up), x)[0]);
    }
  }

  /** Upwards an answer that is not truncated is complete: it lists exactly what is reachable. */
  lemma UpwardsUntruncatedIsComplete(store: Store, root: Iri, limit: int, nodes: seq<Node>, edges: seq<Edge>, y: Iri)
    requires Valid(store) && Listing(store, root, limit, Up, nodes, edges) && !Cut(limit, nodes)
    ensures Lists(nodes, y) <==> Reached(store, Up, root, y)
  {
    forall i | 0 <= i < |nodes| && nodes[i].depth >= limit ensures At(GraphOf(store, Up), nodes[i].iri) == [] {
      UndescribedLeadsNowhere(store, nodes[i].iri);
    }
    ListedIsReachableIff(store, root, limit, Up, nodes, edges);
  }

  /** What is reached downwards in a step or more is the subject of a statement. */
  lemma ReachedDownIsDescribed(store: Store, root: Iri, y: Iri, k: nat)
    requires Valid(store) && k > 0 && ReachesIn(Follows(GraphOf(store, Down)), root, y, k)
    ensures y in store.described
  {
    var x := ReachesLast(Follows(GraphOf(store, Down)), root, y, k - 1);
    var l :| l in At(GraphOf(store, Down), x) && l.next == y;
    GraphLinks(store, Down, x, l);
  }

  /** Downwards it is complete as well: whatever is cut off is flagged. The routes ask for a depth of 1 or more. */
  lemma DownwardsUntruncatedIsComplete(store: Store, root: Iri, limit: int, nodes: seq<Node>, edges: seq<Edge>, y: Iri)
    requires Valid(store) && limit >= 1 && Listing(store, root, limit, Down, nodes, edges) && !Cut(limit, nodes)
    ensures Lists(nodes, y) <==> Reached(store, Down, root, y)
  {
    var g := GraphOf(store, Down);
    forall i | 0 <= i < |nodes| && nodes[i].depth >= limit ensures false {
      assert AtPath(g, root, limit, nodes[i].iri, nodes[i].depth);
      ReachedDownIsDescribed(store, root, nodes[i].iri, nodes[i].depth);
    }
    ListedIsReachableIff(store, root, limit, Down, nodes, edges);
  }

  // ------------------------------------------------------------------------------ both ways

  /** Both ways an untruncated answer lists everything reachable exactly if whoever cites a node listed at the
      limit is listed. Such a node is one nothing is stated about. */
  lemma BothCompleteIff(store: Store, root: Iri, limit: int, nodes: seq<Node>, edges: seq<Edge>)
    requires Valid(store) && Listing(store, root, limit, Both, nodes, edges) && !Cut(limit, nodes)
    ensures (forall y :: Lists(nodes, y) <==> Reached(store, Both, root, y))
       <==> forall i, st | 0 <= i < |nodes| && nodes[i].depth >= limit && st in store.facts && st.o == nodes[i].iri :: Lists(nodes, st.s)
  {
    var g := GraphOf(store, Both);
    ListedIsReachableIff(store, root, limit, Both, nodes, edges);
    forall i, l | 0 <= i < |nodes| && nodes[i].depth >= limit && l in At(g, nodes[i].iri)
      ensures exists st :: st in store.facts && st.o == nodes[i].iri && st.s == l.next
    {
      OnlyCitersFollow(store, nodes[i].iri, l);
    }
    forall i, st | 0 <= i < |nodes| && nodes[i].depth >= limit && st in store.facts && st.o == nodes[i].iri
      ensures Link(DownEdge(st), st.s) in At(g, nodes[i].iri)
    {
      CiterFollows(store, Both, st);
    }
  }

  /** From a node nothing is stated about the walk goes on to what cites it, and nowhere else. */
  lemma OnlyCitersFollow(store: Store, u: Iri, l: Link)
    requires Valid(store) && u !in store.described && l in At(GraphOf(store, Both), u)
    ensures exists st :: StatesDown(store.facts, u, l, st)
  {
    GraphLinks(store, Both, u, l);
  }

  lemma CiterFollows(store: Store, dir: Direction, st: Statement)
    requires GoesDown(dir) && st in store.facts
    ensures Link(DownEdge(st), st.s) in At(GraphOf(store, dir), st.o)
  {
    var l := Link(DownEdge(st), st.s);
    assert StatesDown(store.facts, st.o, l, st);
    GraphLinks(store, dir, st.o, l);
  }

  /** Nothing that is not described is cited by two subjects. */
  ghost predicate OneCiter(store: Store) {
    forall st, other | st in store.facts && other in store.facts && st.o == other.o && st.o !in store.described :: st.s == other.s
  }

  /** Where to an undescribed node the walk came from, it came from what cites it. */
  lemma CameFromCiter(store: Store, c: Iri, u: Iri)
    requires Valid(store) && u !in store.described && (c, u) in Follows(GraphOf(store, Both))
    ensures exists st :: st in store.facts && st.s == c && st.o == u
  {
    var l :| l in At(GraphOf(store, Both), c) && l.next == u;
    GraphLinks(store, Both, c, l);
  }

  /** In such a store an untruncated answer both ways is complete, at every depth the routes ask for: a path
      through a node that is not described goes back to where it came from. */
  lemma {:induction false} BothReachedIsListed(store: Store, root: Iri, limit: int, nodes: seq<Node>, edges: seq<Edge>, y: Iri, k: nat)
    requires Valid(store) && OneCiter(store) && limit >= 1 && Listing(store, root, limit, Both, nodes, edges) && !Cut(limit, nodes)
    requires ReachesIn(Follows(GraphOf(store, Both)), root, y, k)
    ensures Lists(nodes, y)
    decreases k
  {
    var g := GraphOf(store, Both);
    if k == 0 {
      assert nodes[0].iri == y;
    } else {
      var b := ReachesLast(Follows(g), root, y, k - 1);
      BothReachedIsListed(store, root, limit, nodes, edges, b, k - 1);
      var l :| l in At(g, b) && l.next == y;
      var i :| 0 <= i < |nodes| && nodes[i].iri == b;
      if nodes[i].depth >= limit {
        assert b != root;
        var c := ReachesLast(Follows(g), root, b, k - 2);
        BothReachedIsListed(store, root, limit, nodes, edges, c, k - 2);
        CameFromCiter(store, c, b);
        OnlyCitersFollow(store, b, l);
      }
    }
  }

  lemma BothUntruncatedIsComplete(store: Store, root: Iri, limit: int, nodes: seq<Node>, edges: seq<Edge>, y: Iri)
    requires Valid(store) && OneCiter(store) && limit >= 1 && Listing(store, root, limit, Both, nodes, edges) && !Cut(limit, nodes)
    ensures Lists(nodes, y) <==> Reached(store, Both, root, y)
  {
    if Lists(nodes, y) {
      ListedIsReached(GraphOf(store, Both), root, limit, nodes, edges, y);
    }
    if Reached(store, Both, root, y) {
      var k: nat :| ReachesIn(Follows(GraphOf(store, Both)), root, y, k);
      BothReachedIsListed(store, root, limit, nodes, edges, y, k);
    }
  }

  /** Two records that cite one thing nothing is stated about, and nothing else. */
  function TwoCiters(st: Statement, other: Statement, described: set<Iri>): Store {
    Store([st, other], described)
  }

  lemma OnlyStatement(st: Statement, other: Statement, rel: Relation)
    requires st.s != other.s
    ensures FollowedUp([st, other], st.s, rel) == if rel == st.rel then [st] else []
  {
    assert [st, other][1..] == [other] && [other][1..] == [];
    assert About([st, other], st.s, rel) == (if st.rel == rel then [st] else []) + About([other], st.s, rel);
    assert About([other], st.s, rel) == [];
    assert [st][..1] == [st];
  }

  lemma OnlyParent(st: Statement, other: Statement)
    requires st.s != other.s
    ensures Parents([st, other], st.s) == [st]
  {
    OnlyStatement(st, other, DerivedFrom);
    OnlyStatement(st, other, RevisionOf);
    OnlyStatement(st, other, GeneratedBy);
    OnlyStatement(st, other, Used);
    match st.rel
    case DerivedFrom =>
    case RevisionOf =>
    case GeneratedBy =>
    case Used =>
  }

  lemma NobodyCites(st: Statement, other: Statement, x: Iri)
    requires st.o != x && other.o != x
    ensures Citing([st, other], x) == []
  {
    if Citing([st, other], x) != [] {
      CitingExactly([st, other], x, Citing([st, other], x)[0]);
    }
  }

  lemma FirstCiterLinks(st: Statement, other: Statement, described: set<Iri>)
    requires st.s != other.s && st.o == other.o && st.s in described && st.o !in described
    ensures At(GraphOf(TwoCiters(st, other, described), Both), st.s) == [Link(UpEdge(st), st.o)]
  {
    OnlyParent(st, other);
    NobodyCites(st, other, st.s);
    AtGraph(TwoCiters(st, other, described), Both, st.s);
  }

  lemma FirstCiterLeads(st: Statement, other: Statement, described: set<Iri>, x: Iri)
    requires st.s != other.s && st.o == other.o && st.s in described && st.o !in described
    ensures (st.s, x) in Follows(GraphOf(TwoCiters(st, other, described), Both)) <==> x == st.o
  {
    FirstCiterLinks(st, other, described);
    var g, l := GraphOf(TwoCiters(st, other, described), Both), Link(UpEdge(st), st.o);
    GraphClosed(TwoCiters(st, other, described), Both);
    assert l in At(g, st.s);
    AtFollows(g, st.s, l);
  }

  /** Both ways it can be silent: from the first of them, at depth 1, every answer is called complete and lacks
      the second one, which depth 2 reaches; and there is such an answer. */
  lemma BothCutSilently(st: Statement, other: Statement, described: set<Iri>, nodes: seq<Node>, edges: seq<Edge>)
    requires st.s != other.s && st.o == other.o && st.s in described && other.s in described && st.o !in described
    ensures var store := TwoCiters(st, other, described);
            && Valid(store) && ReachesIn(Follows(GraphOf(store, Both)), st.s, other.s, 2)
            && (Listing(store, st.s, 1, Both, nodes, edges) ==> !Cut(1, nodes) && !Lists(nodes, other.s))
            && Listing(store, st.s, 1, Both, [Node(st.s, 0, false), Node(st.o, 1, true)], [UpEdge(st)])
  {
    var store := TwoCiters(st, other, described);
    SecondCiterReached(st, other, described);
    if Listing(store, st.s, 1, Both, nodes, edges) {
      forall i | 0 <= i < |nodes| ensures (nodes[i].iri == st.s && nodes[i].depth == 0) || nodes[i].iri == st.o {
        assert AtPath(GraphOf(store, Both), st.s, 1, nodes[i].iri, nodes[i].depth);
        WithinOne(st, other, described, nodes[i].iri, nodes[i].depth);
      }
    }
    CitersAnswer(st, other, described);
  }

  lemma WithinOne(st: Statement, other: Statement, described: set<Iri>, x: Iri, d: int)
    requires st.s != other.s && st.o == other.o && st.s in described && other.s in described && st.o !in described
    requires 0 <= d <= 1 && ReachesIn(Follows(GraphOf(TwoCiters(st, other, described), Both)), st.s, x, d)
    ensures (x == st.s && d == 0) || (x == st.o && d == 1)
  {
    var e := Follows(GraphOf(TwoCiters(st, other, described), Both));
    if d == 1 {
      var b := ReachesLast(e, st.s, x, 0);
      assert b == st.s;
      FirstCiterLeads(st, other, described, x);
    }
  }

  lemma SecondCiterReached(st: Statement, other: Statement, described: set<Iri>)
    requires st.s != other.s && st.o == other.o && st.s in described && other.s in described && st.o !in described
    ensures var store := TwoCiters(st, other, described);
            ReachesIn(Follows(GraphOf(store, Both)), st.s, other.s, 2)
  {
    var store := TwoCiters(st, other, described);
    var g := GraphOf(store, Both);
    FirstCiterLeads(st, other, described, st.o);
    ReachesStep(Follows(g), st.s, st.o);
    assert other == store.facts[1];
    CiterFollows(store, Both, other);
    GraphClosed(store, Both);
    AtFollows(g, st.o, Link(DownEdge(other), other.s));
    ReachesNext(Follows(g), st.s, st.o, other.s, 1);
  }

  lemma CitersAnswer(st: Statement, other: Statement, described: set<Iri>)
    requires st.s != other.s && st.o == other.o && st.s in described && other.s in described && st.o !in described
    ensures Listing(TwoCiters(st, other, described), st.s, 1, Both, [Node(st.s, 0, false), Node(st.o, 1, true)], [UpEdge(st)])
  {
    var store, nodes := TwoCiters(st, other, described), [Node(st.s, 0, false), Node(st.o, 1, true)];
    CitersFinished(st, other, described);
    FirstCiterLinks(st, other, described);
    OneEdgeEnds(store, st, nodes, [UpEdge(st)]);
    TwoMarked(store, st.s, st.o);
    AsListing(store, GraphOf(store, Both), st.s, 1, nodes, [UpEdge(st)]);
  }

  lemma TwoMarked(store: Store, x: Iri, y: Iri)
    requires x in store.described && y !in store.described
    ensures var nodes := [Node(x, 0, false), Node(y, 1, true)];
            forall i | 0 <= i < |nodes| :: nodes[i].unresolved <==> nodes[i].iri !in store.described
  {
  }

  lemma OneEdgeEnds(store: Store, st: Statement, nodes: seq<Node>, edges: seq<Edge>)
    requires nodes == [Node(st.s, 0, false), Node(st.o, 1, true)]
    requires Link(UpEdge(st), st.o) in At(GraphOf(store, Both), st.s) && edges == [UpEdge(st)]
    ensures forall e | e in edges :: EndsListed(store, Both, nodes, e)
  {
    assert nodes[0].iri == st.s && nodes[1].iri == st.o;
    forall e | e in edges ensures EndsListed(store, Both, nodes, e) {
      assert e == UpEdge(st);
      UpEdgeEnds(store, nodes, st);
    }
  }

  lemma AsListing(store: Store, g: Graph, root: Iri, limit: int, nodes: seq<Node>, edges: seq<Edge>)
    requires g == GraphOf(store, Both) && Finished(g, root, limit, nodes, edges)
    requires forall e | e in edges :: EndsListed(store, Both, nodes, e)
    requires forall i | 0 <= i < |nodes| :: nodes[i].unresolved <==> nodes[i].iri !in store.described
    ensures Listing(store, root, limit, Both, nodes, edges)
  {
  }

  lemma CitersFinished(st: Statement, other: Statement, described: set<Iri>)
    requires st.s != other.s && st.o == other.o && st.s in described && st.o !in described
    ensures Finished(GraphOf(TwoCiters(st, other, described), Both), st.s, 1, [Node(st.s, 0, false), Node(st.o, 1, true)], [UpEdge(st)])
  {
    var store := TwoCiters(st, other, described);
    var g, l := GraphOf(store, Both), Link(UpEdge(st), st.o);
    FirstCiterLinks(st, other, described);
    FirstCiterLeads(st, other, described, st.o);
    ReachesStep(Follows(g), st.s, st.o);
    GraphLinks(store, Both, st.s, l);
    OneStepListing(g, st.s, l, false, true);
  }

  lemma UpEdgeEnds(store: Store, nodes: seq<Node>, st: Statement)
    requires Lists(nodes, st.s) && Lists(nodes, st.o) && Link(UpEdge(st), st.o) in At(GraphOf(store, Both), st.s)
    ensures EndsListed(store, Both, nodes, UpEdge(st))
  {
    var l := Link(UpEdge(st), st.o);
    GraphLinks(store, Both, st.s, l);
    assert Real(store.facts, st.s, Both, l);
  }

  /** The root with the one thing it leads to. */
  lemma OneStepListing(g: Graph, root: Iri, l: Link, a: bool, b: bool)
    requires At(g, root) == [l] && l.next != root && l.next in g && ReachesIn(Follows(g), root, l.next, 1)
    ensures Finished(g, root, 1, [Node(root, 0, a), Node(l.next, 1, b)], [l.edge])
  {
    var nodes := [Node(root, 0, a), Node(l.next, 1, b)];
    ReachesSelf(Follows(g), root);
    assert nodes[0].iri == root && nodes[1].iri == l.next;
    assert AtPath(g, root, 1, root, 0) && AtPath(g, root, 1, l.next, 1);
    assert NodesSound(g, root, 1, nodes);
    assert LinkListed(nodes, g, l.edge, root, l);
  }

  /** Every answer both ways, at a depth the routes ask for, that is not called truncated is complete. */
  ghost predicate TellsAll(store: Store) {
    forall root, limit, nodes, edges | limit >= 1 && Listing(store, root, limit, Both, nodes, edges) && !Cut(limit, nodes) ::
      forall y :: Lists(nodes, y) <==> Reached(store, Both, root, y)
  }

  /** Some of the store's statements, in any order. */
  ghost predicate SomeOf(facts: seq<Statement>, store: Store) {
    forall st | st in facts :: st in store.facts
  }

  /** That can be checked before any call, and it is exact for the store and whatever is left of it when
      statements are withdrawn. */
  lemma TellsAllIffOneCiter(store: Store)
    requires Valid(store)
    ensures OneCiter(store) <==> forall facts | SomeOf(facts, store) :: TellsAll(Store(facts, store.described))
  {
    if OneCiter(store) {
      forall facts | SomeOf(facts, store) ensures TellsAll(Store(facts, store.described)) {
        var rest := Store(facts, store.described);
        forall root, limit, nodes, edges | limit >= 1 && Listing(rest, root, limit, Both, nodes, edges) && !Cut(limit, nodes)
          ensures forall y :: Lists(nodes, y) <==> Reached(rest, Both, root, y)
        {
          forall y ensures Lists(nodes, y) <==> Reached(rest, Both, root, y) {
            BothUntruncatedIsComplete(rest, root, limit, nodes, edges, y);
          }
        }
      }
    } else {
      var st, other :| st in store.facts && other in store.facts && st.o == other.o && st.o !in store.described && st.s != other.s;
      assert SomeOf([st, other], store);
      TwoCitersNotTold(st, other, store.described);
    }
  }

  lemma TwoCitersNotTold(st: Statement, other: Statement, described: set<Iri>)
    requires st.s != other.s && st.o == other.o && st.s in described && other.s in described && st.o !in described
    ensures !TellsAll(TwoCiters(st, other, described))
  {
    var store, nodes, edges := TwoCiters(st, other, described), [Node(st.s, 0, false), Node(st.o, 1, true)], [UpEdge(st)];
    BothCutSilently(st, other, described, nodes, edges);
    NotTold(store, st.s, 1, nodes, edges, other.s);
  }

  lemma NotTold(store: Store, root: Iri, limit: int, nodes: seq<Node>, edges: seq<Edge>, y: Iri)
    requires limit >= 1 && Listing(store, root, limit, Both, nodes, edges) && !Cut(limit, nodes)
    requires !Lists(nodes, y) && Reached(store, Both, root, y)
    ensures !TellsAll(store)
  {
  }

  /** All statements upwards, whether or not the walk follows them. */
  function Stated(facts: seq<Statement>): set<(Iri, Iri)> {
    set st | st in facts :: (st.s, st.o)
  }

  lemma FollowedIsStated(store: Store, root: Iri, y: Iri)
    requires Reached(store, Up, root, y)
    ensures Reaches(Stated(store.facts), root, y)
  {
    var g, stated := GraphOf(store, Up), Stated(store.facts);
    forall e | e in Follows(g) ensures e in stated {
      var l :| l in At(g, e.0) && l.next == e.1;
      GraphLinks(store, Up, e.0, l);
      var st :| StatesUp(store.facts, e.0, l, st);
    }
    var k: nat :| ReachesIn(Follows(g), root, y, k);
    var p :| IsPath(Follows(g), p) && |p| == k + 1 && p[0] == root && p[k] == y;
    assert IsPath(stated, p);
    assert ReachesIn(stated, root, y, k);
  }

  /** What a listed node states and the walk follows is listed. */
  lemma ParentListed(store: Store, root: Iri, limit: int, nodes: seq<Node>, edges: seq<Edge>, st: Statement)
    requires Valid(store) && Listing(store, root, limit, Up, nodes, edges) && !Cut(limit, nodes)
    requires st in store.facts && Lists(nodes, st.s)
    ensures Lists(nodes, st.o) || Unfollowed(store.facts, st)
  {
    var g := GraphOf(store, Up);
    if !Unfollowed(store.facts, st) {
      FollowedIsParent(store.facts, st);
      var l := Link(UpEdge(st), st.o);
      assert StatesUp(store.facts, st.s, l, st);
      GraphLinks(store, Up, st.s, l);
      GraphClosed(store, Up);
      AtFollows(g, st.s, l);
      ListedIsReached(g, root, limit, nodes, edges, st.s);
      var k: nat :| ReachesIn(Follows(g), root, st.s, k);
      ReachesNext(Follows(g), root, st.s, st.o, k);
      UpwardsUntruncatedIsComplete(store, root, limit, nodes, edges, st.o);
    }
  }

  /** A revision or generation of its subject that is not the first the store gives. */
  predicate Unfollowed(facts: seq<Statement>, st: Statement) {
    Single(st.rel) && st !in FollowedUp(facts, st.s, st.rel)
  }

  lemma FollowedIsParent(facts: seq<Statement>, st: Statement)
    requires st in facts && !Unfollowed(facts, st)
    ensures st in Parents(facts, st.s)
  {
    AboutExactly(facts, st.s, st.rel, st);
    assert st in FollowedUp(facts, st.s, st.rel);
  }

  /** Measured against every statement, an untruncated answer upwards is complete exactly when no listed
      node has a further revision or generation, after the first of each, that is not listed anyway. */
  lemma UpwardsCompleteForAllStatementsIff(store: Store, root: Iri, limit: int, nodes: seq<Node>, edges: seq<Edge>)
    requires Valid(store) && Listing(store, root, limit, Up, nodes, edges) && !Cut(limit, nodes)
    ensures (forall y :: Lists(nodes, y) <==> Reaches(Stated(store.facts), root, y))
       <==> forall st | st in store.facts && Lists(nodes, st.s) && Unfollowed(store.facts, st) :: Lists(nodes, st.o)
  {
    var stated := Stated(store.facts);
    forall y | Lists(nodes, y) ensures Reaches(stated, root, y) {
      ListedIsReached(GraphOf(store, Up), root, limit, nodes, edges, y);
      FollowedIsStated(store, root, y);
    }
    if forall st | st in store.facts && Lists(nodes, st.s) && Unfollowed(store.facts, st) :: Lists(nodes, st.o) {
      AllStatedListed(store, root, limit, nodes, edges);
    } else {
      var st :| st in store.facts && Lists(nodes, st.s) && Unfollowed(store.facts, st) && !Lists(nodes, st.o);
      var k: nat :| ReachesIn(stated, root, st.s, k);
      assert (st.s, st.o) in stated;
      ReachesNext(stated, root, st.s, st.o, k);
      assert Reaches(stated, root, st.o);
    }
  }

  lemma AllStatedListed(store: Store, root: Iri, limit: int, nodes: seq<Node>, edges: seq<Edge>)
    requires Valid(store) && Listing(store, root, limit, Up, nodes, edges) && !Cut(limit, nodes)
    requires forall st | st in store.facts && Lists(nodes, st.s) && Unfollowed(store.facts, st) :: Lists(nodes, st.o)
    ensures forall y | Reaches(Stated(store.facts), root, y) :: Lists(nodes, y)
  {
    var stated := Stated(store.facts);
    var s := set i | 0 <= i < |nodes| :: nodes[i].iri;
    forall e | e in stated && e.0 in s ensures e.1 in s {
      var st :| st in store.facts && e == (st.s, st.o);
      assert Lists(nodes, st.s);
      ParentListed(store, root, limit, nodes, edges, st);
    }
    assert root in s;
    forall y | Reaches(stated, root, y) ensures Lists(nodes, y) {
      var k: nat :| ReachesIn(stated, root, y, k);
      ClosedHoldsReached(stated, s, root, y, k);
    }
  }

  /** A second generating run is not listed. */
  lemma SecondRunMissed(a: Iri, r: Iri, other: Iri, limit: int, nodes: seq<Node>, edges: seq<Edge>)
    requires a != r && a != other && r != other
    requires Listing(Store([Statement(a, GeneratedBy, r), Statement(a, GeneratedBy, other)], {a}), a, limit, Up, nodes, edges)
    ensures !Lists(nodes, other)
  {
    var store := Store([Statement(a, GeneratedBy, r), Statement(a, GeneratedBy, other)], {a});
    var g, s := GraphOf(store, Up), {a, r};
    forall e | e in Follows(g) && e.0 in s ensures e.1 in s {
      var l :| l in At(g, e.0) && l.next == e.1;
      GraphLinks(store, Up, e.0, l);
      var st :| StatesUp(store.facts, e.0, l, st);
      ParentsSound(store.facts, e.0, st);
      FirstRunOnly(a, r, other, st);
    }
    if Lists(nodes, other) {
      ListedIsReached(g, a, limit, nodes, edges, other);
      var k: nat :| ReachesIn(Follows(g), a, other, k);
      ClosedHoldsReached(Follows(g), s, a, other, k);
    }
  }

  lemma FirstRunOnly(a: Iri, r: Iri, other: Iri, st: Statement)
    requires st in FollowedUp([Statement(a, GeneratedBy, r), Statement(a, GeneratedBy, other)], st.s, st.rel)
    ensures st == Statement(a, GeneratedBy, r)
  {
    var facts := [Statement(a, GeneratedBy, r), Statement(a, GeneratedBy, other)];
    AboutExactly(facts, st.s, st.rel, st);
    assert st.s == a && st.rel == GeneratedBy;
    assert facts[1..] == [Statement(a, GeneratedBy, other)];
    assert About(facts, a, GeneratedBy) == [facts[0]] + About(facts[1..], a, GeneratedBy);
  }
}
