/** Trimming a peer's document to a stub: the record, what it owns, and nothing else
    (src/api/peers.rs 359-405). */
module Stubs {
  import opened Reach
  import Text

  datatype Term = Named(iri: string) | Blank(id: string) | Literal(text: string)
  /** The predicates that own their object. */
  datatype Owning = QualifiedAttribution | Distribution | EndpointDescription | HasCapability | Sync | Checksum | QualifiedAssociation

  /** A predicate as the trimming sees it; `Foreign` is in none of the namespaces the record model reads. */
  datatype Property = Owner(which: Owning) | Modelled(iri: string) | SameAs | Foreign(iri: string)

  datatype Quad = Quad(s: Term, p: Property, o: Term)

  const DEFAULT_DEPTH: nat := 4

  predicate Wanted(q: Quad) {
    !q.p.Foreign?
  }

  /** Ownership runs into blank nodes whatever the predicate, and into named ones over the owning predicates. */
  predicate Owns(q: Quad) {
    Wanted(q) && (q.o.Blank? || (q.o.Named? && q.p.Owner?))
  }

  /** What is owned, predicate by predicate: over a predicate the model reads, any blank node; a named node only over
      one of the seven that own what they name; a literal never. */
  lemma OwnsExactly(s: Term, p: Property, o: Term)
    ensures Owns(Quad(s, p, o)) <==>
              match o
              case Blank(_) => p.Owner? || p.Modelled? || p == SameAs
              case Named(_) => p in {Owner(QualifiedAttribution), Owner(Distribution), Owner(EndpointDescription), Owner(HasCapability),
                                     Owner(Sync), Owner(Checksum), Owner(QualifiedAssociation)}
              case Literal(_) => false
  {
    match p
    case Owner(which) =>
      match which {
        case QualifiedAttribution =>
        case Distribution =>
        case EndpointDescription =>
        case HasCapability =>
        case Sync =>
        case Checksum =>
        case QualifiedAssociation =>
      }
    case Modelled(_) =>
    case SameAs =>
    case Foreign(_) =>
  }

  function Ownership(doc: seq<Quad>): set<(Term, Term)> {
    set q | q in doc && Owns(q) :: (q.s, q.o)
  }

  /** The wanted statements about one node, in document order. */
  function About(doc: seq<Quad>, node: Term): seq<Quad> {
    if doc == [] then []
    else
      var n := |doc| - 1;
      About(doc[..n], node) + if doc[n].s == node && Wanted(doc[n]) then [doc[n]] else []
  }

  lemma {:induction false} AboutCounts(doc: seq<Quad>, node: Term, q: Quad)
    ensures multiset(About(doc, node))[q] == if q.s == node && Wanted(q) then multiset(doc)[q] else 0
  {
    if doc != [] {
      AboutCounts(doc[..|doc| - 1], node, q);
      assert doc == doc[..|doc| - 1] + [doc[|doc| - 1]];
    }
  }

  lemma AboutExactly(doc: seq<Quad>, node: Term, q: Quad)
    ensures q in About(doc, node) <==> q in doc && q.s == node && Wanted(q)
  {
    AboutCounts(doc, node, q);
    assert q in About(doc, node) <==> q in multiset(About(doc, node));
    assert q in doc <==> q in multiset(doc);
  }

  // --------------------------------------------------------------------------------- the walk

  type Waiting = seq<(Term, nat)>

  predicate Waits(frontier: Waiting, x: Term) {
    exists i :: 0 <= i < |frontier| && frontier[i].0 == x
  }

  function Scope(doc: seq<Quad>, root: Term): set<Term> {
    {root} + set q | q in doc :: q.o
  }

  ghost predicate Owned(doc: seq<Quad>, root: Term, x: Term, d: nat) {
    d <= DEFAULT_DEPTH && ReachesIn(Ownership(doc), root, x, d) && x in Scope(doc, root)
  }

  /** Visited nodes, each with the number of ownership steps it was first met at. */
  ghost predicate VisitedSound(doc: seq<Quad>, root: Term, seen: map<Term, nat>) {
    forall x | x in seen :: Owned(doc, root, x, seen[x])
  }

  ghost predicate WaitingSound(doc: seq<Quad>, root: Term, frontier: Waiting) {
    forall i | 0 <= i < |frontier| :: Owned(doc, root, frontier[i].0, frontier[i].1)
  }

  ghost predicate Expanded(doc: seq<Quad>, seen: map<Term, nat>, frontier: Waiting, x: Term) {
    forall q | q in doc && q.s == x && Owns(q) :: q.o in seen || Waits(frontier, q.o)
  }

  ghost predicate AllExpanded(doc: seq<Quad>, seen: map<Term, nat>, frontier: Waiting) {
    forall x | x in seen && seen[x] < DEFAULT_DEPTH :: Expanded(doc, seen, frontier, x)
  }

  ghost predicate Kept(doc: seq<Quad>, seen: map<Term, nat>, out: seq<Quad>) {
    forall q :: multiset(out)[q] == if q.s in seen && Wanted(q) then multiset(doc)[q] else 0
  }

  ghost predicate Walking(doc: seq<Quad>, root: Term, seen: map<Term, nat>, frontier: Waiting, out: seq<Quad>) {
    && (root in seen || Waits(frontier, root))
    && VisitedSound(doc, root, seen)
    && WaitingSound(doc, root, frontier)
    && AllExpanded(doc, seen, frontier)
    && Kept(doc, seen, out)
  }

  lemma Starts(doc: seq<Quad>, root: Term)
    ensures Walking(doc, root, map[], [(root, 0)], [])
  {
    ReachesSelf(Ownership(doc), root);
    var frontier: Waiting := [(root, 0)];
    assert frontier[0].0 == root;
  }

  /** The owned objects of some statements, each one step deeper. */
  function Pushed(quads: seq<Quad>, d: nat): Waiting {
    if quads == [] then []
    else
      var n := |quads| - 1;
      Pushed(quads[..n], d) + if Owns(quads[n]) then [(quads[n].o, d)] else []
  }

  lemma {:induction false} PushedWaits(quads: seq<Quad>, d: nat, q: Quad)
    requires q in quads && Owns(q)
    ensures Waits(Pushed(quads, d), q.o)
  {
    var n := |quads| - 1;
    var all, front := Pushed(quads, d), Pushed(quads[..n], d);
    if q == quads[n] {
      assert all[|front|].0 == q.o;
    } else {
      PushedWaits(quads[..n], d, q);
      var i :| 0 <= i < |front| && front[i].0 == q.o;
      assert all[i].0 == q.o;
    }
  }

  lemma {:induction false} PushedFrom(quads: seq<Quad>, d: nat, i: nat) returns (q: Quad)
    requires i < |Pushed(quads, d)|
    ensures q in quads && Owns(q) && Pushed(quads, d)[i] == (q.o, d)
  {
    var n := |quads| - 1;
    if i < |Pushed(quads[..n], d)| {
      q := PushedFrom(quads[..n], d, i);
    } else {
      q := quads[n];
    }
  }

  lemma SkipKeeps(doc: seq<Quad>, root: Term, seen: map<Term, nat>, frontier: Waiting, out: seq<Quad>)
    requires Walking(doc, root, seen, frontier, out) && frontier != [] && frontier[|frontier| - 1].0 in seen
    ensures Walking(doc, root, seen, frontier[..|frontier| - 1], out)
  {
    StillWaits(frontier, [], seen);
    assert frontier[..|frontier| - 1] + [] == frontier[..|frontier| - 1];
    StillExpanded(doc, seen, frontier, seen, frontier[..|frontier| - 1]);
  }

  lemma StillWaits(frontier: Waiting, more: Waiting, now: map<Term, nat>)
    requires frontier != [] && frontier[|frontier| - 1].0 in now
    ensures forall x | Waits(frontier, x) :: x in now || Waits(frontier[..|frontier| - 1] + more, x)
  {
    var rest := frontier[..|frontier| - 1];
    forall x | Waits(frontier, x) ensures x in now || Waits(rest + more, x) {
      var i :| 0 <= i < |frontier| && frontier[i].0 == x;
      assert i < |rest| ==> (rest + more)[i].0 == x;
    }
  }

  lemma StillExpanded(doc: seq<Quad>, seen: map<Term, nat>, before: Waiting, now: map<Term, nat>, after: Waiting)
    requires AllExpanded(doc, seen, before)
    requires forall x | x in seen :: x in now && now[x] == seen[x]
    requires forall x | Waits(before, x) :: x in now || Waits(after, x)
    ensures forall x | x in seen && seen[x] < DEFAULT_DEPTH :: Expanded(doc, now, after, x)
  {
    forall x | x in seen && seen[x] < DEFAULT_DEPTH ensures Expanded(doc, now, after, x) {
      assert Expanded(doc, seen, before, x);
    }
  }

  lemma OutGrows(doc: seq<Quad>, seen: map<Term, nat>, out: seq<Quad>, x: Term, d: nat)
    requires Kept(doc, seen, out) && x !in seen
    ensures Kept(doc, seen[x := d], out + About(doc, x))
  {
    forall q ensures multiset(out + About(doc, x))[q] == if q.s in seen[x := d] && Wanted(q) then multiset(doc)[q] else 0 {
      AboutCounts(doc, x, q);
    }
  }

  /** The nodes one visit adds to the frontier. */
  function Next(doc: seq<Quad>, x: Term, d: nat): Waiting {
    if d < DEFAULT_DEPTH then Pushed(About(doc, x), d + 1) else []
  }

  lemma NextSound(doc: seq<Quad>, root: Term, x: Term, d: nat)
    requires Owned(doc, root, x, d)
    ensures WaitingSound(doc, root, Next(doc, x, d))
    ensures d < DEFAULT_DEPTH ==> forall q | q in doc && q.s == x && Owns(q) :: Waits(Next(doc, x, d), q.o)
  {
    if d < DEFAULT_DEPTH {
      var about, next := About(doc, x), Next(doc, x, d);
      forall i | 0 <= i < |next| ensures Owned(doc, root, next[i].0, next[i].1) {
        var q := PushedFrom(about, d + 1, i);
        AboutExactly(doc, x, q);
        ReachesNext(Ownership(doc), root, x, q.o, d);
      }
      forall q | q in doc && q.s == x && Owns(q) ensures Waits(next, q.o) {
        AboutExactly(doc, x, q);
        PushedWaits(about, d + 1, q);
      }
    }
  }

  lemma VisitKeeps(doc: seq<Quad>, root: Term, seen: map<Term, nat>, frontier: Waiting, out: seq<Quad>, x: Term, d: nat)
    requires Walking(doc, root, seen, frontier, out)
    requires frontier != [] && frontier[|frontier| - 1] == (x, d) && x !in seen
    ensures x in Scope(doc, root)
    ensures Walking(doc, root, seen[x := d], frontier[..|frontier| - 1] + Next(doc, x, d), out + About(doc, x))
  {
    var rest, now, next := frontier[..|frontier| - 1], seen[x := d], Next(doc, x, d);
    assert Owned(doc, root, frontier[|frontier| - 1].0, frontier[|frontier| - 1].1);
    assert VisitedSound(doc, root, now);
    assert WaitingSound(doc, root, rest + next) by {
      NextSound(doc, root, x, d);
    }
    assert AllExpanded(doc, now, rest + next) by {
      StillWaits(frontier, next, now);
      StillExpanded(doc, seen, frontier, now, rest + next);
      NowExpanded(doc, root, now, rest, x, d);
    }
    assert Kept(doc, now, out + About(doc, x)) by {
      OutGrows(doc, seen, out, x, d);
    }
    assert root in now || Waits(rest + next, root) by {
      StillWaits(frontier, next, now);
    }
  }

  lemma NowExpanded(doc: seq<Quad>, root: Term, now: map<Term, nat>, rest: Waiting, x: Term, d: nat)
    requires Owned(doc, root, x, d)
    ensures d < DEFAULT_DEPTH ==> Expanded(doc, now, rest + Next(doc, x, d), x)
  {
    NextSound(doc, root, x, d);
    AppendedWaits(rest, Next(doc, x, d));
  }

  lemma AppendedWaits(rest: Waiting, next: Waiting)
    ensures forall y | Waits(next, y) :: Waits(rest + next, y)
  {
    forall y | Waits(next, y) ensures Waits(rest + next, y) {
      var i :| 0 <= i < |next| && next[i].0 == y;
      assert (rest + next)[|rest| + i].0 == y;
    }
  }

  /** Every kept statement of one node goes out; what it owns waits unless the limit is met. */
  method Visit(doc: seq<Quad>, x: Term, d: nat) returns (next: Waiting, out: seq<Quad>)
    ensures next == Next(doc, x, d) && out == About(doc, x)
  {
    var deeper := d < DEFAULT_DEPTH;
    next, out := [], [];
    for i := 0 to |doc|
      invariant out == About(doc[..i], x)
      invariant next == Next(doc[..i], x, d)
    {
      var q := doc[i];
      VisitStep(doc, x, d, i);
      if q.s == x && Wanted(q) {
        if Owns(q) && deeper {
          next := next + [(q.o, d + 1)];
        }
        out := out + [q];
      }
    }
    assert doc[..|doc|] == doc;
  }

  lemma VisitStep(doc: seq<Quad>, x: Term, d: nat, i: nat)
    requires i < |doc|
    ensures var q := doc[i];
            var here := q.s == x && Wanted(q);
            && About(doc[..i + 1], x) == About(doc[..i], x) + (if here then [q] else [])
            && Next(doc[..i + 1], x, d)
               == Next(doc[..i], x, d) + (if here && Owns(q) && d < DEFAULT_DEPTH then [(q.o, d + 1)] else [])
  {
    assert doc[..i + 1][..i] == doc[..i];
    var about := About(doc[..i], x);
    assert (about + [doc[i]])[..|about|] == about;
    assert about + [] == about;
  }

  method Walk(doc: seq<Quad>, root: Term) returns (seen: map<Term, nat>, out: seq<Quad>)
    ensures Walking(doc, root, seen, [], out)
  {
    seen, out := map[], [];
    var frontier: Waiting := [(root, 0)];
    Starts(doc, root);
    while frontier != []
      invariant Walking(doc, root, seen, frontier, out)
      decreases Scope(doc, root) - seen.Keys, |frontier|
    {
      var (node, depth) := frontier[|frontier| - 1];
      var rest := frontier[..|frontier| - 1];
      if node in seen {
        SkipKeeps(doc, root, seen, frontier, out);
        frontier := rest;
      } else {
        VisitKeeps(doc, root, seen, frontier, out, node, depth);
        assert node in Scope(doc, root) - seen.Keys;
        var next, kept := Visit(doc, node, depth);
        frontier, out := rest + next, out + kept;
        seen := seen[node := depth];
      }
    }
  }

  // ---------------------------------------------------------------------------- what is kept

  /** A trimmed document: the record and what it owns, each at most four ownership steps away, with all
      their wanted statements as often as the document makes them and nothing else. */
  ghost predicate Trimmed(doc: seq<Quad>, root: Term, seen: map<Term, nat>, out: seq<Quad>) {
    && root in seen
    && VisitedSound(doc, root, seen)
    && Kept(doc, seen, out)
    && forall q | q in doc && q.s in seen && seen[q.s] < DEFAULT_DEPTH && Owns(q) :: q.o in seen
  }

  /** `others` are the document's named subjects outside the stub, each once, in order. */
  method StubQuads(doc: seq<Quad>, iri: string) returns (out: seq<Quad>, others: seq<string>, ghost seen: map<Term, nat>)
    ensures Trimmed(doc, Named(iri), seen, out)
    ensures Text.Ascending(others)
    ensures forall x :: x in others <==> Named(x) !in seen && IsSubject(doc, x)
  {
    var visited: map<Term, nat>;
    visited, out := Walk(doc, Named(iri));
    forall q | q in doc && q.s in visited && visited[q.s] < DEFAULT_DEPTH && Owns(q) ensures q.o in visited {
      assert Expanded(doc, visited, [], q.s);
    }
    var found := Unvisited(doc, visited);
    others := Text.SortDedup(found);
    Text.SortDedupAscending(found);
    seen := visited;
  }

  ghost predicate IsSubject(doc: seq<Quad>, x: string) {
    exists q :: q in doc && q.s == Named(x)
  }

  method Unvisited(doc: seq<Quad>, visited: map<Term, nat>) returns (found: seq<string>)
    ensures forall x :: x in found <==> Named(x) !in visited && IsSubject(doc, x)
  {
    found := [];
    for i := 0 to |doc|
      invariant forall x :: x in found <==> Named(x) !in visited && IsSubject(doc[..i], x)
    {
      forall x ensures IsSubject(doc[..i + 1], x) <==> IsSubject(doc[..i], x) || doc[i].s == Named(x) {
        OneMoreSubject(doc, i, x);
      }
      if doc[i].s.Named? && doc[i].s !in visited {
        found := found + [doc[i].s.iri];
      }
    }
    assert doc[..|doc|] == doc;
  }

  lemma OneMoreSubject(doc: seq<Quad>, i: nat, x: string)
    requires i < |doc|
    ensures IsSubject(doc[..i + 1], x) <==> IsSubject(doc[..i], x) || doc[i].s == Named(x)
  {
    assert doc[..i + 1] == doc[..i] + [doc[i]];
    assert doc[i] in doc[..i + 1];
    forall q | q in doc[..i] ensures q in doc[..i + 1] {
    }
  }

  /** A statement is kept exactly if the model reads it and its subject is the record or owned by it. */
  lemma KeptExactly(doc: seq<Quad>, root: Term, seen: map<Term, nat>, out: seq<Quad>, q: Quad)
    requires Trimmed(doc, root, seen, out)
    ensures q in out <==> q in doc && Wanted(q) && q.s in seen
  {
    assert q in out <==> q in multiset(out);
    assert q in doc <==> q in multiset(doc);
  }

  /** The stub holds the whole ownership closure exactly if the visited nodes at the limit own nothing
      that was not visited anyway; in particular if there are none. */
  lemma WholeClosureIff(doc: seq<Quad>, root: Term, seen: map<Term, nat>, out: seq<Quad>)
    requires Trimmed(doc, root, seen, out)
    ensures (forall x :: x in seen <==> Reaches(Ownership(doc), root, x))
       <==> forall q | q in doc && q.s in seen && seen[q.s] == DEFAULT_DEPTH && Owns(q) :: q.o in seen
  {
    var owns := Ownership(doc);
    forall x | x in seen ensures Reaches(owns, root, x) {
      assert Owned(doc, root, x, seen[x]);
    }
    if forall q | q in doc && q.s in seen && seen[q.s] == DEFAULT_DEPTH && Owns(q) :: q.o in seen {
      forall e | e in owns && e.0 in seen.Keys ensures e.1 in seen.Keys {
        var q :| q in doc && Owns(q) && e == (q.s, q.o);
        assert Owned(doc, root, q.s, seen[q.s]);
      }
      ReachedExactly(owns, seen.Keys, root);
    } else {
      var q :| q in doc && q.s in seen && seen[q.s] == DEFAULT_DEPTH && Owns(q) && q.o !in seen;
      var k: nat :| ReachesIn(owns, root, q.s, k);
      assert (q.s, q.o) in owns;
      ReachesNext(owns, root, q.s, q.o, k);
      assert Reaches(owns, root, q.o);
    }
  }

  /** A record whose ownership runs less than four deep is always kept whole. */
  lemma ShallowIsWhole(doc: seq<Quad>, root: Term, seen: map<Term, nat>, out: seq<Quad>)
    requires Trimmed(doc, root, seen, out)
    requires forall x :: !ReachesIn(Ownership(doc), root, x, DEFAULT_DEPTH)
    ensures forall x :: x in seen <==> Reaches(Ownership(doc), root, x)
  {
    forall x | x in seen ensures seen[x] != DEFAULT_DEPTH {
      assert Owned(doc, root, x, seen[x]);
    }
    WholeClosureIff(doc, root, seen, out);
  }
}
