/** The transitive closure of an ontology's named superclass edges (demo/apps/onto_app.py 280-300). */
module Subclasses {
  import opened Reach

  type Iri = string
  type Edges = set<(Iri, Iri)>

  /** `b` is above `a`: joined to it by a path of at least one edge. */
  ghost predicate Above(edges: Edges, a: Iri, b: Iri) {
    exists k: nat :: ReachesIn(edges, a, b, k) && k >= 1
  }

  ghost predicate Entails(asserted: Edges, e: (Iri, Iri)) {
    Above(asserted, e.0, e.1) && e !in asserted && e.0 != e.1
  }

  function ParentsOf(asserted: Edges, child: Iri): set<Iri> {
    set e | e in asserted && e.0 == child :: e.1
  }

  function Get(parents: map<Iri, set<Iri>>, c: Iri): set<Iri> {
    if c in parents then parents[c] else {}
  }

  ghost predicate Groups(parents: map<Iri, set<Iri>>, asserted: Edges) {
    forall c, p :: p in Get(parents, c) <==> (c, p) in asserted
  }

  method Group(asserted: Edges) returns (parents: map<Iri, set<Iri>>)
    ensures Groups(parents, asserted)
  {
    parents := map[];
    var left := asserted;
    while left != {}
      invariant left <= asserted
      invariant Groups(parents, asserted - left)
    {
      var e :| e in left;
      left := left - {e};
      assert asserted - left == (asserted - (left + {e})) + {e};
      parents := parents[e.0 := Get(parents, e.0) + {e.1}];
    }
    assert asserted - left == asserted;
  }

  method Listed(s: set<Iri>) returns (r: seq<Iri>)
    ensures forall x :: x in r <==> x in s
  {
    r := [];
    var left := s;
    while left != {}
      invariant left <= s
      invariant forall x :: x in r <==> x in s - left
    {
      var x :| x in left;
      left := left - {x};
      r := r + [x];
    }
  }

  lemma AboveNext(edges: Edges, a: Iri, b: Iri, c: Iri)
    requires Above(edges, a, b) && (b, c) in edges
    ensures Above(edges, a, c)
  {
    var k: nat :| ReachesIn(edges, a, b, k) && k >= 1;
    ReachesNext(edges, a, b, c, k);
  }

  lemma AboveStep(edges: Edges, a: Iri, b: Iri)
    requires (a, b) in edges
    ensures Above(edges, a, b)
  {
    ReachesStep(edges, a, b);
  }

  /** Whatever holds the parents of `child` and is closed under parents holds everything above it. */
  lemma ClosedHoldsAbove(edges: Edges, seen: set<Iri>, child: Iri, b: Iri)
    requires ClosedUnder(edges, seen) && ParentsOf(edges, child) <= seen && Above(edges, child, b)
    ensures b in seen
  {
    var k: nat :| ReachesIn(edges, child, b, k) && k >= 1;
    var c := ReachesFirst(edges, child, b, k - 1);
    assert (child, c) in edges && c in ParentsOf(edges, child);
    ClosedHoldsReached(edges, seen, c, b, k - 1);
  }

  function Targets(edges: Edges): set<Iri> {
    set e | e in edges :: e.1
  }

  /** Every parent of `child`, and of what was seen, is seen or still waits. */
  ghost predicate Pending(edges: Edges, child: Iri, seen: set<Iri>, frontier: seq<Iri>) {
    forall e | e in edges && (e.0 == child || e.0 in seen) :: e.1 in seen || e.1 in frontier
  }

  ghost predicate OnlyAbove(edges: Edges, child: Iri, seen: set<Iri>, frontier: seq<Iri>) {
    forall x | x in seen || x in frontier :: Above(edges, child, x) && x in Targets(edges)
  }

  /** One walk upwards. It ends on cycles too: a class is expanded once. */
  method Ancestors(parents: map<Iri, set<Iri>>, child: Iri, ghost asserted: Edges) returns (seen: set<Iri>)
    requires Groups(parents, asserted)
    ensures forall b :: b in seen <==> Above(asserted, child, b)
  {
    seen := {};
    var frontier := Listed(Get(parents, child));
    forall x | x in frontier ensures Above(asserted, child, x) && x in Targets(asserted) {
      assert (child, x) in asserted;
      AboveStep(asserted, child, x);
    }
    assert Pending(asserted, child, seen, frontier);
    while frontier != []
      invariant OnlyAbove(asserted, child, seen, frontier)
      invariant Pending(asserted, child, seen, frontier)
      decreases Targets(asserted) - seen, |frontier|
    {
      var p := frontier[|frontier| - 1];
      var rest := frontier[..|frontier| - 1];
      assert frontier == rest + [p];
      if p in seen {
        frontier := rest;
      } else {
        var above := Listed(Get(parents, p));
        ghost var before := seen;
        seen := seen + {p};
        forall x | x in above ensures Above(asserted, child, x) && x in Targets(asserted) {
          assert (p, x) in asserted;
          AboveNext(asserted, child, p, x);
        }
        forall e | e in asserted && (e.0 == child || e.0 in seen) ensures e.1 in seen || e.1 in rest + above {
          if e.0 == p {
            assert e == (p, e.1);
          }
        }
        frontier := rest + above;
        assert p in Targets(asserted) - before && p !in Targets(asserted) - seen;
      }
    }
    forall b | Above(asserted, child, b) ensures b in seen {
      ClosedHoldsAbove(asserted, seen, child, b);
    }
  }

  /** The entailed edges are exactly the pairs joined by a path of asserted edges that are neither asserted
      nor reflexive, whatever cycles the ontology holds. */
  method Ingest(asserted: Edges) returns (entailed: Edges)
    ensures forall e :: e in entailed <==> Entails(asserted, e)
  {
    var parents := Group(asserted);
    entailed := {};
    var left := parents.Keys;
    while left != {}
      invariant left <= parents.Keys
      invariant forall e :: e in entailed <==> e.0 in parents.Keys - left && Entails(asserted, e)
    {
      var child :| child in left;
      left := left - {child};
      var seen := Ancestors(parents, child, asserted);
      entailed := entailed + set a | a in seen && (child, a) !in asserted && child != a :: (child, a);
    }
    forall e | Entails(asserted, e) ensures e.0 in parents {
      var k: nat :| ReachesIn(asserted, e.0, e.1, k) && k >= 1;
      var c := ReachesFirst(asserted, e.0, e.1, k - 1);
      assert c in Get(parents, e.0);
    }
  }

  // ------------------------------------------------------------------------- what they amount to

  /** Paths over the asserted and the entailed edges together lead nowhere new. */
  lemma {:induction false} NothingNew(asserted: Edges, all: Edges, a: Iri, b: Iri, k: nat)
    requires forall e | e in all :: Above(asserted, e.0, e.1)
    requires ReachesIn(all, a, b, k + 1)
    ensures Above(asserted, a, b)
    decreases k
  {
    if k == 0 {
      var c := ReachesLast(all, a, b, 0);
      assert c == a;
      assert (a, b) in all;
    } else {
      var c := ReachesLast(all, a, b, k);
      NothingNew(asserted, all, a, c, k - 1);
      assert (c, b) in all;
      AboveJoin(asserted, a, c, b);
    }
  }

  lemma AboveJoin(edges: Edges, a: Iri, b: Iri, c: Iri)
    requires Above(edges, a, b) && Above(edges, b, c)
    ensures Above(edges, a, c)
  {
    var k: nat :| ReachesIn(edges, b, c, k) && k >= 1;
    AboveJoinIn(edges, a, b, c, k - 1);
  }

  lemma {:induction false} AboveJoinIn(edges: Edges, a: Iri, b: Iri, c: Iri, k: nat)
    requires Above(edges, a, b) && ReachesIn(edges, b, c, k + 1)
    ensures Above(edges, a, c)
    decreases k
  {
    var m := ReachesLast(edges, b, c, k);
    if k == 0 {
      assert m == b;
    } else {
      AboveJoinIn(edges, a, b, m, k - 1);
    }
    AboveNext(edges, a, m, c);
  }

  /** Materialising the entailed edges is final: read back as asserted, they entail nothing more, and no
      pair is above another that was not before. */
  lemma MaterialisedIsClosed(asserted: Edges, entailed: Edges)
    requires forall e :: e in entailed <==> Entails(asserted, e)
    ensures forall e :: !Entails(asserted + entailed, e)
    ensures forall a, b :: Above(asserted + entailed, a, b) <==> Above(asserted, a, b)
  {
    var all := asserted + entailed;
    forall e | e in all ensures Above(asserted, e.0, e.1) {
      if e in asserted {
        AboveStep(asserted, e.0, e.1);
      }
    }
    forall a, b ensures Above(all, a, b) <==> Above(asserted, a, b) {
      if Above(all, a, b) {
        var k: nat :| ReachesIn(all, a, b, k) && k >= 1;
        NothingNew(asserted, all, a, b, k - 1);
      }
      if Above(asserted, a, b) {
        var k: nat :| ReachesIn(asserted, a, b, k) && k >= 1;
        MorePaths(asserted, all, a, b, k);
      }
    }
  }

  lemma MorePaths(few: Edges, all: Edges, a: Iri, b: Iri, k: nat)
    requires few <= all && ReachesIn(few, a, b, k)
    ensures ReachesIn(all, a, b, k)
  {
    var p :| IsPath(few, p) && |p| == k + 1 && p[0] == a && p[k] == b;
    assert IsPath(all, p);
  }
}
