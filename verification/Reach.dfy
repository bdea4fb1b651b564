/** Paths over a finite edge relation. The lineage walk, the stub walk, the subclass closure and
    the federated search are all stated against these two predicates. */
module Reach {
  ghost predicate IsPath<N(!new)>(edges: set<(N, N)>, p: seq<N>) {
    |p| >= 1 && forall i | 0 <= i < |p| - 1 :: (p[i], p[i + 1]) in edges
  }

  /** `b` is reached from `a` in exactly `k` steps. */
  ghost predicate ReachesIn<N(!new)>(edges: set<(N, N)>, a: N, b: N, k: nat) {
    exists p: seq<N> :: IsPath(edges, p) && |p| == k + 1 && p[0] == a && p[k] == b
  }

  ghost predicate Reaches<N(!new)>(edges: set<(N, N)>, a: N, b: N) {
    exists k: nat :: ReachesIn(edges, a, b, k)
  }

  ghost predicate ClosedUnder<N(!new)>(edges: set<(N, N)>, s: set<N>) {
    forall e | e in edges && e.0 in s :: e.1 in s
  }

  lemma ReachesSelf<N(!new)>(edges: set<(N, N)>, a: N)
    ensures ReachesIn(edges, a, a, 0)
  {
    assert IsPath(edges, [a]);
  }

  lemma ReachesNext<N(!new)>(edges: set<(N, N)>, a: N, b: N, c: N, k: nat)
    requires ReachesIn(edges, a, b, k) && (b, c) in edges
    ensures ReachesIn(edges, a, c, k + 1)
  {
    var p :| IsPath(edges, p) && |p| == k + 1 && p[0] == a && p[k] == b;
    assert IsPath(edges, p + [c]) by {
      forall i | 0 <= i < |p + [c]| - 1
        ensures ((p + [c])[i], (p + [c])[i + 1]) in edges
      {
        if i == k {} else {}
      }
    }
  }

  lemma ReachesStep<N(!new)>(edges: set<(N, N)>, a: N, b: N)
    requires (a, b) in edges
    ensures ReachesIn(edges, a, b, 1)
  {
    ReachesSelf(edges, a);
    ReachesNext(edges, a, a, b, 0);
  }

  /** Taking the first step away: a path of `k + 1` steps starts with an edge. */
  lemma ReachesFirst<N(!new)>(edges: set<(N, N)>, a: N, c: N, k: nat) returns (b: N)
    requires ReachesIn(edges, a, c, k + 1)
    ensures (a, b) in edges && ReachesIn(edges, b, c, k)
  {
    var p :| IsPath(edges, p) && |p| == k + 2 && p[0] == a && p[k + 1] == c;
    b := p[1];
    assert (p[0], p[0 + 1]) in edges;
    assert IsPath(edges, p[1..]) by {
      forall i | 0 <= i < |p[1..]| - 1
        ensures (p[1..][i], p[1..][i + 1]) in edges
      {
        assert (p[i + 1], p[(i + 1) + 1]) in edges;
      }
    }
  }

  /** A path of `k + 1` steps ends with an edge. */
  lemma ReachesLast<N(!new)>(edges: set<(N, N)>, a: N, c: N, k: nat) returns (b: N)
    requires ReachesIn(edges, a, c, k + 1)
    ensures ReachesIn(edges, a, b, k) && (b, c) in edges
  {
    var p :| IsPath(edges, p) && |p| == k + 2 && p[0] == a && p[k + 1] == c;
    b := p[k];
    assert (p[k], p[k + 1]) in edges;
    assert IsPath(edges, p[..k + 1]);
  }

  /** A set closed under the edges holds everything reached from its members. */
  lemma {:induction false} ClosedHoldsReached<N(!new)>(edges: set<(N, N)>, s: set<N>, a: N, b: N, k: nat)
    requires ClosedUnder(edges, s) && a in s && ReachesIn(edges, a, b, k)
    ensures b in s
    decreases k
  {
    if k == 0 {
    } else {
      var c := ReachesLast(edges, a, b, k - 1);
      ClosedHoldsReached(edges, s, a, c, k - 1);
      assert (c, b) in edges;
    }
  }

  /** The set of everything reached from `a` is the least closed set holding `a`: a set with the
      listed soundness and closure is exactly it. */
  lemma ReachedExactly<N(!new)>(edges: set<(N, N)>, s: set<N>, a: N)
    requires a in s && ClosedUnder(edges, s)
    requires forall b | b in s :: Reaches(edges, a, b)
    ensures forall b :: b in s <==> Reaches(edges, a, b)
  {
    forall b | Reaches(edges, a, b)
      ensures b in s
    {
      var k: nat :| ReachesIn(edges, a, b, k);
      ClosedHoldsReached(edges, s, a, b, k);
    }
  }
}
