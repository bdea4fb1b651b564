/** The way a query does not go (src/api/search.rs 177-205): no leg is sent to a registry that stands earlier on the
    chain of legs it comes from, so a loop is not even tried. */
module NoWayBack {
  import opened Options
  import opened FanOut
  import opened Protocol
  import opened Coverage
  import opened Completeness
  import opened HopsRunOut
  import opened Conservation

  /** Leg `j` is on the chain that led to leg `k`. */
  ghost predicate Before(s: State, j: nat, k: nat)
    ensures Before(s, j, k) ==> j < k < |s.legs|
    decreases k
  {
    k < |s.legs| && s.legs[k].from.Some? && s.legs[k].from.value < k
    && (s.legs[k].from.value == j || Before(s, j, s.legs[k].from.value))
  }

  /** Every registry on the chain reads the whole path it is sent, and can stand on one. */
  ghost predicate PathsFit(net: Net, s: State, k: nat) {
    forall i | 0 <= i < |s.legs| && Before(s, i, k) && s.legs[i].to in net ::
      Fit(s.legs[i].to) && |s.legs[i].req.path| <= net[s.legs[i].to].maxHops + 2
  }

  lemma EarlierBefore(s: State, i: nat, j: nat, k: nat)
    requires Before(s, i, j) && Before(s, j, k)
    ensures Before(s, i, k)
    decreases k
  {
    if s.legs[k].from.value != j {
      EarlierBefore(s, i, j, s.legs[k].from.value);
    }
  }

  /** What fits is read whole. */
  lemma PathKept(me: Iri, reg: Registry, q: Request, p: Iri)
    requires |q.path| <= reg.maxHops + 2 && ((p in q.path && Fit(p)) || p == me)
    ensures p in OutPath(me, reg, q)
  {
    OutPathFacts(me, reg, q);
    PathIsFirstWanted(q.path, reg.maxHops + 2);
    WantedFacts(q.path);
    WantedNoLonger(q.path);
  }

  /** As long as the paths fit, every registry on the chain stands on the path of the leg, and the leg goes to none
      of them. */
  lemma {:induction false} NoLegTurnsBack(net: Net, s: State, j: nat, k: nat)
    requires Inv(net, s) && Before(s, j, k) && PathsFit(net, s, k)
    ensures s.legs[j].to in s.legs[k].req.path && s.legs[k].to != s.legs[j].to
    decreases k
  {
    assert HasSender(net, s, k);
    var i := s.legs[k].from.value;
    var l, c := s.legs[i], s.legs[k];
    assert ChildOf(net, s, i, k) && Before(s, i, k);
    if i != j {
      forall h | 0 <= h < |s.legs| && Before(s, h, i) && s.legs[h].to in net
        ensures Fit(s.legs[h].to) && |s.legs[h].req.path| <= net[s.legs[h].to].maxHops + 2
      {
        EarlierBefore(s, h, i, k);
      }
      NoLegTurnsBack(net, s, j, i);
      ToKnown(net, s, j, i);
    }
    PathKept(l.to, net[l.to], l.req, s.legs[j].to);
    AskedExactly(l.to, net[l.to], l.req);
  }

  lemma {:induction false} ToKnown(net: Net, s: State, j: nat, k: nat)
    requires Inv(net, s) && Before(s, j, k)
    ensures s.legs[j].to in net
    decreases k
  {
    assert HasSender(net, s, k);
    if s.legs[k].from.value != j {
      ToKnown(net, s, j, s.legs[k].from.value);
    }
  }

  // ------------------------------------------------------------------------- a whole search

  /** A leg's depth and the hops it still has fit the limit the search started with, and its path is no longer than
      it is deep. */
  lemma {:induction false} DepthFits(net: Net, origin: Iri, s: State, k: nat)
    requires Searched(net, origin, s) && k < |s.legs| && origin in net && s.legs[0].depth == 0
    ensures s.legs[k].depth <= net[origin].maxHops && |s.legs[k].req.path| <= s.legs[k].depth
    ensures k > 0 ==> s.legs[k].req.hops.Some? && s.legs[k].depth + s.legs[k].req.hops.value <= net[origin].maxHops
    decreases k
  {
    if k > 0 {
      assert HasSender(net, s, k);
      var i := s.legs[k].from.value;
      var l := s.legs[i];
      assert ChildOf(net, s, i, k);
      DepthFits(net, origin, s, i);
      AskedExactly(l.to, net[l.to], l.req);
      assert Granted(net[l.to], l.req) > 0;
      PathIsFirstWanted(l.req.path, net[l.to].maxHops + 2);
      WantedNoLonger(l.req.path);
      OutPathFacts(l.to, net[l.to], l.req);
    }
  }

  /** Over every run of a search among registries whose hop limits differ by two at most, no leg goes back to a
      registry on its own chain. */
  lemma SearchNeverTurnsBack(net: Net, origin: Iri, es: seq<Event>, j: nat, k: nat)
    requires Runs(net, Start(origin), es) && Before(Final(net, Start(origin), es), j, k) && origin in net
    requires forall r | r in net :: Fit(r) && net[origin].maxHops <= net[r].maxHops + 2
    ensures var s := Final(net, Start(origin), es); s.legs[k].to != s.legs[j].to
  {
    var s := Final(net, Start(origin), es);
    RunSearched(net, origin, es);
    assert s.legs[0].depth == 0 by {
      RunLater(net, Start(origin), es);
      assert SameStory(Start(origin).legs[0], s.legs[0]);
    }
    forall i | 0 <= i < |s.legs| && Before(s, i, k) && s.legs[i].to in net
      ensures Fit(s.legs[i].to) && |s.legs[i].req.path| <= net[s.legs[i].to].maxHops + 2
    {
      DepthFits(net, origin, s, i);
    }
    NoLegTurnsBack(net, s, j, k);
  }
}
