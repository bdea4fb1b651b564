/** Which registries a federated search reaches. With hop limits and time enough for the registries within reach
    and no fan-out cap in the way, the query reaches exactly what the peer graph reaches, whatever is lost. */
module Coverage {
  import opened Options
  import opened FanOut
  import opened Protocol
  import opened Reach

  ghost function PeerEdges(net: Net): set<(Iri, Iri)> {
    set r, p | r in net && p in net[r].peers :: (r, p)
  }

  /** A user starts a federated search at `origin`. */
  function Start(origin: Iri): State {
    State([Leg(None, origin, Request(true, false, None, None, [], None), 0, Sent, 0, 0, false)], {})
  }

  /** Time enough for `n` more legs of margin `m` each. */
  function Need(n: nat, m: nat): nat {
    if n == 0 then MIN_USEFUL_HOP_BUDGET else Need(n - 1, m) + m
  }

  lemma {:induction false} NeedGrows(n: nat, k: nat, m: nat)
    requires k <= n
    ensures MIN_USEFUL_HOP_BUDGET <= Need(k, m) <= Need(n, m)
  {
    if k < n {
      NeedGrows(n - 1, k, m);
    } else if n > 0 {
      NeedGrows(n - 1, k - 1, m);
    }
  }

  /** The registries a search started at `origin` can reach. */
  ghost function Within(net: Net, origin: Iri): set<Iri> {
    set r | r in net && Reaches(PeerEdges(net), origin, r)
  }

  /** Every registry within reach allows as many hops as there are registries within reach, has the time for
      them at margins of at most `m`, and has no more peers than its fan-out cap. */
  ghost predicate Generous(net: Net, origin: Iri, m: nat) {
    var n := |Within(net, origin)|;
    && Need(n, m) <= MAX_GRANTED_BUDGET
    && forall r | r in Within(net, origin) ::
         && net[r].maxHops >= n && net[r].hopMargin <= m && net[r].ownTimeout >= Need(n, m)
         && |net[r].peers| <= net[r].maxPeers
         && forall p | p in net[r].peers :: p in net
  }

  // ------------------------------------------------------------------------------ coverage

  /** Where a leg of an honest search is. */
  ghost predicate Placed(net: Net, origin: Iri, s: State, l: Leg) {
    && l.to in Within(net, origin)
    && (l.phase.Sent? || l.to in s.claimed)
    && l.depth <= |s.claimed| && (l.Accepted() ==> l.depth < |s.claimed|)
  }

  /** What its envelope says: `n` is the number of registries within reach. */
  ghost predicate Told(n: nat, m: nat, claimed: set<Iri>, l: Leg) {
    && l.req.federated && l.req.relayed == l.from.Some?
    && (forall p | p in l.req.path :: p in claimed)
    && (l.req.origin.Some? ==> l.req.origin.value in claimed)
    && (l.depth <= n && l.req.hops.Some? ==> l.req.hops.value >= n - l.depth)
    && (l.depth <= n && l.req.budget.Some? ==> l.req.budget.value >= Need(n - l.depth, m))
  }

  ghost predicate Honest(net: Net, origin: Iri, m: nat, s: State, l: Leg) {
    Placed(net, origin, s, l) && Told(|Within(net, origin)|, m, s.claimed, l)
  }

  /** A claimed registry's peer has claimed the query too, or a leg is on its way there. */
  ghost predicate Pursued(s: State, p: Iri) {
    p in s.claimed || exists k :: 0 <= k < |s.legs| && s.legs[k].phase.Sent? && s.legs[k].to == p
  }

  ghost predicate Flood(net: Net, origin: Iri, m: nat, s: State) {
    && s.legs != [] && s.legs[0].from.None? && s.legs[0].to == origin
    && s.claimed <= Within(net, origin)
    && (forall k {:trigger s.legs[k].from} | 0 < k < |s.legs| :: s.legs[k].from.Some?)
    && (forall k {:trigger Honest(net, origin, m, s, s.legs[k])} | 0 <= k < |s.legs| :: Honest(net, origin, m, s, s.legs[k]))
    && (forall r, p | r in s.claimed && p in net[r].peers :: Pursued(s, p))
  }

  lemma StartFloods(net: Net, origin: Iri, m: nat)
    requires origin in net
    ensures Flood(net, origin, m, Start(origin)) && Initial(Start(origin))
  {
    ReachesSelf(PeerEdges(net), origin);
  }

  lemma PeerWithin(net: Net, origin: Iri, m: nat, r: Iri, p: Iri)
    requires Generous(net, origin, m) && r in Within(net, origin) && p in net[r].peers
    ensures p in Within(net, origin)
  {
    var k: nat :| ReachesIn(PeerEdges(net), origin, r, k);
    assert (r, p) in PeerEdges(net);
    ReachesNext(PeerEdges(net), origin, r, p, k);
  }

  /** The claims cannot outnumber the registries within reach, so a leg about to be accepted has a hop left. */
  lemma HopLeft(net: Net, origin: Iri, m: nat, s: State, i: nat)
    requires Flood(net, origin, m, s) && i < |s.legs| && s.legs[i].phase.Sent? && s.legs[i].to !in s.claimed
    ensures s.legs[i].depth < |Within(net, origin)| && |s.claimed + {s.legs[i].to}| == |s.claimed| + 1
  {
    assert Honest(net, origin, m, s, s.legs[i]);
    SubsetSize(s.claimed + {s.legs[i].to}, Within(net, origin));
  }

  /** Accepted with `n - d` hops and the time for them, a leg passes on one hop and one margin less. */
  lemma BudgetsLeft(n: nat, m: nat, d: nat, reg: Registry, q: Request)
    requires d < n && reg.maxHops >= n && reg.hopMargin <= m && reg.ownTimeout >= Need(n, m) && Need(n, m) <= MAX_GRANTED_BUDGET
    requires q.hops.Some? ==> q.hops.value >= n - d
    requires q.budget.Some? ==> q.budget.value >= Need(n - d, m)
    ensures Granted(reg, q) > 0 && Forwarded(reg, q) >= n - d - 1 && ForwardBudget(reg, q) >= Need(n - d - 1, m)
  {
    NeedGrows(n, n - d, m);
    NeedGrows(n - d, n - d - 1, m);
    assert Need(n - d, m) == Need(n - d - 1, m) + m;
    assert TimeBudget(reg, q) >= Need(n - d, m);
  }

  lemma ChildTold(n: nat, m: nat, claimed: set<Iri>, me: Iri, reg: Registry, i: nat, l: Leg, p: Iri)
    requires Told(n, m, claimed, l) && l.to == me && l.depth < n
    requires reg.maxHops >= n && reg.hopMargin <= m && reg.ownTimeout >= Need(n, m) && Need(n, m) <= MAX_GRANTED_BUDGET
    ensures Granted(reg, l.req) > 0
    ensures Told(n, m, claimed + {me}, Leg(Some(i), p, ChildRequest(me, reg, l.req), l.depth + 1, Sent, 0, 0, false))
  {
    BudgetsLeft(n, m, l.depth, reg, l.req);
    PathTold(me, reg, l.req, claimed);
    var c := ChildRequest(me, reg, l.req);
    assert c.hops == Some(Forwarded(reg, l.req)) && c.budget == Some(Max(ForwardBudget(reg, l.req), 1));
    assert c.path == OutPath(me, reg, l.req) && c.origin == Some(KnownOrigin(l.req).GetOr(me));
    ToldBy(n, m, claimed + {me}, c, l.depth + 1, i, p);
  }

  lemma ToldBy(n: nat, m: nat, claimed: set<Iri>, c: Request, d: nat, i: nat, p: Iri)
    requires c.federated && c.relayed && c.hops.Some? && c.budget.Some? && c.origin.Some? && c.origin.value in claimed
    requires (forall x | x in c.path :: x in claimed) && d <= n && c.hops.value >= n - d && c.budget.value >= Need(n - d, m)
    ensures Told(n, m, claimed, Leg(Some(i), p, c, d, Sent, 0, 0, false))
  {
  }

  lemma PathTold(me: Iri, reg: Registry, q: Request, claimed: set<Iri>)
    requires forall p | p in q.path :: p in claimed
    requires q.origin.Some? ==> q.origin.value in claimed
    ensures forall p | p in OutPath(me, reg, q) :: p in claimed + {me}
    ensures KnownOrigin(q).GetOr(me) in claimed + {me}
  {
  }

  /** A leg accepted with the reach's worth of budget fans out to every peer that has not claimed the
      query, and its children carry the same promises one hop on. */
  lemma ChildHonest(net: Net, origin: Iri, m: nat, s: State, i: nat, t: State, p: Iri)
    requires Generous(net, origin, m) && Flood(net, origin, m, s) && Enabled(net, s, Arrive(i))
    requires s.legs[i].to !in s.claimed && t.claimed == s.claimed + {s.legs[i].to}
    requires p in Asked(s.legs[i].to, net[s.legs[i].to], s.legs[i].req)
    ensures Honest(net, origin, m, t, Child(net, i, s.legs[i], p))
  {
    var l := s.legs[i];
    assert Honest(net, origin, m, s, l);
    HopLeft(net, origin, m, s, i);
    assert p in Within(net, origin) by {
      AskedFacts(l.to, net[l.to], l.req);
      PeerWithin(net, origin, m, l.to, p);
    }
    assert Told(|Within(net, origin)|, m, t.claimed, Child(net, i, l, p)) by {
      ChildTold(|Within(net, origin)|, m, s.claimed, l.to, net[l.to], i, l, p);
    }
  }

  lemma AllAsked(net: Net, origin: Iri, m: nat, s: State, i: nat, p: Iri)
    requires Generous(net, origin, m) && Flood(net, origin, m, s) && Enabled(net, s, Arrive(i))
    requires s.legs[i].to !in s.claimed && p in net[s.legs[i].to].peers
    ensures p in s.claimed + {s.legs[i].to} || p in Asked(s.legs[i].to, net[s.legs[i].to], s.legs[i].req)
  {
    var l := s.legs[i];
    assert Honest(net, origin, m, s, l);
    HopLeft(net, origin, m, s, i);
    ChildTold(|Within(net, origin)|, m, s.claimed, l.to, net[l.to], i, l, p);
    AskedFacts(l.to, net[l.to], l.req);
  }

  /** What a step leaves of an old leg. */
  lemma OldLeg(net: Net, s: State, e: Event, k: nat)
    requires Enabled(net, s, e) && k < |s.legs|
    ensures var t, l := Apply(net, s, e), s.legs[k];
            var u := t.legs[k];
            && s.claimed <= t.claimed && u.from == l.from && u.to == l.to && u.req == l.req && u.depth == l.depth
            && (u.phase.Sent? ==> l.phase.Sent?)
            && (u.Accepted() && !l.Accepted() ==> l.to !in s.claimed && t.claimed == s.claimed + {l.to})
            && (l.phase.Sent? && !u.phase.Sent? ==> l.to in t.claimed)
  {
  }

  lemma OldHonestKept(net: Net, origin: Iri, m: nat, s: State, e: Event, k: nat)
    requires Flood(net, origin, m, s) && Enabled(net, s, e) && k < |s.legs|
    ensures Honest(net, origin, m, Apply(net, s, e), Apply(net, s, e).legs[k])
  {
    OldLeg(net, s, e, k);
    assert Honest(net, origin, m, s, s.legs[k]);
    StillHonest(net, origin, m, s, Apply(net, s, e), s.legs[k], Apply(net, s, e).legs[k]);
  }

  lemma StillHonest(net: Net, origin: Iri, m: nat, s: State, t: State, l: Leg, u: Leg)
    requires Honest(net, origin, m, s, l) && s.claimed <= t.claimed
    requires u.from == l.from && u.to == l.to && u.req == l.req && u.depth == l.depth && (u.phase.Sent? ==> l.phase.Sent?)
    requires u.Accepted() && !l.Accepted() ==> l.to !in s.claimed && t.claimed == s.claimed + {l.to}
    requires l.phase.Sent? && !u.phase.Sent? ==> l.to in t.claimed
    ensures Honest(net, origin, m, t, u)
  {
    SubsetSize(s.claimed, t.claimed);
    assert Told(|Within(net, origin)|, m, t.claimed, u);
    assert u.Accepted() && !l.Accepted() ==> |t.claimed| == |s.claimed| + 1;
  }

  lemma NewHonest(net: Net, origin: Iri, m: nat, s: State, i: nat, k: nat)
    requires Generous(net, origin, m) && Flood(net, origin, m, s) && Enabled(net, s, Arrive(i))
    requires |s.legs| <= k < |Apply(net, s, Arrive(i)).legs|
    ensures Honest(net, origin, m, Apply(net, s, Arrive(i)), Apply(net, s, Arrive(i)).legs[k])
  {
    var l, t := s.legs[i], Apply(net, s, Arrive(i));
    ChildHonest(net, origin, m, s, i, t, Asked(l.to, net[l.to], l.req)[k - |s.legs|]);
    assert t.legs[k] == Children(net, i, l)[k - |s.legs|];
  }

  lemma HonestKept(net: Net, origin: Iri, m: nat, s: State, e: Event)
    requires Generous(net, origin, m) && Flood(net, origin, m, s) && Enabled(net, s, e)
    ensures var t := Apply(net, s, e);
            forall k {:trigger Honest(net, origin, m, t, t.legs[k])} | 0 <= k < |t.legs| :: Honest(net, origin, m, t, t.legs[k])
  {
    var t := Apply(net, s, e);
    forall k | 0 <= k < |t.legs|
      ensures Honest(net, origin, m, t, t.legs[k])
    {
      if k < |s.legs| {
        OldHonestKept(net, origin, m, s, e, k);
      } else {
        NewHonest(net, origin, m, s, e.leg, k);
      }
    }
  }

  lemma PursuitKept(net: Net, s: State, e: Event, p: Iri)
    requires Enabled(net, s, e) && Pursued(s, p)
    ensures Pursued(Apply(net, s, e), p)
  {
    if p !in s.claimed {
      var k :| 0 <= k < |s.legs| && s.legs[k].phase.Sent? && s.legs[k].to == p;
      OldLeg(net, s, e, k);
      var u := Apply(net, s, e).legs[k];
      assert u.phase.Sent? ==> u.to == p;
    }
  }

  lemma NewPursued(net: Net, origin: Iri, m: nat, s: State, i: nat, p: Iri)
    requires Generous(net, origin, m) && Flood(net, origin, m, s) && Enabled(net, s, Arrive(i))
    requires s.legs[i].to !in s.claimed && p in net[s.legs[i].to].peers
    ensures Pursued(Apply(net, s, Arrive(i)), p)
  {
    var l, t := s.legs[i], Apply(net, s, Arrive(i));
    AllAsked(net, origin, m, s, i, p);
    if p !in t.claimed {
      var asked := Asked(l.to, net[l.to], l.req);
      var j :| 0 <= j < |asked| && asked[j] == p;
      assert t.legs[|s.legs| + j] == Children(net, i, l)[j];
    }
  }

  lemma FloodKept(net: Net, origin: Iri, m: nat, s: State, e: Event)
    requires Generous(net, origin, m) && Flood(net, origin, m, s) && Enabled(net, s, e)
    ensures Flood(net, origin, m, Apply(net, s, e))
  {
    var t := Apply(net, s, e);
    HonestKept(net, origin, m, s, e);
    assert Honest(net, origin, m, s, s.legs[e.leg]);
    OldLeg(net, s, e, 0);
    forall r, p | r in t.claimed && p in net[r].peers
      ensures Pursued(t, p)
    {
      if r in s.claimed {
        assert Pursued(s, p);
        PursuitKept(net, s, e, p);
      } else {
        NewPursued(net, origin, m, s, e.leg, p);
      }
    }
    OnlyOneRoot(net, s, e);
  }

  lemma OnlyOneRoot(net: Net, s: State, e: Event)
    requires Enabled(net, s, e) && forall k | 0 < k < |s.legs| :: s.legs[k].from.Some?
    ensures forall k | 0 < k < |Apply(net, s, e).legs| :: Apply(net, s, e).legs[k].from.Some?
  {
    var t := Apply(net, s, e);
    forall k | 0 < k < |t.legs| ensures t.legs[k].from.Some? {
      if k < |s.legs| {
        OldLeg(net, s, e, k);
      } else {
        assert t.legs[k] == Children(net, e.leg, s.legs[e.leg])[k - |s.legs|];
      }
    }
  }

  lemma {:induction false} RunFloods(net: Net, origin: Iri, m: nat, s: State, es: seq<Event>)
    requires Generous(net, origin, m) && Flood(net, origin, m, s) && Runs(net, s, es)
    ensures Flood(net, origin, m, Final(net, s, es))
    decreases |es|
  {
    if es != [] {
      FloodKept(net, origin, m, s, es[0]);
      RunFloods(net, origin, m, Apply(net, s, es[0]), es[1..]);
    }
  }

  /** No request is under way. */
  ghost predicate Quiet(s: State) {
    forall k | 0 <= k < |s.legs| :: !s.legs[k].phase.Sent?
  }

  /** Coverage. Whatever the order of events and whatever was lost, once no request is under way the registries
      that have claimed the query are exactly those reachable from the origin over active-peer edges: whoever
      was skipped had already claimed it. */
  lemma CoversExactlyTheReachable(net: Net, origin: Iri, m: nat, es: seq<Event>)
    requires Generous(net, origin, m) && origin in net
    requires Runs(net, Start(origin), es) && Quiet(Final(net, Start(origin), es))
    ensures forall r :: r in Final(net, Start(origin), es).claimed <==> Reaches(PeerEdges(net), origin, r)
  {
    var s, t := Start(origin), Final(net, Start(origin), es);
    StartFloods(net, origin, m);
    RunFloods(net, origin, m, s, es);
    forall e | e in PeerEdges(net) && e.0 in t.claimed
      ensures e.1 in t.claimed
    {
      assert Pursued(t, e.1);
    }
    forall r | r in t.claimed
      ensures Reaches(PeerEdges(net), origin, r)
    {
      assert r in Within(net, origin);
    }
    assert Honest(net, origin, m, t, t.legs[0]);
    ReachedExactly(PeerEdges(net), t.claimed, origin);
  }
}
