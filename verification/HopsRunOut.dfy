/** What a search does not reach (src/api/search.rs 161-236): exactly when a quiet search has covered everything, and a
    search at the default settings that has not, of which nobody is told by `partial`. */
module HopsRunOut {
  import opened Options
  import opened Copies
  import opened FanOut
  import opened Protocol
  import opened Reach
  import opened Coverage
  import opened Conservation
  import opened Completeness
  import opened SearchAnswer
  import opened SilentCut
  import Bounds

  // ------------------------------------------------------------------------- what legs stand for

  /** Whoever a request has come to has claimed the query. */
  ghost predicate Arrived(s: State) {
    forall k | 0 <= k < |s.legs| && !s.legs[k].phase.Sent? :: s.legs[k].to in s.claimed
  }

  lemma StepArrives(net: Net, s: State, e: Event)
    requires Enabled(net, s, e) && Arrived(s)
    ensures Arrived(Apply(net, s, e))
  {
    var t := Apply(net, s, e);
    forall k | 0 <= k < |t.legs| ensures !t.legs[k].phase.Sent? ==> t.legs[k].to in t.claimed {
      if k < |s.legs| {
        OldLeg(net, s, e, k);
      } else {
        assert t.legs[k] == Children(net, e.leg, s.legs[e.leg])[k - |s.legs|];
      }
    }
  }

  lemma {:induction false} RunArrives(net: Net, s: State, es: seq<Event>)
    requires Runs(net, s, es) && Arrived(s)
    ensures Arrived(Final(net, s, es))
    decreases |es|
  {
    if es != [] {
      StepArrives(net, s, es[0]);
      RunArrives(net, Apply(net, s, es[0]), es[1..]);
    }
  }

  /** A state a search from `origin` can come to. */
  ghost predicate Searched(net: Net, origin: Iri, t: State) {
    && Inv(net, t) && Arrived(t) && OneRoot(t)
    && t.legs[0].to == origin && t.legs[0].req == UserRequest
  }

  lemma RunSearched(net: Net, origin: Iri, es: seq<Event>)
    requires Runs(net, Start(origin), es)
    ensures Searched(net, origin, Final(net, Start(origin), es))
  {
    var s := Start(origin);
    Bounds.InitialInv(net, s);
    RunKeepsInv(net, s, es);
    RunArrives(net, s, es);
    RunOneRoot(net, s, es);
    RunLater(net, s, es);
    assert SameStory(s.legs[0], Final(net, s, es).legs[0]);
  }

  /** A leg goes to what can be reached, and names nobody who has not claimed the query. */
  ghost predicate WellSent(net: Net, origin: Iri, t: State, l: Leg) {
    && Reaches(PeerEdges(net), origin, l.to) && l.req.federated
    && (forall p | p in l.req.path :: p in t.claimed) && (l.req.origin.Some? ==> l.req.origin.value in t.claimed)
  }

  lemma {:induction false} LegSound(net: Net, origin: Iri, t: State, k: nat)
    requires Searched(net, origin, t) && k < |t.legs|
    ensures WellSent(net, origin, t, t.legs[k])
    decreases k
  {
    if k == 0 {
      ReachesSelf(PeerEdges(net), origin);
    } else {
      assert HasSender(net, t, k);
      var i := t.legs[k].from.value;
      assert OwnsBlock(net, t, i) && ChildOf(net, t, i, k);
      LegSound(net, origin, t, i);
      ChildSound(net, origin, t, t.legs[i], t.legs[k]);
    }
  }

  lemma ChildSound(net: Net, origin: Iri, t: State, l: Leg, c: Leg)
    requires WellSent(net, origin, t, l) && l.to in net && l.to in t.claimed
    requires c.to in Asked(l.to, net[l.to], l.req) && c.req == ChildRequest(l.to, net[l.to], l.req)
    ensures WellSent(net, origin, t, c)
  {
    AskedFacts(l.to, net[l.to], l.req);
    var n: nat :| ReachesIn(PeerEdges(net), origin, l.to, n);
    assert (l.to, c.to) in PeerEdges(net);
    ReachesNext(PeerEdges(net), origin, l.to, c.to, n);
  }

  // ------------------------------------------------------------------ exactly when all is covered

  /** Whoever has claimed the query has peers who have. */
  ghost predicate NoEdgeOut(net: Net, t: State) {
    forall e | e in PeerEdges(net) && e.0 in t.claimed :: e.1 in t.claimed
  }

  ghost predicate CoversAll(net: Net, origin: Iri, t: State) {
    forall r :: r in t.claimed <==> Reaches(PeerEdges(net), origin, r)
  }

  lemma CoversAllIffNoEdgeOut(net: Net, origin: Iri, t: State)
    requires Searched(net, origin, t) && Quiet(t)
    ensures CoversAll(net, origin, t) <==> NoEdgeOut(net, t)
  {
    assert origin in t.claimed;
    forall r | r in t.claimed ensures Reaches(PeerEdges(net), origin, r) {
      assert Claimant(t, r);
      var k :| 0 <= k < |t.legs| && t.legs[k].Accepted() && t.legs[k].to == r;
      LegSound(net, origin, t, k);
    }
    if NoEdgeOut(net, t) {
      ReachedExactly(PeerEdges(net), t.claimed, origin);
    } else {
      var e :| e in PeerEdges(net) && e.0 in t.claimed && e.1 !in t.claimed;
      var n: nat :| ReachesIn(PeerEdges(net), origin, e.0, n);
      ReachesNext(PeerEdges(net), origin, e.0, e.1, n);
      assert Reaches(PeerEdges(net), origin, e.1);
    }
  }

  /** The registry had no hop left for this leg, or more peers to ask than it may. */
  predicate Starved(net: Net, l: Leg)
    requires l.to in net
  {
    Granted(net[l.to], l.req) == 0 || Capped(l.to, net[l.to], l.req)
  }

  /** With a hop left and no cap met a registry asks every peer that has not claimed the query. */
  lemma AsksUnclaimed(net: Net, origin: Iri, t: State, i: nat, p: Iri)
    requires Searched(net, origin, t) && i < |t.legs| && t.legs[i].Accepted() && t.legs[i].to in net
    requires p in net[t.legs[i].to].peers && p !in t.claimed && !Starved(net, t.legs[i])
    ensures p in Asked(t.legs[i].to, net[t.legs[i].to], t.legs[i].req)
  {
    var l := t.legs[i];
    assert OwnsBlock(net, t, i);
    LegSound(net, origin, t, i);
    AskableMembers(l.to, KnownOrigin(l.req), OutPath(l.to, net[l.to], l.req), net[l.to].peers);
  }

  /** A search that has come to rest has covered exactly what can be reached unless a registry that ran out of hops
      or met its cap has a peer nobody asked. */
  lemma CoversAllIffNobodyStarved(net: Net, origin: Iri, es: seq<Event>)
    requires Runs(net, Start(origin), es) && Quiet(Final(net, Start(origin), es))
    ensures var t := Final(net, Start(origin), es);
            CoversAll(net, origin, t)
            <==> forall i, p | 0 <= i < |t.legs| && t.legs[i].Accepted() && t.legs[i].to in net && Starved(net, t.legs[i])
                               && p in net[t.legs[i].to].peers :: p in t.claimed
  {
    var t := Final(net, Start(origin), es);
    RunSearched(net, origin, es);
    CoversAllIffNoEdgeOut(net, origin, t);
    forall e | e in PeerEdges(net) && e.0 in t.claimed && e.1 !in t.claimed
      ensures exists i :: 0 <= i < |t.legs| && t.legs[i].Accepted() && t.legs[i].to == e.0 && Starved(net, t.legs[i])
    {
      EdgeOutIsStarved(net, origin, t, e.0, e.1);
    }
    forall i, p | 0 <= i < |t.legs| && t.legs[i].Accepted() && t.legs[i].to in net && p in net[t.legs[i].to].peers
      ensures (t.legs[i].to, p) in PeerEdges(net) && t.legs[i].to in t.claimed
    {
      assert OwnsBlock(net, t, i);
    }
  }

  lemma EdgeOutIsStarved(net: Net, origin: Iri, t: State, r: Iri, p: Iri)
    requires Searched(net, origin, t) && Quiet(t) && r in net && p in net[r].peers && r in t.claimed && p !in t.claimed
    ensures exists i :: 0 <= i < |t.legs| && t.legs[i].Accepted() && t.legs[i].to == r && Starved(net, t.legs[i])
  {
    assert Claimant(t, r);
    var i :| 0 <= i < |t.legs| && t.legs[i].Accepted() && t.legs[i].to == r;
    if !Starved(net, t.legs[i]) {
      AsksUnclaimed(net, origin, t, i, p);
      AskedHasClaimed(net, t, i, p);
    }
  }

  lemma AskedHasClaimed(net: Net, t: State, i: nat, p: Iri)
    requires Inv(net, t) && Arrived(t) && Quiet(t) && i < |t.legs| && t.legs[i].Accepted() && t.legs[i].to in net
    requires p in Asked(t.legs[i].to, net[t.legs[i].to], t.legs[i].req)
    ensures p in t.claimed
  {
    var l := t.legs[i];
    var asked := Asked(l.to, net[l.to], l.req);
    var j :| 0 <= j < |asked| && asked[j] == p;
    assert OwnsBlock(net, t, i);
    assert ChildOf(net, t, i, l.first + j);
  }

  // ------------------------------------------------------------------ a search that has not

  /** Five registries: one asks two, one of which is also asked the long way round and alone knows the fifth. */
  datatype Five = Five(a: Iri, b: Iri, c: Iri, x: Iri, y: Iri) {
    ghost predicate Valid() {
      Distinct([a, b, c, x, y]) && Fit(a) && Fit(b) && Fit(c) && Fit(x) && Fit(y)
    }

    function Web(hits: seq<Hit>): Net {
      map[a := Default([b, x], []), b := Default([c], []), c := Default([x], []), x := Default([y], []), y := Default([], hits)]
    }
  }

  /** A request on its way from one registry to the next. */
  function Onward(n: Five, hops: nat, path: seq<Iri>, budget: nat): Request {
    Request(true, true, Some(hops), Some(n.a), path, Some(budget))
  }

  lemma FiveApart(n: Five)
    requires n.Valid()
    ensures n.a != n.b && n.a != n.c && n.a != n.x && n.a != n.y && n.b != n.c && n.b != n.x && n.b != n.y
    ensures n.c != n.x && n.c != n.y && n.x != n.y
  {
    var s := [n.a, n.b, n.c, n.x, n.y];
    assert s[0] == n.a && s[1] == n.b && s[2] == n.c && s[3] == n.x && s[4] == n.y;
  }

  lemma ReadWhole(path: seq<Iri>, cap: nat)
    requires Distinct(path) && |path| <= cap && forall i | 0 <= i < |path| :: Fit(path[i])
    ensures ParsePath(path, cap) == path
  {
    FitIsWanted(path);
    PathIsFirstWanted(path, cap);
    assert path[..|path|] == path;
  }

  lemma NextPath(me: Iri, reg: Registry, q: Request)
    requires Distinct(q.path) && |q.path| <= reg.maxHops + 2 && me !in q.path && forall i | 0 <= i < |q.path| :: Fit(q.path[i])
    ensures OutPath(me, reg, q) == q.path + [me]
  {
    ReadWhole(q.path, reg.maxHops + 2);
  }

  lemma {:induction false} AllAskable(me: Iri, origin: Option<Iri>, path: seq<Iri>, peers: seq<Iri>)
    requires forall p | p in peers :: MayAsk(me, origin, path, p)
    ensures Askable(me, origin, path, peers) == peers
  {
    if peers != [] {
      AllAskable(me, origin, path, peers[..|peers| - 1]);
    }
  }

  /** What a registry of the web asks, and with which request. */
  lemma Passes(n: Five, me: Iri, peers: seq<Iri>, hops: nat, path: seq<Iri>, budget: nat)
    requires Fit(n.a) && Distinct(path) && |path| <= 5 && me !in path && forall i | 0 <= i < |path| :: Fit(path[i])
    requires 0 < hops <= 3 && 850 <= budget <= 3000 && |peers| <= 12
    requires forall p | p in peers :: p != me && p !in path && p != n.a
    ensures var reg, q := Default(peers, []), Onward(n, hops, path, budget);
            && Asked(me, reg, q) == peers && !Capped(me, reg, q)
            && ChildRequest(me, reg, q) == Onward(n, hops - 1, path + [me], budget - 600)
  {
    var reg, q := Default(peers, []), Onward(n, hops, path, budget);
    NextPath(me, reg, q);
    AllAskable(me, Some(n.a), path + [me], peers);
  }

  lemma OriginPasses(n: Five)
    requires n.Valid()
    ensures var reg := Default([n.b, n.x], []);
            && Asked(n.a, reg, UserRequest) == [n.b, n.x] && !Capped(n.a, reg, UserRequest)
            && ChildRequest(n.a, reg, UserRequest) == Onward(n, 2, [n.a], 2400)
  {
    FiveApart(n);
    NextPath(n.a, Default([n.b, n.x], []), UserRequest);
    assert UserRequest.path + [n.a] == [n.a];
    AllAskable(n.a, None, [n.a], [n.b, n.x]);
  }

  lemma StarvedAsksNobody(me: Iri, reg: Registry, q: Request)
    requires q.hops == Some(0) && |reg.peers| <= reg.maxPeers
    ensures Asked(me, reg, q) == [] && !Capped(me, reg, q)
  {
    AskableMembers(me, KnownOrigin(q), OutPath(me, reg, q), reg.peers);
  }

  // The legs: to `b` and `x` from the origin, to `c` from `b`, and to `x` once more from `c`.

  function LegA(n: Five): Leg {
    Leg(None, n.a, UserRequest, 0, Working, 1, 2, false)
  }

  function LegB(n: Five, phase: Phase, first: nat, count: nat): Leg {
    Leg(Some(0), n.b, Onward(n, 2, [n.a], 2400), 1, phase, first, count, false)
  }

  function LegX(n: Five, phase: Phase): Leg {
    Leg(Some(0), n.x, Onward(n, 2, [n.a], 2400), 1, phase, 0, 0, false)
  }

  function LegC(n: Five, phase: Phase, first: nat, count: nat): Leg {
    Leg(Some(1), n.c, Onward(n, 1, [n.a, n.b], 1800), 2, phase, first, count, false)
  }

  function LegFar(n: Five, phase: Phase, first: nat): Leg {
    Leg(Some(3), n.x, Onward(n, 0, [n.a, n.b, n.c], 1200), 3, phase, first, 0, false)
  }

  const NOTHING := Done(Answered([], false))

  function Stage1(n: Five): State {
    State([LegA(n), LegB(n, Sent, 0, 0), LegX(n, Sent)], {n.a})
  }

  function Stage2(n: Five): State {
    State([LegA(n), LegB(n, Working, 3, 1), LegX(n, Sent), LegC(n, Sent, 0, 0)], {n.a, n.b})
  }

  function Stage3(n: Five): State {
    State([LegA(n), LegB(n, Working, 3, 1), LegX(n, Sent), LegC(n, Working, 4, 1), LegFar(n, Sent, 0)], {n.a, n.b, n.c})
  }

  /** From here on only phases change. */
  function Stage(n: Five, b: Phase, x: Phase, c: Phase, far: Phase): State {
    State([LegA(n), LegB(n, b, 3, 1), LegX(n, x), LegC(n, c, 4, 1), LegFar(n, far, 5)], {n.a, n.b, n.c, n.x})
  }

  lemma Accepts(net: Net, s: State, i: nat, asked: seq<Iri>, q: Request, kids: seq<Leg>)
    requires Enabled(net, s, Arrive(i)) && s.legs[i].to !in s.claimed
    requires Asked(s.legs[i].to, net[s.legs[i].to], s.legs[i].req) == asked
    requires asked != [] ==> ChildRequest(s.legs[i].to, net[s.legs[i].to], s.legs[i].req) == q
    requires |kids| == |asked|
    requires forall k | 0 <= k < |asked| :: kids[k] == Leg(Some(i), asked[k], q, s.legs[i].depth + 1, Sent, 0, 0, false)
    ensures Apply(net, s, Arrive(i))
         == State(s.legs[i := s.legs[i].(phase := Working, first := |s.legs|, count := |asked|)] + kids, s.claimed + {s.legs[i].to})
  {
    var l, made := s.legs[i], Children(net, i, s.legs[i]);
    forall k | 0 <= k < |asked| ensures made[k] == kids[k] {
      assert made[k] == Child(net, i, l, asked[k]);
    }
    assert made == kids;
    var accepted := l.(phase := Working, first := |s.legs|, count := |made|);
    assert Apply(net, s, Arrive(i)).legs == s.legs[i := accepted] + made;
  }

  lemma {:induction false} GathersNothing(reg: Registry, asked: seq<Iri>, outcomes: seq<Outcome>, k: nat)
    requires reg.local == [] && |asked| == |outcomes| && k <= |asked|
    requires forall j | 0 <= j < |outcomes| :: outcomes[j] == Refused || outcomes[j] == Answered([], false)
    ensures Gather(reg, false, asked, outcomes, k) == ([], false)
  {
    if k > 0 {
      GathersNothing(reg, asked, outcomes, k - 1);
      var none: seq<Hit> := [];
      assert Relays(none, asked[k - 1], reg.maxPeerHits) == none;
      assert none + none == none;
    }
  }

  /** A registry that holds nothing and hears of nothing says so. */
  lemma AnswersNothing(net: Net, s: State, i: nat)
    requires Enabled(net, s, Finish(i)) && s.legs[i].req.relayed && net[s.legs[i].to].local == []
    requires !Capped(s.legs[i].to, net[s.legs[i].to], s.legs[i].req)
    requires forall k | s.legs[i].first <= k < s.legs[i].first + s.legs[i].count ::
               s.legs[k].Seen() == Refused || s.legs[k].Seen() == Answered([], false)
    ensures Gathered(net, s, i) == ([], false)
    ensures Apply(net, s, Finish(i)) == s.(legs := s.legs[i := s.legs[i].(phase := NOTHING)])
  {
    var l := s.legs[i];
    GathersNothing(net[l.to], Asked(l.to, net[l.to], l.req), Outcomes(s, l), l.count);
  }

  lemma Step1(n: Five, net: Net)
    requires n.Valid() && n.a in net && net[n.a] == Default([n.b, n.x], [])
    ensures Enabled(net, Start(n.a), Arrive(0)) && Apply(net, Start(n.a), Arrive(0)) == Stage1(n)
  {
    OriginPasses(n);
    var s := Start(n.a);
    Accepts(net, s, 0, [n.b, n.x], Onward(n, 2, [n.a], 2400), [LegB(n, Sent, 0, 0), LegX(n, Sent)]);
    assert Apply(net, s, Arrive(0)).legs == Stage1(n).legs;
  }

  lemma Step2(n: Five, net: Net)
    requires n.Valid() && n.b in net && net[n.b] == Default([n.c], [])
    ensures Enabled(net, Stage1(n), Arrive(1)) && Apply(net, Stage1(n), Arrive(1)) == Stage2(n)
  {
    FiveApart(n);
    Passes(n, n.b, [n.c], 2, [n.a], 2400);
    var s := Stage1(n);
    assert [n.a] + [n.b] == [n.a, n.b];
    Accepts(net, s, 1, [n.c], Onward(n, 1, [n.a, n.b], 1800), [LegC(n, Sent, 0, 0)]);
    assert Apply(net, s, Arrive(1)).legs == Stage2(n).legs;
  }

  lemma Step3(n: Five, net: Net)
    requires n.Valid() && n.c in net && net[n.c] == Default([n.x], [])
    ensures Enabled(net, Stage2(n), Arrive(3)) && Apply(net, Stage2(n), Arrive(3)) == Stage3(n)
  {
    FiveApart(n);
    PathOfTwo(n);
    Passes(n, n.c, [n.x], 1, [n.a, n.b], 1800);
    var s := Stage2(n);
    assert [n.a, n.b] + [n.c] == [n.a, n.b, n.c];
    Accepts(net, s, 3, [n.x], Onward(n, 0, [n.a, n.b, n.c], 1200), [LegFar(n, Sent, 0)]);
    assert Apply(net, s, Arrive(3)).legs == Stage3(n).legs;
  }

  lemma PathOfTwo(n: Five)
    requires n.Valid()
    ensures Distinct([n.a, n.b]) && n.c !in [n.a, n.b] && n.x !in [n.a, n.b] && forall i | 0 <= i < 2 :: Fit([n.a, n.b][i])
  {
    FiveApart(n);
  }

  /** The long way is the first to arrive, with no hop left. */
  lemma Step4(n: Five, net: Net)
    requires n.Valid() && n.x in net && net[n.x] == Default([n.y], [])
    ensures Enabled(net, Stage3(n), Arrive(4)) && Apply(net, Stage3(n), Arrive(4)) == Stage(n, Working, Sent, Working, Working)
  {
    FiveApart(n);
    var s := Stage3(n);
    StarvedAsksNobody(n.x, net[n.x], s.legs[4].req);
    Accepts(net, s, 4, [], UserRequest, []);
    assert Apply(net, s, Arrive(4)).legs == Stage(n, Working, Sent, Working, Working).legs;
  }

  /** The short way comes too late. */
  lemma Step5(n: Five, net: Net)
    requires n.x in net
    ensures var s := Stage(n, Working, Sent, Working, Working);
            Enabled(net, s, Arrive(2)) && Apply(net, s, Arrive(2)) == Stage(n, Working, Done(Refused), Working, Working)
  {
    var s := Stage(n, Working, Sent, Working, Working);
    assert Apply(net, s, Arrive(2)).legs == Stage(n, Working, Done(Refused), Working, Working).legs;
  }

  lemma Step6(n: Five, net: Net)
    requires n.x in net && net[n.x] == Default([n.y], [])
    ensures var s := Stage(n, Working, Done(Refused), Working, Working);
            Enabled(net, s, Finish(4)) && Apply(net, s, Finish(4)) == Stage(n, Working, Done(Refused), Working, NOTHING)
  {
    var s := Stage(n, Working, Done(Refused), Working, Working);
    StarvedAsksNobody(n.x, net[n.x], s.legs[4].req);
    assert Enabled(net, s, Finish(4));
    AnswersNothing(net, s, 4);
    assert s.legs[4 := LegFar(n, NOTHING, 5)] == Stage(n, Working, Done(Refused), Working, NOTHING).legs;
  }

  lemma Step7(n: Five, net: Net)
    requires n.Valid() && n.c in net && net[n.c] == Default([n.x], [])
    ensures var s := Stage(n, Working, Done(Refused), Working, NOTHING);
            Enabled(net, s, Finish(3)) && Apply(net, s, Finish(3)) == Stage(n, Working, Done(Refused), NOTHING, NOTHING)
  {
    var s := Stage(n, Working, Done(Refused), Working, NOTHING);
    FiveApart(n);
    PathOfTwo(n);
    Passes(n, n.c, [n.x], 1, [n.a, n.b], 1800);
    assert Enabled(net, s, Finish(3));
    AnswersNothing(net, s, 3);
    assert s.legs[3 := LegC(n, NOTHING, 4, 1)] == Stage(n, Working, Done(Refused), NOTHING, NOTHING).legs;
  }

  lemma Step8(n: Five, net: Net)
    requires n.Valid() && n.b in net && net[n.b] == Default([n.c], [])
    ensures var s := Stage(n, Working, Done(Refused), NOTHING, NOTHING);
            Enabled(net, s, Finish(1)) && Apply(net, s, Finish(1)) == Stage(n, NOTHING, Done(Refused), NOTHING, NOTHING)
  {
    var s := Stage(n, Working, Done(Refused), NOTHING, NOTHING);
    FiveApart(n);
    Passes(n, n.b, [n.c], 2, [n.a], 2400);
    assert Enabled(net, s, Finish(1));
    AnswersNothing(net, s, 1);
    assert s.legs[1 := LegB(n, NOTHING, 3, 1)] == Stage(n, NOTHING, Done(Refused), NOTHING, NOTHING).legs;
  }

  lemma OriginHearsNothing(n: Five, net: Net)
    requires n.Valid() && n.a in net && net[n.a] == Default([n.b, n.x], [])
    ensures var t := Stage(n, NOTHING, Done(Refused), NOTHING, NOTHING);
            Quiet(t) && Enabled(net, t, Finish(0)) && Gathered(net, t, 0) == ([], false)
  {
    OriginPasses(n);
    var t := Stage(n, NOTHING, Done(Refused), NOTHING, NOTHING);
    assert Enabled(net, t, Finish(0));
    GathersNothing(net[n.a], [n.b, n.x], Outcomes(t, t.legs[0]), 2);
  }

  const THE_LONG_WAY_FIRST := [Arrive(0), Arrive(1), Arrive(3), Arrive(4), Arrive(2), Finish(4), Finish(3), Finish(1)]

  lemma WebAt(n: Five, hits: seq<Hit>)
    requires n.Valid()
    ensures var net := n.Web(hits);
            && net.Keys == {n.a, n.b, n.c, n.x, n.y}
            && net[n.a] == Default([n.b, n.x], []) && net[n.b] == Default([n.c], []) && net[n.c] == Default([n.x], [])
            && net[n.x] == Default([n.y], []) && net[n.y] == Default([], hits)
  {
    FiveApart(n);
  }

  function Ended(n: Five): State {
    Stage(n, NOTHING, Done(Refused), NOTHING, NOTHING)
  }

  lemma SecondHalf(n: Five, net: Net, es: seq<Event>)
    requires n.Valid() && n.b in net && n.c in net && n.x in net
    requires net[n.b] == Default([n.c], []) && net[n.c] == Default([n.x], []) && net[n.x] == Default([n.y], [])
    requires es == [Arrive(2), Finish(4), Finish(3), Finish(1)]
    ensures var s := Stage(n, Working, Sent, Working, Working);
            Runs(net, s, es) && Final(net, s, es) == Ended(n)
  {
    Step5(n, net);
    Step6(n, net);
    Step7(n, net);
    Step8(n, net);
    var end := Ended(n);
    TwoSteps(net, Stage(n, Working, Done(Refused), Working, NOTHING), es[2..], Stage(n, Working, Done(Refused), NOTHING, NOTHING), end);
    assert es[1..][1..] == es[2..];
    StepFirst(net, Stage(n, Working, Done(Refused), Working, Working), es[1..], Stage(n, Working, Done(Refused), Working, NOTHING), end);
    StepFirst(net, Stage(n, Working, Sent, Working, Working), es, Stage(n, Working, Done(Refused), Working, Working), end);
  }

  lemma RunOfFive(n: Five, net: Net, es: seq<Event>)
    requires n.Valid() && n.a in net && n.b in net && n.c in net && n.x in net && net[n.a] == Default([n.b, n.x], [])
    requires net[n.b] == Default([n.c], []) && net[n.c] == Default([n.x], []) && net[n.x] == Default([n.y], [])
    requires es == THE_LONG_WAY_FIRST
    ensures Runs(net, Start(n.a), es) && Final(net, Start(n.a), es) == Ended(n)
  {
    Step1(n, net);
    Step2(n, net);
    Step3(n, net);
    Step4(n, net);
    var end, s := Ended(n), Stage(n, Working, Sent, Working, Working);
    SecondHalf(n, net, es[4..]);
    assert es[3..][1..] == es[4..] && es[2..][1..] == es[3..] && es[1..][1..] == es[2..];
    StepFirst(net, Stage3(n), es[3..], s, end);
    StepFirst(net, Stage2(n), es[2..], Stage3(n), end);
    StepFirst(net, Stage1(n), es[1..], Stage2(n), end);
    StepFirst(net, Start(n.a), es, Stage1(n), end);
  }

  lemma NothingSettled(a: Iri, reg: Registry)
    ensures Settle(a, reg, false, [], false) == Answered([], false)
  {
    SettledCut(a, reg, false, [], false);
    MergedIsNoLonger([], a);
  }

  lemma TwoHopsAway(n: Five, hits: seq<Hit>)
    requires n.Valid()
    ensures ReachesIn(PeerEdges(n.Web(hits)), n.a, n.y, 2)
  {
    WebAt(n, hits);
    var edges := PeerEdges(n.Web(hits));
    assert n.x in n.Web(hits)[n.a].peers && n.y in n.Web(hits)[n.x].peers;
    ReachesStep(edges, n.a, n.x);
    ReachesNext(edges, n.a, n.x, n.y, 1);
  }

  /** At the default three hops, nothing lost and no cap met: the query comes to `x` the long way round with no hop
      left, and the short way is refused. So nobody asks `y`, two hops from the origin, and the answer, which is
      not called partial, lacks all that `y` holds. */
  lemma ShortWayRefused(n: Five, hits: seq<Hit>)
    requires n.Valid()
    ensures forall e | e in THE_LONG_WAY_FIRST :: !e.GiveUp?
    ensures ReachesIn(PeerEdges(n.Web(hits)), n.a, n.y, 2)
    ensures EndsWithout(n.Web(hits), n.a, THE_LONG_WAY_FIRST, n.y)
    ensures forall h | h in hits :: RecordHeld(n.Web(hits), n.a, h.iri)
  {
    WebAt(n, hits);
    TwoHopsAway(n, hits);
    forall h | h in hits ensures RecordHeld(n.Web(hits), n.a, h.iri) {
      assert Reaches(PeerEdges(n.Web(hits)), n.a, n.y) && Holds(n.Web(hits)[n.y].local, h.iri);
    }
    LongWayFirst(n, n.Web(hits), THE_LONG_WAY_FIRST);
    NobodyGivesUp();
  }

  /** The search has come to rest with an empty answer, not called partial, and without `y`, which it could reach. */
  ghost predicate EndsWithout(net: Net, a: Iri, es: seq<Event>, y: Iri) {
    && a in net && Runs(net, Start(a), es)
    && var t := Final(net, Start(a), es);
    && Quiet(t) && Enabled(net, t, Finish(0)) && FinalAnswer(net, a, es) == Answered([], false)
    && y !in t.claimed && !CoversAll(net, a, t)
  }

  lemma NobodyGivesUp()
    ensures forall e | e in THE_LONG_WAY_FIRST :: !e.GiveUp?
  {
  }

  lemma LongWayFirst(n: Five, net: Net, es: seq<Event>)
    requires n.Valid() && n.a in net && n.b in net && n.c in net && n.x in net && net[n.a] == Default([n.b, n.x], [])
    requires net[n.b] == Default([n.c], []) && net[n.c] == Default([n.x], []) && net[n.x] == Default([n.y], [])
    requires es == THE_LONG_WAY_FIRST && ReachesIn(PeerEdges(net), n.a, n.y, 2)
    ensures EndsWithout(net, n.a, es, n.y)
  {
    RunOfFive(n, net, es);
    AtEnd(n, net, es);
  }

  lemma AtEnd(n: Five, net: Net, es: seq<Event>)
    requires n.Valid() && n.a in net && net[n.a] == Default([n.b, n.x], []) && ReachesIn(PeerEdges(net), n.a, n.y, 2)
    requires Runs(net, Start(n.a), es) && Final(net, Start(n.a), es) == Ended(n)
    ensures EndsWithout(net, n.a, es, n.y)
  {
    OriginHearsNothing(n, net);
    AnswerAtEnd(net, n.a, es, Ended(n));
    NotCovered(n, net);
  }

  lemma AnswerAtEnd(net: Net, a: Iri, es: seq<Event>, t: State)
    requires a in net && Runs(net, Start(a), es) && Final(net, Start(a), es) == t
    requires Enabled(net, t, Finish(0)) && Gathered(net, t, 0) == ([], false)
    ensures FinalAnswer(net, a, es) == Answered([], false)
  {
    NothingSettled(a, net[a]);
  }

  lemma NotCovered(n: Five, net: Net)
    requires n.Valid() && ReachesIn(PeerEdges(net), n.a, n.y, 2)
    ensures n.y !in Ended(n).claimed && !CoversAll(net, n.a, Ended(n))
  {
    FiveApart(n);
    assert Reaches(PeerEdges(net), n.a, n.y);
  }
}
