/** Hits are conserved on their way back to the origin: with no cap met and no leg lost, what the
    origin holds before merging copies is every claimed registry's own answer, each exactly once. */
module Conservation {
  import opened Options
  import opened Copies
  import opened FanOut
  import opened Protocol
  import opened Coverage
  import opened Sums
  import Bounds
  import Reach

  /** A way of counting hits that does not see the marks their travels leave on them. */
  type Measure = Hit -> nat

  ghost predicate TravelBlind(f: Measure) {
    forall h, peer :: f(Relayed(h, peer)) == f(h)
  }

  const Each: Measure := (h: Hit) => 1

  /** Counts the hits for one record with one score. */
  function Matching(iri: string, score: int): Measure {
    (h: Hit) => if h.iri == iri && h.score == score then 1 else 0
  }

  function Total(f: Measure, hits: seq<Hit>): nat {
    if hits == [] then 0 else Total(f, hits[..|hits| - 1]) + f(hits[|hits| - 1])
  }

  lemma {:induction false} TotalEach(hits: seq<Hit>)
    ensures Total(Each, hits) == |hits|
  {
    if hits != [] {
      TotalEach(hits[..|hits| - 1]);
    }
  }

  lemma {:induction false} TotalAppend(f: Measure, a: seq<Hit>, b: seq<Hit>)
    ensures Total(f, a + b) == Total(f, a) + Total(f, b)
  {
    if b == [] {
      assert a + b == a;
    } else {
      var n := |b| - 1;
      TotalAppend(f, a, b[..n]);
      assert (a + b)[..|a + b| - 1] == a + b[..n];
    }
  }

  lemma {:induction false} TotalRelayed(f: Measure, hits: seq<Hit>, peer: Iri, cap: nat)
    requires TravelBlind(f) && |hits| <= cap
    ensures Total(f, Relays(hits, peer, cap)) == Total(f, hits)
  {
    if hits != [] {
      var n := |hits| - 1;
      TotalRelayed(f, hits[..n], peer, cap);
      assert Relays(hits, peer, cap)[..n] == Relays(hits[..n], peer, cap);
    }
  }

  lemma {:induction false} TotalPlaced(f: Measure, sorted: seq<Hit>, h: Hit)
    ensures Total(f, Place(sorted, h)) == Total(f, sorted) + f(h)
  {
    if sorted == [] || sorted[|sorted| - 1].score >= h.score {
      assert (sorted + [h])[..|sorted|] == sorted;
    } else {
      var n := |sorted| - 1;
      TotalPlaced(f, sorted[..n], h);
      assert (Place(sorted[..n], h) + [sorted[n]])[..|sorted|] == Place(sorted[..n], h);
    }
  }

  lemma {:induction false} TotalRanked(f: Measure, hits: seq<Hit>)
    ensures Total(f, Ranked(hits)) == Total(f, hits)
  {
    if hits != [] {
      var n := |hits| - 1;
      TotalRanked(f, hits[..n]);
      TotalPlaced(f, Ranked(hits[..n]), hits[n]);
    }
  }

  /** The local answers of a set of registries, put together. */
  ghost function LocalTotal(f: Measure, net: Net, rs: set<Iri>): nat
    requires rs <= net.Keys
  {
    if rs == {} then 0 else var r :| r in rs; Total(f, net[r].local) + LocalTotal(f, net, rs - {r})
  }

  lemma {:induction false} LocalTotalWith(f: Measure, net: Net, rs: set<Iri>, r: Iri)
    requires rs <= net.Keys && r in rs
    ensures LocalTotal(f, net, rs) == Total(f, net[r].local) + LocalTotal(f, net, rs - {r})
    decreases rs
  {
    var x :| x in rs && LocalTotal(f, net, rs) == Total(f, net[x].local) + LocalTotal(f, net, rs - {x});
    if x != r {
      LocalTotalWith(f, net, rs - {x}, r);
      LocalTotalWith(f, net, rs - {r}, x);
      assert rs - {x} - {r} == rs - {r} - {x};
    }
  }

  lemma {:induction false} LocalTotalGrows(f: Measure, net: Net, a: set<Iri>, b: set<Iri>)
    requires a <= b <= net.Keys
    ensures LocalTotal(f, net, a) <= LocalTotal(f, net, b)
    decreases b - a
  {
    if a != b {
      var x :| x in b && x !in a;
      LocalTotalWith(f, net, a + {x}, x);
      assert a + {x} - {x} == a;
      LocalTotalGrows(f, net, a + {x}, b);
    }
  }

  // --------------------------------------------------------------------------- the invariant

  /** The hits a leg holds that its sender has not merged yet. */
  function Held(f: Measure, net: Net, s: State, k: nat): nat
    requires k < |s.legs|
  {
    var l := s.legs[k];
    if l.phase.Working? then if l.to in net then Total(f, net[l.to].local) else 0
    else if l.Accepted() && (l.from.None? || (l.from.value < |s.legs| && s.legs[l.from.value].phase.Working?)) then
      Total(f, l.phase.outcome.hits)
    else 0
  }

  function AllHeld(f: Measure, net: Net, s: State): (r: seq<nat>)
    ensures |r| == |s.legs|
    ensures forall k | 0 <= k < |r| :: r[k] == Held(f, net, s, k)
  {
    seq(|s.legs|, k requires 0 <= k < |s.legs| => Held(f, net, s, k))
  }

  /** The leg was not given up, and its answer is not partial. */
  ghost predicate Sound(l: Leg) {
    && !l.lost
    && (l.from.Some? ==> l.req.relayed)
    && (l.phase.Done? ==> l.phase.outcome == Refused || (l.phase.outcome.Answered? && !l.phase.outcome.partial))
  }

  ghost predicate NothingLost(s: State) {
    forall k | 0 <= k < |s.legs| :: Sound(s.legs[k])
  }

  ghost predicate Balanced(f: Measure, net: Net, s: State) {
    s.claimed <= net.Keys && Sum(AllHeld(f, net, s)) == LocalTotal(f, net, s.claimed)
  }

  ghost predicate Conserved(f: Measure, net: Net, s: State) {
    Inv(net, s) && NothingLost(s) && Balanced(f, net, s)
  }

  // ----------------------------------------------------------------------------------- caps

  /** What registry `i` is about to merge meets no cap: all it could ask was asked, and no answer is longer
      than what it takes from a peer. */
  ghost predicate PeerCapsHold(net: Net, s: State, i: nat)
    requires Enabled(net, s, Finish(i))
  {
    var l := s.legs[i];
    && !Capped(l.to, net[l.to], l.req)
    && forall k | l.first <= k < l.first + l.count && s.legs[k].Seen().Answered? :: |s.legs[k].Seen().hits| <= net[l.to].maxPeerHits
  }

  /** Nor is what it answers longer than it may be. */
  ghost predicate TotalCapHolds(net: Net, s: State, i: nat)
    requires Enabled(net, s, Finish(i))
  {
    var l := s.legs[i];
    |RowsOf(l.to, l.req.relayed, Gathered(net, s, i).0)| <= net[l.to].maxTotalHits
  }

  ghost predicate NoCapMet(net: Net, s: State, e: Event)
    requires Enabled(net, s, e)
  {
    e.Finish? ==> PeerCapsHold(net, s, e.leg) && TotalCapHolds(net, s, e.leg)
  }

  /** No cap is met in this run. */
  ghost predicate NoCapInRun(net: Net, s: State, es: seq<Event>)
    requires Runs(net, s, es)
    decreases |es|
  {
    es == [] || (NoCapMet(net, s, es[0]) && NoCapInRun(net, Apply(net, s, es[0]), es[1..]))
  }

  /** An outcome that takes `held` out of a leg, loses nothing and fits the cap. */
  ghost predicate Carries(f: Measure, reg: Registry, o: Outcome, held: nat) {
    match o
    case Lost => false
    case Refused => held == 0
    case Answered(h, p) => held == Total(f, h) && !p && |h| <= reg.maxPeerHits
  }

  /** Gathering adds up what the outcomes carry; a refused leg adds nothing. */
  lemma {:induction false} GatherTotal(f: Measure, reg: Registry, asked: seq<Iri>, outcomes: seq<Outcome>, held: seq<nat>, n: nat)
    requires TravelBlind(f) && |asked| == |outcomes| == |held| && n <= |asked|
    requires forall j | 0 <= j < n :: Carries(f, reg, outcomes[j], held[j])
    ensures var g := Gather(reg, false, asked, outcomes, n);
            Total(f, g.0) == Total(f, reg.local) + Sum(held[..n]) && !g.1
  {
    if n > 0 {
      GatherTotal(f, reg, asked, outcomes, held, n - 1);
      assert held[..n][..n - 1] == held[..n - 1];
      assert Carries(f, reg, outcomes[n - 1], held[n - 1]);
      var g := Gather(reg, false, asked, outcomes, n - 1);
      if outcomes[n - 1].Answered? {
        var h := outcomes[n - 1].hits;
        TotalRelayed(f, h, asked[n - 1], reg.maxPeerHits);
        TotalAppend(f, g.0, Relays(h, asked[n - 1], reg.maxPeerHits));
      }
    }
  }

  /** What the sender of leg `k` sees of it is what the leg holds. */
  lemma OutcomeCarries(f: Measure, net: Net, s: State, i: nat, k: nat)
    requires Inv(net, s) && NothingLost(s) && Enabled(net, s, Finish(i)) && PeerCapsHold(net, s, i)
    requires s.legs[i].first <= k < s.legs[i].first + s.legs[i].count
    ensures s.legs[k].Settled() && Carries(f, net[s.legs[i].to], s.legs[k].Seen(), Held(f, net, s, k))
  {
    assert OwnsBlock(net, s, i);
    assert ChildOf(net, s, i, k);
    assert s.legs[k].Settled() && !s.legs[k].lost;
  }

  /** What a registry gathers is its own answer and what its legs hold, and nothing makes it partial. */
  lemma GatheredTotal(f: Measure, net: Net, s: State, i: nat)
    requires TravelBlind(f) && Inv(net, s) && NothingLost(s) && Enabled(net, s, Finish(i)) && PeerCapsHold(net, s, i)
    ensures var l, g := s.legs[i], Gathered(net, s, i);
            && Total(f, g.0) == Total(f, net[l.to].local) + Sum(AllHeld(f, net, s)[l.first..l.first + l.count])
            && !g.1
  {
    OutcomesCarry(f, net, s, i);
    var l := s.legs[i];
    GatheredSum(f, net, s, i, Outcomes(s, l), AllHeld(f, net, s)[l.first..l.first + l.count]);
  }

  lemma GatheredSum(f: Measure, net: Net, s: State, i: nat, outcomes: seq<Outcome>, held: seq<nat>)
    requires TravelBlind(f) && Enabled(net, s, Finish(i)) && !Capped(s.legs[i].to, net[s.legs[i].to], s.legs[i].req)
    requires outcomes == Outcomes(s, s.legs[i]) && |held| == |outcomes|
    requires forall j | 0 <= j < |held| :: Carries(f, net[s.legs[i].to], outcomes[j], held[j])
    ensures var g := Gathered(net, s, i); Total(f, g.0) == Total(f, net[s.legs[i].to].local) + Sum(held) && !g.1
  {
    var l := s.legs[i];
    var asked := Asked(l.to, net[l.to], l.req);
    assert Gathered(net, s, i) == Gather(net[l.to], false, asked, outcomes, |asked|);
    GatherAll(f, net[l.to], asked, outcomes, held);
  }

  lemma OutcomesCarry(f: Measure, net: Net, s: State, i: nat)
    requires Inv(net, s) && NothingLost(s) && Enabled(net, s, Finish(i)) && PeerCapsHold(net, s, i)
    ensures var l := s.legs[i];
            forall j | 0 <= j < l.count ::
              Carries(f, net[l.to], Outcomes(s, l)[j], AllHeld(f, net, s)[l.first..l.first + l.count][j])
  {
    forall j | 0 <= j < s.legs[i].count
      ensures Carries(f, net[s.legs[i].to], Outcomes(s, s.legs[i])[j], AllHeld(f, net, s)[s.legs[i].first + j])
    {
      OutcomeCarries(f, net, s, i, s.legs[i].first + j);
    }
  }

  lemma GatherAll(f: Measure, reg: Registry, asked: seq<Iri>, outcomes: seq<Outcome>, held: seq<nat>)
    requires TravelBlind(f) && |asked| == |outcomes| == |held|
    requires forall j | 0 <= j < |asked| :: Carries(f, reg, outcomes[j], held[j])
    ensures var g := Gather(reg, false, asked, outcomes, |asked|);
            Total(f, g.0) == Total(f, reg.local) + Sum(held) && !g.1
  {
    GatherTotal(f, reg, asked, outcomes, held, |asked|);
    assert held[..|asked|] == held;
  }

  // ------------------------------------------------------------------------------- the steps

  /** A leg that did not move holds the same, unless its sender finished. */
  lemma HeldSame(f: Measure, net: Net, s: State, t: State, k: nat)
    requires k < |s.legs| <= |t.legs| && t.legs[k] == s.legs[k] && HasSender(net, s, k)
    requires s.legs[k].from.Some? ==>
               t.legs[s.legs[k].from.value].phase.Working? == s.legs[s.legs[k].from.value].phase.Working?
    ensures Held(f, net, t, k) == Held(f, net, s, k)
  {
  }

  lemma RefusalBalanced(f: Measure, net: Net, s: State, i: nat)
    requires Inv(net, s) && Balanced(f, net, s) && Enabled(net, s, Arrive(i)) && s.legs[i].to in s.claimed
    ensures Balanced(f, net, Apply(net, s, Arrive(i)))
  {
    var t := Apply(net, s, Arrive(i));
    forall k | 0 <= k < |s.legs|
      ensures Held(f, net, t, k) == Held(f, net, s, k)
    {
      assert HasSender(net, s, k);
      if k != i {
        HeldSame(f, net, s, t, k);
      }
    }
    assert AllHeld(f, net, t) == AllHeld(f, net, s);
  }

  /** Leg `i` claims the query in the step from `s` to `t`, and its legs go out. */
  ghost predicate ClaimsAt(net: Net, s: State, t: State, i: nat) {
    && i < |s.legs| <= |t.legs| && s.legs[i].phase.Sent? && s.legs[i].to in net
    && s.legs[i].to !in s.claimed && t.claimed == s.claimed + {s.legs[i].to}
    && (forall k | 0 <= k < |s.legs| && k != i :: t.legs[k] == s.legs[k])
    && t.legs[i].phase.Working? && t.legs[i].to == s.legs[i].to
    && forall k | |s.legs| <= k < |t.legs| :: t.legs[k].phase.Sent?
  }

  lemma ArrivalClaims(net: Net, s: State, i: nat)
    requires Enabled(net, s, Arrive(i)) && s.legs[i].to !in s.claimed
    ensures ClaimsAt(net, s, Apply(net, s, Arrive(i)), i)
  {
  }

  lemma HeldAfterClaim(f: Measure, net: Net, s: State, t: State, i: nat, k: nat)
    requires Inv(net, s) && ClaimsAt(net, s, t, i) && k < |s.legs|
    ensures Held(f, net, t, k) == if k == i then Total(f, net[s.legs[i].to].local) else Held(f, net, s, k)
    ensures Held(f, net, s, i) == 0
  {
    assert HasSender(net, s, k);
    if k != i {
      HeldSame(f, net, s, t, k);
    }
  }

  lemma ClaimBalanced(f: Measure, net: Net, s: State, t: State, i: nat)
    requires Inv(net, s) && Balanced(f, net, s) && ClaimsAt(net, s, t, i)
    ensures Balanced(f, net, t)
  {
    var l, n := s.legs[i], |s.legs|;
    var before, after := AllHeld(f, net, s), AllHeld(f, net, t);
    var mine := Total(f, net[l.to].local);
    forall k | 0 <= k < n
      ensures after[k] == if k == i then mine else before[k]
    {
      HeldAfterClaim(f, net, s, t, i, k);
    }
    ClaimSums(before, after, i, mine);
    HeldAfterClaim(f, net, s, t, i, i);
    LocalTotalWith(f, net, t.claimed, l.to);
    assert t.claimed - {l.to} == s.claimed;
  }

  /** Leg `i` is answered in the step from `s` to `t`, with everything it gathered. */
  ghost predicate AnswersAll(f: Measure, net: Net, s: State, t: State, i: nat) {
    && Enabled(net, s, Finish(i)) && |t.legs| == |s.legs|
    && (forall k | 0 <= k < |s.legs| && k != i :: t.legs[k] == s.legs[k])
    && t.legs[i].phase.Done? && t.legs[i].phase.outcome.Answered?
    && t.legs[i].from == s.legs[i].from
    && Total(f, t.legs[i].phase.outcome.hits) == Total(f, Gathered(net, s, i).0)
  }

  lemma OthersHeldAfterAnswer(f: Measure, net: Net, s: State, t: State, i: nat, k: nat)
    requires Inv(net, s) && NothingLost(s) && AnswersAll(f, net, s, t, i) && k < |s.legs| && k != i
    ensures Held(f, net, t, k) == if s.legs[i].first <= k < s.legs[i].first + s.legs[i].count then 0 else Held(f, net, s, k)
  {
    assert HasSender(net, s, k);
    assert OwnsBlock(net, s, i);
    if s.legs[i].first <= k < s.legs[i].first + s.legs[i].count {
      assert ChildOf(net, s, i, k);
      assert s.legs[k].Settled();
    } else {
      assert s.legs[k].from != Some(i);
      HeldSame(f, net, s, t, k);
    }
  }

  lemma HeldByAnswer(f: Measure, net: Net, s: State, t: State, i: nat)
    requires TravelBlind(f) && Inv(net, s) && NothingLost(s) && AnswersAll(f, net, s, t, i) && PeerCapsHold(net, s, i)
    ensures Held(f, net, t, i) == Held(f, net, s, i) + Sum(AllHeld(f, net, s)[s.legs[i].first..s.legs[i].first + s.legs[i].count])
  {
    GatheredTotal(f, net, s, i);
    SenderStillWorks(net, s, i);
  }

  /** An answer takes over what the legs held, so no hit is lost or doubled on an edge. */
  lemma AnswerBalanced(f: Measure, net: Net, s: State, t: State, i: nat)
    requires TravelBlind(f) && Inv(net, s) && NothingLost(s) && Balanced(f, net, s)
    requires AnswersAll(f, net, s, t, i) && PeerCapsHold(net, s, i) && t.claimed == s.claimed
    ensures Balanced(f, net, t)
  {
    var first, last := s.legs[i].first, s.legs[i].first + s.legs[i].count;
    var before, after := AllHeld(f, net, s), AllHeld(f, net, t);
    BlockLater(net, s, i);
    AllOthersHeld(f, net, s, t, i);
    HeldByAnswer(f, net, s, t, i);
    MovedIntoOne(before, after, i, first, last);
  }

  lemma AllOthersHeld(f: Measure, net: Net, s: State, t: State, i: nat)
    requires Inv(net, s) && NothingLost(s) && AnswersAll(f, net, s, t, i)
    ensures forall k | 0 <= k < |s.legs| && k != i ::
              AllHeld(f, net, t)[k] == if s.legs[i].first <= k < s.legs[i].first + s.legs[i].count then 0 else AllHeld(f, net, s)[k]
  {
    forall k | 0 <= k < |s.legs| && k != i
      ensures AllHeld(f, net, t)[k] == if s.legs[i].first <= k < s.legs[i].first + s.legs[i].count then 0 else AllHeld(f, net, s)[k]
    {
      OthersHeldAfterAnswer(f, net, s, t, i, k);
    }
  }

  /** While a leg is at work its sender has not answered. */
  lemma SenderStillWorks(net: Net, s: State, i: nat)
    requires Inv(net, s) && NothingLost(s) && i < |s.legs| && s.legs[i].phase.Working?
    ensures s.legs[i].from.Some? ==> s.legs[i].from.value < i && s.legs[s.legs[i].from.value].phase.Working?
  {
    assert HasSender(net, s, i);
    if s.legs[i].from.Some? {
      assert OwnsBlock(net, s, s.legs[i].from.value);
      assert ChildOf(net, s, s.legs[i].from.value, i);
    }
  }

  lemma BlockLater(net: Net, s: State, i: nat)
    requires Inv(net, s) && i < |s.legs| && s.legs[i].Accepted()
    ensures i < s.legs[i].first && s.legs[i].first + s.legs[i].count <= |s.legs|
  {
    assert OwnsBlock(net, s, i);
  }

  /** A relay that meets no cap passes on everything it gathered. */
  lemma RelayAnswersAll(f: Measure, net: Net, s: State, i: nat)
    requires TravelBlind(f) && Inv(net, s) && NothingLost(s) && s.legs != []
    requires Enabled(net, s, Finish(i)) && NoCapMet(net, s, Finish(i)) && s.legs[i].req.relayed
    ensures var t := Apply(net, s, Finish(i));
            AnswersAll(f, net, s, t, i) && !t.legs[i].phase.outcome.partial && t.claimed == s.claimed
  {
    GatheredTotal(f, net, s, i);
    TotalRanked(f, Gathered(net, s, i).0);
  }

  ghost predicate OneRoot(s: State) {
    s.legs != [] && forall k | 0 < k < |s.legs| :: s.legs[k].from.Some?
  }

  lemma ArrivalLosesNothing(net: Net, s: State, i: nat)
    requires NothingLost(s) && OneRoot(s) && Enabled(net, s, Arrive(i))
    ensures NothingLost(Apply(net, s, Arrive(i))) && OneRoot(Apply(net, s, Arrive(i)))
  {
    var t := Apply(net, s, Arrive(i));
    forall k | 0 <= k < |t.legs| ensures Sound(t.legs[k]) && (k > 0 ==> t.legs[k].from.Some?) {
      if k >= |s.legs| {
        assert t.legs[k] == Children(net, i, s.legs[i])[k - |s.legs|];
      } else {
        assert Sound(s.legs[k]);
      }
    }
  }

  lemma AnswerLosesNothing(net: Net, s: State, i: nat)
    requires Inv(net, s) && NothingLost(s) && OneRoot(s) && Enabled(net, s, Finish(i)) && NoCapMet(net, s, Finish(i)) && i != 0
    ensures NothingLost(Apply(net, s, Finish(i))) && OneRoot(Apply(net, s, Finish(i)))
  {
    assert Sound(s.legs[i]) && s.legs[i].from.Some?;
    RelayAnswersAll(Each, net, s, i);
    var t := Apply(net, s, Finish(i));
    assert t.legs == s.legs[i := t.legs[i]] && Sound(t.legs[i]) && t.legs[i].from == s.legs[i].from;
  }

  lemma StepConserves(f: Measure, net: Net, s: State, e: Event)
    requires TravelBlind(f) && Conserved(f, net, s) && OneRoot(s)
    requires Enabled(net, s, e) && NoCapMet(net, s, e) && !e.GiveUp? && e != Finish(0)
    ensures Conserved(f, net, Apply(net, s, e)) && OneRoot(Apply(net, s, e))
  {
    var t := Apply(net, s, e);
    StepKeepsInv(net, s, e);
    match e
    case Arrive(i) =>
      ArrivalLosesNothing(net, s, i);
      if s.legs[i].to in s.claimed {
        RefusalBalanced(f, net, s, i);
      } else {
        ArrivalClaims(net, s, i);
        ClaimBalanced(f, net, s, t, i);
      }
    case Finish(i) =>
      AnswerLosesNothing(net, s, i);
      RelayAnswersAll(f, net, s, i);
      AnswerBalanced(f, net, s, t, i);
  }

  lemma {:induction false} RunConserves(f: Measure, net: Net, s: State, es: seq<Event>)
    requires TravelBlind(f) && Conserved(f, net, s) && OneRoot(s)
    requires Runs(net, s, es) && NoCapInRun(net, s, es) && (forall e | e in es :: !e.GiveUp?)
    requires Final(net, s, es).legs != [] && !Final(net, s, es).legs[0].Settled()
    ensures Conserved(f, net, Final(net, s, es)) && OneRoot(Final(net, s, es))
    decreases |es|
  {
    if es != [] {
      var t := Apply(net, s, es[0]);
      RunLater(net, t, es[1..]);
      assert SameStory(t.legs[0], Final(net, t, es[1..]).legs[0]);
      assert es[0] in es;
      StepConserves(f, net, s, es[0]);
      RunConserves(f, net, t, es[1..]);
    }
  }

  lemma StartConserved(f: Measure, net: Net, origin: Iri)
    ensures Conserved(f, net, Start(origin)) && OneRoot(Start(origin))
  {
    var s := Start(origin);
    assert HasSender(net, s, 0);
    SumOfNothing(AllHeld(f, net, s));
  }

  /** A search in which no leg is given up and no cap is met, up to where the origin's last leg is in. */
  ghost predicate Undisturbed(net: Net, origin: Iri, es: seq<Event>) {
    && Runs(net, Start(origin), es) && (forall e | e in es :: !e.GiveUp?) && NoCapInRun(net, Start(origin), es)
    && Enabled(net, Final(net, Start(origin), es), Finish(0)) && PeerCapsHold(net, Final(net, Start(origin), es), 0)
  }

  /** Conservation. In a run where no leg is lost and no cap is met, when the origin's last leg is in,
      what it holds for any record and score is what the registries that claimed the query hold for
      them, each counted once; and no answer on the way is partial, nor is the origin's. */
  lemma HitsConserved(net: Net, origin: Iri, es: seq<Event>)
    requires Undisturbed(net, origin, es)
    ensures var t := Final(net, Start(origin), es);
            && NothingLost(t) && t.claimed <= net.Keys
            && !Gathered(net, t, 0).1
            && forall iri, score ::
                 Total(Matching(iri, score), Gathered(net, t, 0).0) == LocalTotal(Matching(iri, score), net, t.claimed)
  {
    var s, t := Start(origin), Final(net, Start(origin), es);
    RootNotSettled(net, origin, es);
    StartConserved(Each, net, origin);
    RunConserves(Each, net, s, es);
    GatheredTotal(Each, net, t, 0);
    forall iri, score
      ensures Total(Matching(iri, score), Gathered(net, t, 0).0) == LocalTotal(Matching(iri, score), net, t.claimed)
    {
      var f := Matching(iri, score);
      StartConserved(f, net, origin);
      RunConserves(f, net, s, es);
      OriginHoldsAll(f, net, t);
    }
  }

  lemma RootNotSettled(net: Net, origin: Iri, es: seq<Event>)
    requires Runs(net, Start(origin), es) && Enabled(net, Final(net, Start(origin), es), Finish(0))
    ensures !Final(net, Start(origin), es).legs[0].Settled()
  {
    var s, t := Start(origin), Final(net, Start(origin), es);
    assert HasSender(net, s, 0) && Initial(s);
    Bounds.ReachableInv(net, s, es);
    RunLater(net, s, es);
    assert SameStory(s.legs[0], t.legs[0]);
    assert HasSender(net, t, 0);
  }

  /** When the origin is about to answer, every other leg is done, and so nothing is held elsewhere. */
  lemma {:induction false} OthersDone(net: Net, s: State, k: nat)
    requires Inv(net, s) && NothingLost(s) && OneRoot(s) && Enabled(net, s, Finish(0)) && 0 < k < |s.legs|
    ensures s.legs[k].phase.Done? && s.legs[k].from.Some? && s.legs[k].from.value < k
    ensures s.legs[k].from == Some(0) <==> s.legs[0].first <= k < s.legs[0].first + s.legs[0].count
    decreases k
  {
    assert HasSender(net, s, k);
    var i := s.legs[k].from.value;
    assert ChildOf(net, s, i, k);
    if i > 0 {
      OthersDone(net, s, i);
      assert OwnsBlock(net, s, i);
    }
    if s.legs[0].first <= k < s.legs[0].first + s.legs[0].count {
      assert OwnsBlock(net, s, 0);
      assert ChildOf(net, s, 0, k);
    }
    assert s.legs[k].Settled() && !s.legs[k].lost;
  }

  lemma OriginHoldsAll(f: Measure, net: Net, s: State)
    requires TravelBlind(f) && Conserved(f, net, s) && OneRoot(s) && Enabled(net, s, Finish(0)) && PeerCapsHold(net, s, 0)
    ensures Total(f, Gathered(net, s, 0).0) == LocalTotal(f, net, s.claimed)
  {
    GatheredTotal(f, net, s, 0);
    OriginBlock(f, net, s);
    OwnAnswerHeld(f, net, s);
  }

  lemma OwnAnswerHeld(f: Measure, net: Net, s: State)
    requires Balanced(f, net, s) && Enabled(net, s, Finish(0))
    ensures AllHeld(f, net, s)[0] == Total(f, net[s.legs[0].to].local)
    ensures Sum(AllHeld(f, net, s)) == LocalTotal(f, net, s.claimed)
  {
  }

  lemma OriginBlock(f: Measure, net: Net, s: State)
    requires Inv(net, s) && NothingLost(s) && OneRoot(s) && Enabled(net, s, Finish(0))
    ensures var first, last, all := s.legs[0].first, s.legs[0].first + s.legs[0].count, AllHeld(f, net, s);
            0 < first <= last <= |s.legs| && Sum(all) == all[0] + Sum(all[first..last])
  {
    OnlyTheOriginHolds(f, net, s);
    FirstAndBlock(AllHeld(f, net, s), s.legs[0].first, s.legs[0].first + s.legs[0].count);
  }

  lemma NothingElsewhere(f: Measure, net: Net, s: State, k: nat)
    requires Inv(net, s) && NothingLost(s) && OneRoot(s) && Enabled(net, s, Finish(0)) && 0 < k < |s.legs|
    requires !(s.legs[0].first <= k < s.legs[0].first + s.legs[0].count)
    ensures Held(f, net, s, k) == 0
  {
    OthersDone(net, s, k);
    SenderDone(net, s, k);
  }

  lemma OnlyTheOriginHolds(f: Measure, net: Net, s: State)
    requires Inv(net, s) && NothingLost(s) && OneRoot(s) && Enabled(net, s, Finish(0))
    ensures var first, last := s.legs[0].first, s.legs[0].first + s.legs[0].count;
            && 0 < first <= last <= |s.legs|
            && forall k | 0 < k < |s.legs| && !(first <= k < last) :: AllHeld(f, net, s)[k] == 0
  {
    assert OwnsBlock(net, s, 0);
    forall k | 0 < k < |s.legs| && !(s.legs[0].first <= k < s.legs[0].first + s.legs[0].count)
      ensures AllHeld(f, net, s)[k] == 0
    {
      NothingElsewhere(f, net, s, k);
    }
  }

  lemma SenderDone(net: Net, s: State, k: nat)
    requires Inv(net, s) && NothingLost(s) && OneRoot(s) && Enabled(net, s, Finish(0)) && 0 < k < |s.legs|
    requires s.legs[k].from.Some? && s.legs[k].from != Some(0) && s.legs[k].from.value < k
    ensures s.legs[s.legs[k].from.value].phase.Done?
  {
    OthersDone(net, s, s.legs[k].from.value);
  }

  /** Coverage and conservation together: with hops and time enough, no leg lost and no cap met, the origin
      holds the answers of exactly the registries it can reach, each once. */
  lemma SearchFindsEverythingOnce(net: Net, origin: Iri, m: nat, es: seq<Event>)
    requires Generous(net, origin, m) && origin in net && Undisturbed(net, origin, es)
    ensures var t := Final(net, Start(origin), es);
            && (forall r :: r in t.claimed <==> Reach.Reaches(PeerEdges(net), origin, r))
            && t.claimed <= net.Keys && !Gathered(net, t, 0).1
            && forall iri, score ::
                 Total(Matching(iri, score), Gathered(net, t, 0).0) == LocalTotal(Matching(iri, score), net, t.claimed)
  {
    var s, t := Start(origin), Final(net, Start(origin), es);
    HitsConserved(net, origin, es);
    StartConserved(Each, net, origin);
    RootNotSettled(net, origin, es);
    RunConserves(Each, net, s, es);
    forall k | 0 <= k < |t.legs|
      ensures !t.legs[k].phase.Sent?
    {
      if k > 0 {
        OthersDone(net, t, k);
      }
    }
    CoversExactlyTheReachable(net, origin, m, es);
  }

  // ------------------------------------------------------------- settings that rule caps out

  /** Every cap would take every hit and every peer there is. */
  ghost predicate Roomy(net: Net) {
    forall r | r in net ::
      && net[r].maxPeerHits >= LocalTotal(Each, net, net.Keys)
      && net[r].maxTotalHits >= LocalTotal(Each, net, net.Keys)
      && |net[r].peers| <= net[r].maxPeers
  }

  lemma BlockFits(net: Net, s: State, i: nat, first: nat, last: nat)
    requires Balanced(Each, net, s) && i < first <= last <= |s.legs|
    ensures Held(Each, net, s, i) + Sum(AllHeld(Each, net, s)[first..last]) <= LocalTotal(Each, net, net.Keys)
  {
    SumPart(AllHeld(Each, net, s), i, first, last);
    LocalTotalGrows(Each, net, s.claimed, net.Keys);
  }

  lemma OutcomeFits(net: Net, s: State, i: nat, k: nat)
    requires Inv(net, s) && NothingLost(s) && Balanced(Each, net, s) && Enabled(net, s, Finish(i))
    requires s.legs[i].first <= k < s.legs[i].first + s.legs[i].count && s.legs[k].Seen().Answered?
    ensures |s.legs[k].Seen().hits| <= LocalTotal(Each, net, net.Keys)
  {
    assert OwnsBlock(net, s, i);
    assert ChildOf(net, s, i, k) && Sound(s.legs[k]);
    TotalEach(s.legs[k].Seen().hits);
    SumUpdate(AllHeld(Each, net, s), k, 0);
    LocalTotalGrows(Each, net, s.claimed, net.Keys);
  }

  /** What one registry gathers is part of what the network holds. */
  lemma GatheredFits(net: Net, s: State, i: nat)
    requires Inv(net, s) && NothingLost(s) && Balanced(Each, net, s) && Enabled(net, s, Finish(i)) && PeerCapsHold(net, s, i)
    ensures |Gathered(net, s, i).0| <= LocalTotal(Each, net, net.Keys)
  {
    GatheredTotal(Each, net, s, i);
    BlockLater(net, s, i);
    BlockFits(net, s, i, s.legs[i].first, s.legs[i].first + s.legs[i].count);
    TotalEach(Gathered(net, s, i).0);
  }

  /** Such settings can be read off before the search, and then no step meets a cap. */
  lemma RoomyMeetsNoCap(net: Net, s: State, e: Event)
    requires Roomy(net) && Conserved(Each, net, s) && Enabled(net, s, e)
    ensures NoCapMet(net, s, e)
  {
    if e.Finish? {
      var i, l := e.leg, s.legs[e.leg];
      AskableMembers(l.to, KnownOrigin(l.req), OutPath(l.to, net[l.to], l.req), net[l.to].peers);
      forall k | l.first <= k < l.first + l.count && s.legs[k].Seen().Answered?
        ensures |s.legs[k].Seen().hits| <= net[l.to].maxPeerHits
      {
        OutcomeFits(net, s, i, k);
      }
      GatheredFits(net, s, i);
      MergedIsNoLonger(Gathered(net, s, i).0, l.to);
    }
  }

  lemma {:induction false} RoomyRunMeetsNoCap(net: Net, s: State, es: seq<Event>)
    requires Roomy(net) && Conserved(Each, net, s) && OneRoot(s)
    requires Runs(net, s, es) && (forall e | e in es :: !e.GiveUp?)
    requires Final(net, s, es).legs != [] && !Final(net, s, es).legs[0].Settled()
    ensures NoCapInRun(net, s, es)
    decreases |es|
  {
    if es != [] {
      var t := Apply(net, s, es[0]);
      RunLater(net, t, es[1..]);
      assert SameStory(t.legs[0], Final(net, t, es[1..]).legs[0]);
      assert es[0] in es;
      RoomyMeetsNoCap(net, s, es[0]);
      StepConserves(Each, net, s, es[0]);
      RoomyRunMeetsNoCap(net, t, es[1..]);
    }
  }
}
