/** One query flooding a network of registries: the handlers of FanOut run against each other, with
    any topology and any interleaving of arrivals, give-ups and answers. */
module Protocol {
  import opened Options
  import opened Copies
  import opened FanOut

  type Net = map<Iri, Registry>

  datatype Phase = Sent | Working | Done(outcome: Outcome)

  /** One request on its way to, at, or answered by a registry. Legs are numbered in the order they
      were sent; the legs a registry sends when it fans out are `first .. first + count`. `lost` means
      the sender stopped waiting. `depth` counts legs from the root. */
  datatype Leg = Leg(from: Option<nat>, to: Iri, req: Request, depth: nat, phase: Phase,
                     first: nat, count: nat, lost: bool)
  {
    /** The registry claimed the query for this leg. */
    predicate Accepted() {
      phase.Working? || (phase.Done? && phase.outcome.Answered?)
    }

    predicate Settled() {
      phase.Done? || lost
    }

    /** What the sender sees. */
    function Seen(): Outcome
      requires Settled()
    {
      if lost then Lost else phase.outcome
    }
  }

  datatype State = State(legs: seq<Leg>, claimed: set<Iri>)

  datatype Event =
    | Arrive(leg: nat)    // the request reaches its registry, which claims the id or refuses
    | GiveUp(leg: nat)    // the sender's timeout or an error ends its wait for this leg
    | Finish(leg: nat)    // every leg it sent is settled: the registry merges and answers

  // ------------------------------------------------------------------------------- steps

  function Child(net: Net, i: nat, l: Leg, p: Iri): Leg
    requires l.to in net
  {
    Leg(Some(i), p, ChildRequest(l.to, net[l.to], l.req), l.depth + 1, Sent, 0, 0, false)
  }

  function Children(net: Net, i: nat, l: Leg): (r: seq<Leg>)
    requires l.to in net
    ensures |r| == |Asked(l.to, net[l.to], l.req)|
    ensures forall k | 0 <= k < |r| :: r[k] == Child(net, i, l, Asked(l.to, net[l.to], l.req)[k])
  {
    var asked := Asked(l.to, net[l.to], l.req);
    seq(|asked|, k requires 0 <= k < |asked| => Child(net, i, l, asked[k]))
  }

  predicate Enabled(net: Net, s: State, e: Event) {
    e.leg < |s.legs| &&
    var l := s.legs[e.leg];
    match e
    case Arrive(_) => l.phase.Sent? && l.to in net && l.req.Participates()
    case GiveUp(_) => l.from.Some? && l.from.value < |s.legs| && s.legs[l.from.value].phase.Working? && !l.lost
    case Finish(_) =>
      && l.phase.Working? && l.to in net
      && l.first + l.count <= |s.legs|
      && l.count == |Asked(l.to, net[l.to], l.req)|
      && forall k | l.first <= k < l.first + l.count :: s.legs[k].Settled()
  }

  function Outcomes(s: State, l: Leg): (r: seq<Outcome>)
    requires l.first + l.count <= |s.legs|
    requires forall k | l.first <= k < l.first + l.count :: s.legs[k].Settled()
    ensures |r| == l.count
    ensures forall k | 0 <= k < l.count :: r[k] == s.legs[l.first + k].Seen()
  {
    seq(l.count, k requires 0 <= k < l.count => s.legs[l.first + k].Seen())
  }

  /** Everything a registry holds for leg `i` when its last leg settles, before copies are merged. */
  function Gathered(net: Net, s: State, i: nat): (seq<Hit>, bool)
    requires Enabled(net, s, Finish(i))
  {
    var l := s.legs[i];
    Gather(net[l.to], Capped(l.to, net[l.to], l.req), Asked(l.to, net[l.to], l.req), Outcomes(s, l), l.count)
  }

  function Apply(net: Net, s: State, e: Event): State
    requires Enabled(net, s, e)
  {
    var i, l := e.leg, s.legs[e.leg];
    match e
    case Arrive(_) =>
      if l.to in s.claimed then s.(legs := s.legs[i := l.(phase := Done(Refused))])
      else
        var kids := Children(net, i, l);
        State(s.legs[i := l.(phase := Working, first := |s.legs|, count := |kids|)] + kids, s.claimed + {l.to})
    case GiveUp(_) => s.(legs := s.legs[i := l.(lost := true)])
    case Finish(_) =>
      var (hits, partial) := Gathered(net, s, i);
      s.(legs := s.legs[i := l.(phase := Done(Settle(l.to, net[l.to], l.req.relayed, hits, partial)))])
  }

  ghost predicate Runs(net: Net, s: State, es: seq<Event>)
    decreases |es|
  {
    es == [] || (Enabled(net, s, es[0]) && Runs(net, Apply(net, s, es[0]), es[1..]))
  }

  ghost function Final(net: Net, s: State, es: seq<Event>): State
    requires Runs(net, s, es)
    decreases |es|
  {
    if es == [] then s else Final(net, Apply(net, s, es[0]), es[1..])
  }

  // ------------------------------------------------------------------- what every step keeps

  /** A leg with no sender: a search a user starts, or a leg from outside the network, whose envelope
      may say anything. */
  predicate IsRoot(l: Leg) {
    l.from.None? && l.depth == 0 && l.phase.Sent? && l.count == 0 && !l.lost && l.req.Participates()
  }

  ghost predicate Initial(s: State) {
    s.claimed == {} && forall i | 0 <= i < |s.legs| :: IsRoot(s.legs[i])
  }

  ghost predicate ChildOf(net: Net, s: State, i: nat, k: nat)
    requires i < |s.legs| && s.legs[i].to in net && k < |s.legs|
  {
    var l, c := s.legs[i], s.legs[k];
    && l.first <= k < l.first + l.count
    && l.count == |Asked(l.to, net[l.to], l.req)|
    && c.from == Some(i)
    && c.to == Asked(l.to, net[l.to], l.req)[k - l.first]
    && c.req == ChildRequest(l.to, net[l.to], l.req)
    && c.depth == l.depth + 1
  }

  /** A leg that was accepted owns a block of later legs, one per peer asked. */
  ghost predicate OwnsBlock(net: Net, s: State, i: nat)
    requires i < |s.legs|
  {
    var l := s.legs[i];
    && l.to in net && l.to in s.claimed
    && i < l.first && l.first + l.count <= |s.legs|
    && l.count == |Asked(l.to, net[l.to], l.req)|
    && (forall k | l.first <= k < l.first + l.count :: ChildOf(net, s, i, k))
    && (l.phase.Done? ==> forall k | l.first <= k < l.first + l.count :: s.legs[k].Settled())
  }

  /** A leg with a sender lies in the sender's block. */
  ghost predicate HasSender(net: Net, s: State, k: nat)
    requires k < |s.legs|
  {
    var c := s.legs[k];
    match c.from
    case None => c.depth == 0 && !c.lost && c.req.Participates()
    case Some(i) => i < k && s.legs[i].Accepted() && s.legs[i].to in net && ChildOf(net, s, i, k)
  }

  ghost predicate Inv(net: Net, s: State) {
    && (forall i {:trigger OwnsBlock(net, s, i)} | 0 <= i < |s.legs| && s.legs[i].Accepted() :: OwnsBlock(net, s, i))
    && (forall i {:trigger HasSender(net, s, i)} | 0 <= i < |s.legs| :: HasSender(net, s, i))
    && (forall i, j {:trigger Apart(s, i, j)} | 0 <= i < j < |s.legs| :: Apart(s, i, j))
    && (forall r {:trigger Claimant(s, r)} | r in s.claimed :: r in net && Claimant(s, r))
  }

  /** Two accepted legs are at two registries. */
  ghost predicate Apart(s: State, i: nat, j: nat)
    requires i < |s.legs| && j < |s.legs|
  {
    s.legs[i].Accepted() && s.legs[j].Accepted() ==> s.legs[i].to != s.legs[j].to
  }

  /** Some accepted leg made this claim. */
  ghost predicate Claimant(s: State, r: Iri) {
    exists i :: 0 <= i < |s.legs| && s.legs[i].Accepted() && s.legs[i].to == r
  }

  /** Parts of two consecutive states a leg's own story depends on. */
  ghost predicate SameStory(a: Leg, b: Leg) {
    && a.from == b.from && a.to == b.to && a.req == b.req && a.depth == b.depth
    && (a.Accepted() ==> b.Accepted() && a.first == b.first && a.count == b.count)
    && (a.Settled() ==> b.Settled())
  }

  ghost predicate Later(s: State, t: State) {
    && |s.legs| <= |t.legs| && s.claimed <= t.claimed
    && forall i | 0 <= i < |s.legs| :: SameStory(s.legs[i], t.legs[i])
  }

  /** One leg moves on, others may be added. */
  lemma OneMoves(s: State, t: State, i: nat)
    requires i < |s.legs| <= |t.legs| && s.claimed <= t.claimed && SameStory(s.legs[i], t.legs[i])
    requires forall k | 0 <= k < |s.legs| && k != i :: t.legs[k] == s.legs[k]
    ensures Later(s, t)
  {
  }

  lemma StepLater(net: Net, s: State, e: Event)
    requires Enabled(net, s, e)
    ensures Later(s, Apply(net, s, e))
  {
    var t, i := Apply(net, s, e), e.leg;
    assert SameStory(s.legs[i], t.legs[i]);
    assert |s.legs| <= |t.legs| && forall k | 0 <= k < |s.legs| && k != i :: t.legs[k] == s.legs[k];
    OneMoves(s, t, i);
  }

  lemma ChildOfLater(net: Net, s: State, t: State, i: nat, k: nat)
    requires Later(s, t) && i < |s.legs| && k < |s.legs| && s.legs[i].to in net && s.legs[i].Accepted()
    requires ChildOf(net, s, i, k)
    ensures ChildOf(net, t, i, k)
  {
    assert SameStory(s.legs[i], t.legs[i]) && SameStory(s.legs[k], t.legs[k]);
  }

  lemma SendersKept(net: Net, s: State, e: Event)
    requires Inv(net, s) && Enabled(net, s, e)
    ensures var t := Apply(net, s, e);
            forall i | 0 <= i < |t.legs| :: HasSender(net, t, i)
  {
    var t := Apply(net, s, e);
    StepLater(net, s, e);
    forall k | 0 <= k < |t.legs|
      ensures HasSender(net, t, k)
    {
      if k < |s.legs| {
        assert HasSender(net, s, k);
        if s.legs[k].from.Some? {
          var i := s.legs[k].from.value;
          ChildOfLater(net, s, t, i, k);
        }
      }
    }
  }

  lemma OldBlockKept(net: Net, s: State, t: State, i: nat)
    requires Later(s, t) && i < |s.legs| && s.legs[i].Accepted() && OwnsBlock(net, s, i)
    requires t.legs[i].phase.Done? ==>
               forall k | s.legs[i].first <= k < s.legs[i].first + s.legs[i].count :: s.legs[k].Settled()
    ensures OwnsBlock(net, t, i)
  {
    assert SameStory(s.legs[i], t.legs[i]);
    forall k | s.legs[i].first <= k < s.legs[i].first + s.legs[i].count
      ensures ChildOf(net, t, i, k)
      ensures t.legs[i].phase.Done? ==> t.legs[k].Settled()
    {
      ChildOfLater(net, s, t, i, k);
      assert SameStory(s.legs[k], t.legs[k]);
    }
  }

  lemma NewBlock(net: Net, s: State, i: nat)
    requires Enabled(net, s, Arrive(i)) && s.legs[i].to !in s.claimed
    ensures OwnsBlock(net, Apply(net, s, Arrive(i)), i)
  {
    var t := Apply(net, s, Arrive(i));
    var kids := Children(net, i, s.legs[i]);
    forall k | |s.legs| <= k < |s.legs| + |kids|
      ensures ChildOf(net, t, i, k)
    {
      assert t.legs[k] == kids[k - |s.legs|];
    }
  }

  lemma BlocksKept(net: Net, s: State, e: Event)
    requires Inv(net, s) && Enabled(net, s, e)
    ensures var t := Apply(net, s, e);
            forall i | 0 <= i < |t.legs| && t.legs[i].Accepted() :: OwnsBlock(net, t, i)
  {
    var t := Apply(net, s, e);
    StepLater(net, s, e);
    forall i | 0 <= i < |t.legs| && t.legs[i].Accepted()
      ensures OwnsBlock(net, t, i)
    {
      if i < |s.legs| && s.legs[i].Accepted() {
        assert OwnsBlock(net, s, i);
        OldBlockKept(net, s, t, i);
      } else {
        assert e == Arrive(i);
        NewBlock(net, s, i);
      }
    }
  }

  lemma ClaimsKept(net: Net, s: State, e: Event)
    requires Inv(net, s) && Enabled(net, s, e)
    ensures var t := Apply(net, s, e);
            && (forall i, j | 0 <= i < j < |t.legs| :: Apart(t, i, j))
            && (forall r | r in t.claimed :: r in net && Claimant(t, r))
  {
    var t := Apply(net, s, e);
    StepLater(net, s, e);
    forall i, j | 0 <= i < j < |t.legs| ensures Apart(t, i, j) {
      if j < |s.legs| {
        assert Apart(s, i, j);
      }
      if i < |s.legs| && s.legs[i].Accepted() {
        assert OwnsBlock(net, s, i);
      }
      if j < |s.legs| && s.legs[j].Accepted() {
        assert OwnsBlock(net, s, j);
      }
    }
    forall r | r in t.claimed
      ensures r in net && Claimant(t, r)
    {
      if r in s.claimed {
        assert Claimant(s, r);
        var i :| 0 <= i < |s.legs| && s.legs[i].Accepted() && s.legs[i].to == r;
        assert SameStory(s.legs[i], t.legs[i]);
      } else {
        assert t.legs[e.leg].Accepted() && t.legs[e.leg].to == r;
      }
    }
  }

  /** Whatever the topology, the envelopes and the interleaving: a claim is made once, an accepted leg
      fans out once, and a registry answers only after every leg it sent is settled. */
  lemma StepKeepsInv(net: Net, s: State, e: Event)
    requires Inv(net, s) && Enabled(net, s, e)
    ensures Inv(net, Apply(net, s, e))
  {
    SendersKept(net, s, e);
    BlocksKept(net, s, e);
    ClaimsKept(net, s, e);
  }

  lemma {:induction false} RunKeepsInv(net: Net, s: State, es: seq<Event>)
    requires Inv(net, s) && Runs(net, s, es)
    ensures Inv(net, Final(net, s, es))
    decreases |es|
  {
    if es != [] {
      StepKeepsInv(net, s, es[0]);
      RunKeepsInv(net, Apply(net, s, es[0]), es[1..]);
    }
  }

  lemma LaterTransitive(s: State, t: State, u: State)
    requires Later(s, t) && Later(t, u)
    ensures Later(s, u)
  {
    forall i | 0 <= i < |s.legs| ensures SameStory(s.legs[i], u.legs[i]) {
      assert SameStory(s.legs[i], t.legs[i]) && SameStory(t.legs[i], u.legs[i]);
    }
  }

  lemma {:induction false} RunLater(net: Net, s: State, es: seq<Event>)
    requires Runs(net, s, es)
    ensures Later(s, Final(net, s, es))
    decreases |es|
  {
    if es != [] {
      var t := Apply(net, s, es[0]);
      StepLater(net, s, es[0]);
      RunLater(net, t, es[1..]);
      LaterTransitive(s, t, Final(net, t, es[1..]));
    }
  }

  // ------------------------------------------------------------- the claim, over a whole run

  /** The `n`th event of a run that ends in `t` was a request reaching `r`. */
  predicate ReachedBy(t: State, es: seq<Event>, n: nat, r: Iri) {
    n < |es| && es[n].Arrive? && es[n].leg < |t.legs| && t.legs[es[n].leg].to == r
  }

  lemma {:induction false} ClaimedIffReached(net: Net, s: State, es: seq<Event>, r: Iri)
    requires Runs(net, s, es)
    ensures r in Final(net, s, es).claimed <==> r in s.claimed || exists n :: 0 <= n < |es| && ReachedBy(Final(net, s, es), es, n, r)
    decreases |es|
  {
    if es != [] {
      var e, t, u := es[0], Apply(net, s, es[0]), Final(net, s, es);
      ClaimedIffReached(net, t, es[1..], r);
      StepLater(net, s, e);
      RunLater(net, t, es[1..]);
      assert SameStory(s.legs[e.leg], t.legs[e.leg]) && SameStory(t.legs[e.leg], u.legs[e.leg]);
      if n :| 0 <= n < |es| - 1 && ReachedBy(u, es[1..], n, r) {
        assert ReachedBy(u, es, n + 1, r);
      }
      if n :| 0 <= n < |es| && ReachedBy(u, es, n, r) {
        assert n > 0 ==> ReachedBy(u, es[1..], n - 1, r);
      }
      if e.Arrive? && s.legs[e.leg].to == r {
        assert ReachedBy(u, es, 0, r);
      }
    }
  }

  /** Whatever the interleaving, of all the requests that reach a registry exactly the first is accepted and
      every later one is refused. */
  lemma FirstArrivalIsAccepted(net: Net, s: State, es: seq<Event>, i: nat)
    requires s.claimed == {} && Runs(net, s, es) && Enabled(net, Final(net, s, es), Arrive(i))
    ensures var t := Final(net, s, es);
            var after := Apply(net, t, Arrive(i)).legs[i].phase;
            if exists n :: 0 <= n < |es| && ReachedBy(t, es, n, t.legs[i].to) then after == Done(Refused) else after == Working
  {
    ClaimedIffReached(net, s, es, Final(net, s, es).legs[i].to);
  }
}
