/** Brakes on a federated search: every run is finite, every registry answers and fans out once, and
    both budgets bound how deep a chain of legs can get. No assumption is made about the topology, the
    interleaving or the envelopes of the first legs. */
module Bounds {
  import opened Options
  import opened FanOut
  import opened Protocol

  // --------------------------------------------------------------------------- termination

  function Capacity(reg: Registry): nat {
    Min(reg.maxPeers, |reg.peers|)
  }

  /** How many legs a set of registries could still send. */
  ghost function Room(net: Net, rs: set<Iri>): nat
    requires rs <= net.Keys
  {
    if rs == {} then 0 else var r :| r in rs; Capacity(net[r]) + Room(net, rs - {r})
  }

  lemma {:induction false} RoomWithout(net: Net, rs: set<Iri>, r: Iri)
    requires rs <= net.Keys && r in rs
    ensures Room(net, rs) == Capacity(net[r]) + Room(net, rs - {r})
    decreases rs
  {
    var x :| x in rs && Room(net, rs) == Capacity(net[x]) + Room(net, rs - {x});
    if x != r {
      RoomWithout(net, rs - {x}, r);
      RoomWithout(net, rs - {r}, x);
      assert rs - {x} - {r} == rs - {r} - {x};
    }
  }

  function LegWeight(l: Leg): nat {
    (match l.phase case Sent => 2 case Working => 1 case Done(_) => 0) + if l.lost then 0 else 1
  }

  function Weight(legs: seq<Leg>): nat {
    if legs == [] then 0 else Weight(legs[..|legs| - 1]) + LegWeight(legs[|legs| - 1])
  }

  lemma {:induction false} WeightUpdate(legs: seq<Leg>, i: nat, l: Leg)
    requires i < |legs|
    ensures Weight(legs[i := l]) + LegWeight(legs[i]) == Weight(legs) + LegWeight(l)
  {
    var n := |legs| - 1;
    if i == n {
      assert legs[i := l][..n] == legs[..n];
    } else {
      WeightUpdate(legs[..n], i, l);
      assert legs[i := l][..n] == legs[..n][i := l];
    }
  }

  lemma {:induction false} WeightAppend(legs: seq<Leg>, more: seq<Leg>)
    ensures Weight(legs + more) == Weight(legs) + Weight(more)
  {
    if more == [] {
      assert legs + more == legs;
    } else {
      var n := |more| - 1;
      WeightAppend(legs, more[..n]);
      assert (legs + more)[..|legs + more| - 1] == legs + more[..n];
    }
  }

  lemma {:induction false} WeightOfNew(legs: seq<Leg>)
    requires forall k | 0 <= k < |legs| :: legs[k].phase.Sent? && !legs[k].lost
    ensures Weight(legs) == 3 * |legs|
  {
    if legs != [] {
      WeightOfNew(legs[..|legs| - 1]);
    }
  }

  /** The measure: what the legs still have to do, and what unclaimed registries may still send. */
  ghost function Fuel(net: Net, s: State): nat {
    Weight(s.legs) + 3 * Room(net, net.Keys - s.claimed)
  }

  ghost function LegsLeft(net: Net, s: State): nat {
    |s.legs| + Room(net, net.Keys - s.claimed)
  }

  lemma FreshArrivalSpends(net: Net, s: State, i: nat)
    requires Enabled(net, s, Arrive(i)) && s.legs[i].to !in s.claimed
    ensures Fuel(net, Apply(net, s, Arrive(i))) < Fuel(net, s)
    ensures LegsLeft(net, Apply(net, s, Arrive(i))) <= LegsLeft(net, s)
  {
    var l, t := s.legs[i], Apply(net, s, Arrive(i));
    var kids := Children(net, i, l);
    var accepted := l.(phase := Working, first := |s.legs|, count := |kids|);
    WeightUpdate(s.legs, i, accepted);
    WeightAppend(s.legs[i := accepted], kids);
    WeightOfNew(kids);
    assert |kids| <= Capacity(net[l.to]) by {
      AskedFacts(l.to, net[l.to], l.req);
    }
    RoomWithout(net, net.Keys - s.claimed, l.to);
    assert net.Keys - t.claimed == net.Keys - s.claimed - {l.to};
  }

  lemma StepSpends(net: Net, s: State, e: Event)
    requires Enabled(net, s, e)
    ensures Fuel(net, Apply(net, s, e)) < Fuel(net, s)
    ensures LegsLeft(net, Apply(net, s, e)) <= LegsLeft(net, s)
  {
    var i := e.leg;
    if e.Arrive? && s.legs[i].to !in s.claimed {
      FreshArrivalSpends(net, s, i);
    } else {
      OtherStepsSpend(net, s, e);
      WeightUpdate(s.legs, i, Apply(net, s, e).legs[i]);
    }
  }

  lemma OtherStepsSpend(net: Net, s: State, e: Event)
    requires Enabled(net, s, e) && (e.Arrive? ==> s.legs[e.leg].to in s.claimed)
    ensures var t, i := Apply(net, s, e), e.leg;
            |t.legs| == |s.legs| && t.claimed == s.claimed && t.legs == s.legs[i := t.legs[i]]
            && LegWeight(t.legs[i]) < LegWeight(s.legs[i])
  {
    match e
    case Arrive(_) =>
    case GiveUp(_) =>
    case Finish(i) => AnswerSpends(net, s, i);
  }

  lemma AnswerSpends(net: Net, s: State, i: nat)
    requires Enabled(net, s, Finish(i))
    ensures var t := Apply(net, s, Finish(i));
            && t.claimed == s.claimed && |t.legs| == |s.legs| && t.legs == s.legs[i := t.legs[i]]
            && t.legs[i].phase.Done? && t.legs[i].lost == s.legs[i].lost
  {
    var (hits, partial) := Gathered(net, s, i);
  }

  /** Every run is finite: it has at most `Fuel` steps. And the legs sent on the way never exceed the
      sum over the registries of the smaller of `max_peers` and their active peers. */
  lemma {:induction false} RunsAreFinite(net: Net, s: State, es: seq<Event>)
    requires Runs(net, s, es)
    ensures |es| + Fuel(net, Final(net, s, es)) <= Fuel(net, s)
    ensures LegsLeft(net, Final(net, s, es)) <= LegsLeft(net, s)
    decreases |es|
  {
    if es != [] {
      StepSpends(net, s, es[0]);
      RunsAreFinite(net, Apply(net, s, es[0]), es[1..]);
    }
  }

  lemma LegsSentBounded(net: Net, s: State, es: seq<Event>)
    requires Initial(s) && Runs(net, s, es)
    ensures |Final(net, s, es).legs| - |s.legs| <= Room(net, net.Keys)
    ensures |es| <= 3 * (|s.legs| + Room(net, net.Keys))
  {
    RunsAreFinite(net, s, es);
    WeightOfNew(s.legs);
    assert net.Keys - s.claimed == net.Keys;
  }

  // --------------------------------------------------------------------------- at most once

  lemma InitialInv(net: Net, s: State)
    requires Initial(s)
    ensures Inv(net, s)
  {
    forall i | 0 <= i < |s.legs|
      ensures HasSender(net, s, i) && !s.legs[i].Accepted()
    {
      assert IsRoot(s.legs[i]);
    }
  }

  lemma ReachableInv(net: Net, s: State, es: seq<Event>)
    requires Initial(s) && Runs(net, s, es)
    ensures Inv(net, Final(net, s, es))
  {
    InitialInv(net, s);
    RunKeepsInv(net, s, es);
  }

  /** Each registry answers locally and fans out at most once for the query: two accepted legs, or two
      senders of legs, at one registry are one leg. */
  lemma AnswersAndFansOutOnce(net: Net, s: State, es: seq<Event>, i: nat, j: nat)
    requires Initial(s) && Runs(net, s, es)
    requires var t := Final(net, s, es);
             i < |t.legs| && j < |t.legs| && t.legs[i].to == t.legs[j].to &&
             (t.legs[i].Accepted() || exists k :: 0 <= k < |t.legs| && t.legs[k].from == Some(i)) &&
             (t.legs[j].Accepted() || exists k :: 0 <= k < |t.legs| && t.legs[k].from == Some(j))
    ensures i == j
  {
    ReachableInv(net, s, es);
    var t := Final(net, s, es);
    if k :| 0 <= k < |t.legs| && t.legs[k].from == Some(i) {
      assert HasSender(net, t, k);
    }
    if k :| 0 <= k < |t.legs| && t.legs[k].from == Some(j) {
      assert HasSender(net, t, k);
    }
    assert i < j ==> Apart(t, i, j);
    assert j < i ==> Apart(t, j, i);
  }

  /** Nothing waits for ever on the registries' side: while a leg is unanswered, some registry can
      take the next step. */
  lemma NoDeadlock(net: Net, s: State, i: nat) returns (e: Event)
    requires Inv(net, s) && (forall k | 0 <= k < |s.legs| :: s.legs[k].to in net)
    requires i < |s.legs| && !s.legs[i].phase.Done?
    ensures !e.GiveUp? && Enabled(net, s, e)
    decreases |s.legs| - i
  {
    var l := s.legs[i];
    if l.phase.Sent? {
      assert HasSender(net, s, i);
      return Arrive(i);
    }
    assert OwnsBlock(net, s, i);
    if k :| l.first <= k < l.first + l.count && !s.legs[k].phase.Done? {
      e := NoDeadlock(net, s, k);
    } else {
      e := Finish(i);
    }
  }

  /** Nor does a registry have to wait for others: giving up what it still waits for, it can answer, whatever they do. */
  lemma CanAlwaysAnswer(net: Net, s: State, i: nat) returns (es: seq<Event>)
    requires Inv(net, s) && i < |s.legs| && s.legs[i].phase.Working?
    ensures Runs(net, s, es) && Enabled(net, Final(net, s, es), Finish(i)) && forall e | e in es :: e.GiveUp?
  {
    assert OwnsBlock(net, s, i);
    es := GivesUpTheRest(net, s, i, s.legs[i].first + s.legs[i].count);
  }

  lemma {:induction false} GivesUpTheRest(net: Net, s: State, i: nat, n: nat) returns (es: seq<Event>)
    requires Inv(net, s) && i < |s.legs| && s.legs[i].phase.Working?
    requires s.legs[i].first <= n <= s.legs[i].first + s.legs[i].count <= |s.legs|
    requires forall k | n <= k < s.legs[i].first + s.legs[i].count :: s.legs[k].Settled()
    ensures Runs(net, s, es) && Enabled(net, Final(net, s, es), Finish(i)) && forall e | e in es :: e.GiveUp?
    decreases n
  {
    assert OwnsBlock(net, s, i);
    if n == s.legs[i].first {
      es := [];
    } else if s.legs[n - 1].Settled() {
      es := GivesUpTheRest(net, s, i, n - 1);
    } else {
      var e := GiveUp(n - 1);
      assert ChildOf(net, s, i, n - 1) && Enabled(net, s, e);
      StepKeepsInv(net, s, e);
      var rest := GivesUpTheRest(net, Apply(net, s, e), i, n - 1);
      es := [e] + rest;
      assert es[1..] == rest;
    }
  }

  // ------------------------------------------------------------------------------- budgets

  /** From a leg to the one it caused: a hop fewer, never above the receiver's own maximum, and a time
      budget within the caller's less its margin; hops are passed on only with 250 ms in hand. */
  lemma LegBudgets(net: Net, s: State, k: nat, i: nat)
    requires Inv(net, s) && i < |s.legs| && k < |s.legs| && s.legs[k].from == Some(i) && s.legs[k].to in net
    ensures s.legs[i].to in net && s.legs[k].depth == s.legs[i].depth + 1
    ensures var c, l := s.legs[k], s.legs[i];
            var here, there := net[c.to], net[l.to];
            && Granted(here, c.req) + 1 <= Granted(there, l.req)
            && Granted(here, c.req) <= here.maxHops
            && TimeBudget(here, c.req) <= here.ownTimeout
            && TimeBudget(here, c.req) <= Max(1, ForwardBudget(there, l.req))
            && (Granted(here, c.req) > 0 ==>
                  TimeBudget(there, l.req) >= there.hopMargin + MIN_USEFUL_HOP_BUDGET
                  && TimeBudget(here, c.req) + there.hopMargin <= TimeBudget(there, l.req))
  {
    assert HasSender(net, s, k);
    var l := s.legs[i];
    AskedFacts(l.to, net[l.to], l.req);
  }

  /** What `d` hops of at least `m` milliseconds' margin each cost. */
  function Cost(d: nat, m: nat): nat {
    if d == 0 then 0 else Cost(d - 1, m) + m
  }

  /** The leg a chain of legs started with. */
  function Root(s: State, k: nat): (r: nat)
    requires k < |s.legs|
    ensures r <= k
  {
    match s.legs[k].from
    case None => k
    case Some(i) => if i < k then Root(s, i) else k
  }

  /** Along every chain of legs the hops spent and the hops still granted fit the root's own maximum;
      and while hops are left, the margins paid on the way fit the root's time. */
  lemma {:induction false} ChainBudget(net: Net, s: State, k: nat, m: nat)
    requires Inv(net, s) && k < |s.legs| && (forall i | 0 <= i < |s.legs| :: s.legs[i].to in net)
    requires forall r | r in net :: net[r].hopMargin >= m
    ensures s.legs[Root(s, k)].from.None?
    ensures var c, r := s.legs[k], s.legs[Root(s, k)];
            && c.depth + Granted(net[c.to], c.req) <= Granted(net[r.to], r.req) <= net[r.to].maxHops
            && (Granted(net[c.to], c.req) > 0 ==>
                  Cost(c.depth, m) + TimeBudget(net[c.to], c.req) <= TimeBudget(net[r.to], r.req))
    decreases k
  {
    assert HasSender(net, s, k);
    if s.legs[k].from.Some? {
      var i := s.legs[k].from.value;
      LegBudgets(net, s, k, i);
      ChainBudget(net, s, i, m);
    }
  }

  /** Both budgets bound the depth of a chain: the hops directly, and the time because the leg before
      the last was only sent with hops, and so only with its margin and 250 ms in hand. */
  lemma DepthBounded(net: Net, s: State, k: nat, m: nat)
    requires Inv(net, s) && k < |s.legs| && (forall i | 0 <= i < |s.legs| :: s.legs[i].to in net)
    requires forall r | r in net :: net[r].hopMargin >= m
    ensures s.legs[k].depth <= net[s.legs[Root(s, k)].to].maxHops
    ensures s.legs[k].depth >= 2 ==>
              Cost(s.legs[k].depth - 1, m) + MIN_USEFUL_HOP_BUDGET <= net[s.legs[Root(s, k)].to].ownTimeout
  {
    ChainBudget(net, s, k, m);
    if s.legs[k].depth >= 2 {
      LastButOne(net, s, k, m);
    }
  }

  lemma LastButOne(net: Net, s: State, k: nat, m: nat)
    requires Inv(net, s) && k < |s.legs| && (forall i | 0 <= i < |s.legs| :: s.legs[i].to in net)
    requires (forall r | r in net :: net[r].hopMargin >= m) && s.legs[k].depth >= 2
    ensures Cost(s.legs[k].depth - 1, m) + MIN_USEFUL_HOP_BUDGET <= net[s.legs[Root(s, k)].to].ownTimeout
  {
    assert HasSender(net, s, k);
    var i := s.legs[k].from.value;
    assert HasSender(net, s, i);
    var g := s.legs[i].from.value;
    LegBudgets(net, s, k, i);
    LegBudgets(net, s, i, g);
    ChainBudget(net, s, g, m);
  }
}
