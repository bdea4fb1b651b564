/** What an answer that is not called partial is worth, over every run, whatever was given up or cut on the
    way: what the claimed registries hold is what the origin holds and what the peers' caps took away. */
module Completeness {
  import opened Options
  import opened Copies
  import opened FanOut
  import opened Protocol
  import opened Coverage
  import opened Sums
  import opened Conservation
  import Bounds

  // ---------------------------------------------------------------- answers, once given

  /** Everything a registry asked for leg `i` has come back or been given up. */
  ghost predicate Collects(net: Net, s: State, i: nat) {
    i < |s.legs| &&
    var l := s.legs[i];
    l.to in net && l.first + l.count <= |s.legs| && l.count == |Asked(l.to, net[l.to], l.req)|
    && forall k | l.first <= k < l.first + l.count :: s.legs[k].Settled()
  }

  function Collected(net: Net, s: State, i: nat): (seq<Hit>, bool)
    requires Collects(net, s, i)
  {
    var l := s.legs[i];
    Gather(net[l.to], Capped(l.to, net[l.to], l.req), Asked(l.to, net[l.to], l.req), Outcomes(s, l), l.count)
  }

  /** The answer of leg `i` is still what its registry made of what it collected. */
  ghost predicate Recorded(net: Net, s: State, i: nat)
    requires i < |s.legs|
  {
    s.legs[i].phase.Done? && s.legs[i].phase.outcome.Answered? ==>
      && Collects(net, s, i)
      && s.legs[i].phase.outcome == Settle(s.legs[i].to, net[s.legs[i].to], s.legs[i].req.relayed,
                                           Collected(net, s, i).0, Collected(net, s, i).1)
  }

  ghost predicate AllRecorded(net: Net, s: State) {
    forall i {:trigger Recorded(net, s, i)} | 0 <= i < |s.legs| :: Recorded(net, s, i)
  }

  /** What a sender has seen of a settled leg does not change once it waits no more. */
  lemma SeenStays(net: Net, s: State, e: Event, k: nat)
    requires Enabled(net, s, e) && k < |s.legs| && s.legs[k].Settled() && e != GiveUp(k)
    ensures Apply(net, s, e).legs[k].Settled() && Apply(net, s, e).legs[k].Seen() == s.legs[k].Seen()
  {
  }

  lemma CollectedStays(net: Net, s: State, e: Event, i: nat)
    requires Inv(net, s) && Enabled(net, s, e) && Collects(net, s, i) && s.legs[i].Accepted()
    requires s.legs[i].phase.Done? || e == Finish(i)
    ensures Collects(net, Apply(net, s, e), i) && Collected(net, Apply(net, s, e), i) == Collected(net, s, i)
  {
    var t, l := Apply(net, s, e), s.legs[i];
    StepLater(net, s, e);
    assert SameStory(l, t.legs[i]);
    forall k | l.first <= k < l.first + l.count
      ensures t.legs[k].Settled() && t.legs[k].Seen() == s.legs[k].Seen()
    {
      assert OwnsBlock(net, s, i);
      assert ChildOf(net, s, i, k);
      SeenStays(net, s, e, k);
    }
    assert Outcomes(t, t.legs[i]) == Outcomes(s, l);
  }

  lemma StepRecords(net: Net, s: State, e: Event)
    requires Inv(net, s) && AllRecorded(net, s) && Enabled(net, s, e)
    ensures AllRecorded(net, Apply(net, s, e))
  {
    var t := Apply(net, s, e);
    StepLater(net, s, e);
    forall i | 0 <= i < |t.legs| ensures Recorded(net, t, i) {
      if i < |s.legs| {
        assert Recorded(net, s, i) && SameStory(s.legs[i], t.legs[i]);
        OneRecorded(net, s, e, i);
      }
    }
  }

  lemma OneRecorded(net: Net, s: State, e: Event, i: nat)
    requires Inv(net, s) && Enabled(net, s, e) && i < |s.legs| && Recorded(net, s, i)
    ensures Recorded(net, Apply(net, s, e), i)
  {
    if e == Finish(i) {
      CollectedStays(net, s, e, i);
    } else if s.legs[i].phase.Done? && s.legs[i].phase.outcome.Answered? {
      CollectedStays(net, s, e, i);
      assert Apply(net, s, e).legs[i].phase == s.legs[i].phase;
    }
  }

  lemma {:induction false} RunRecords(net: Net, s: State, es: seq<Event>)
    requires Inv(net, s) && AllRecorded(net, s) && Runs(net, s, es)
    ensures AllRecorded(net, Final(net, s, es))
    decreases |es|
  {
    if es != [] {
      StepRecords(net, s, es[0]);
      StepKeepsInv(net, s, es[0]);
      RunRecords(net, Apply(net, s, es[0]), es[1..]);
    }
  }

  // -------------------------------------------------------------- nothing partial, nothing lost

  lemma {:induction false} GatherClean(reg: Registry, capped: bool, asked: seq<Iri>, outcomes: seq<Outcome>, n: nat)
    requires |asked| == |outcomes| && n <= |asked| && !Gather(reg, capped, asked, outcomes, n).1
    ensures !capped && forall j | 0 <= j < n :: !outcomes[j].Lost? && (outcomes[j].Answered? ==> !outcomes[j].partial)
  {
    if n > 0 {
      GatherClean(reg, capped, asked, outcomes, n - 1);
    }
  }

  ghost predicate CleanLeg(l: Leg) {
    l.phase.Done? && !l.lost && (l.phase.outcome == Refused || (l.phase.outcome.Answered? && !l.phase.outcome.partial))
  }

  lemma BlockClean(net: Net, t: State, i: nat, k: nat)
    requires Collects(net, t, i) && !Collected(net, t, i).1
    requires t.legs[i].first <= k < t.legs[i].first + t.legs[i].count
    ensures CleanLeg(t.legs[k])
  {
    var l := t.legs[i];
    GatherClean(net[l.to], Capped(l.to, net[l.to], l.req), Asked(l.to, net[l.to], l.req), Outcomes(t, l), l.count);
    assert !Outcomes(t, l)[k - l.first].Lost?;
  }

  /** A search about to end with an answer that is not partial. */
  ghost predicate Whole(net: Net, t: State) {
    && Inv(net, t) && AllRecorded(net, t) && OneRoot(t)
    && t.legs[0].from.None? && Enabled(net, t, Finish(0)) && !Gathered(net, t, 0).1
  }

  /** Then no leg anywhere was given up, and no answer on the way was partial. */
  lemma {:induction false} AllClean(net: Net, t: State, k: nat)
    requires Whole(net, t) && 0 < k < |t.legs|
    ensures CleanLeg(t.legs[k])
    decreases k
  {
    assert HasSender(net, t, k);
    var i := t.legs[k].from.value;
    assert ChildOf(net, t, i, k);
    if i > 0 {
      AllClean(net, t, i);
      assert Recorded(net, t, i);
    }
    BlockClean(net, t, i, k);
  }

  // ---------------------------------------------------------------------- what the caps took

  /** The hits of leg `k`'s answer. */
  function AnswerOf(t: State, k: nat): seq<Hit>
    requires k < |t.legs|
  {
    if t.legs[k].phase.Done? && t.legs[k].phase.outcome.Answered? then t.legs[k].phase.outcome.hits else []
  }

  /** How many hits its receiver takes. */
  function Cap(net: Net, t: State, k: nat): nat
    requires k < |t.legs|
  {
    match t.legs[k].from
    case None => 0
    case Some(i) => if i < |t.legs| && t.legs[i].to in net then net[t.legs[i].to].maxPeerHits else 0
  }

  /** The count of the first `n` hits. */
  function TotalFirst(f: Measure, hits: seq<Hit>, n: nat): nat
    requires n <= |hits|
  {
    if n == 0 then 0 else TotalFirst(f, hits, n - 1) + f(hits[n - 1])
  }

  lemma {:induction false} FirstTotal(f: Measure, hits: seq<Hit>, n: nat)
    requires n <= |hits|
    ensures Total(f, hits[..n]) == TotalFirst(f, hits, n)
  {
    if n > 0 {
      FirstTotal(f, hits, n - 1);
      assert hits[..n][..n - 1] == hits[..n - 1];
    }
  }

  function TakenOf(f: Measure, net: Net, t: State, k: nat): nat
    requires k < |t.legs|
  {
    TotalFirst(f, AnswerOf(t, k), Min(|AnswerOf(t, k)|, Cap(net, t, k)))
  }

  lemma PrefixTotal(f: Measure, hits: seq<Hit>, n: nat)
    requires n <= |hits|
    ensures Total(f, hits) == TotalFirst(f, hits, n) + Total(f, hits[n..])
  {
    FirstTotal(f, hits, n);
    TotalAppend(f, hits[..n], hits[n..]);
    assert hits == hits[..n] + hits[n..];
  }

  /** The part of an answer that is past its receiver's cap. */
  function Dropped(net: Net, t: State, k: nat): seq<Hit>
    requires k < |t.legs|
  {
    if k == 0 then [] else AnswerOf(t, k)[Min(|AnswerOf(t, k)|, Cap(net, t, k))..]
  }

  function AllDropped(f: Measure, net: Net, t: State): (r: seq<nat>)
    ensures |r| == |t.legs|
    ensures forall k | 0 <= k < |r| :: r[k] == Total(f, Dropped(net, t, k))
  {
    seq<nat>(|t.legs|, k requires 0 <= k < |t.legs| => Total(f, Dropped(net, t, k)))
  }

  lemma TotalRelays(f: Measure, hits: seq<Hit>, peer: Iri, cap: nat)
    requires TravelBlind(f)
    ensures Total(f, Relays(hits, peer, cap)) == TotalFirst(f, hits, Min(|hits|, cap))
  {
    var n := Min(|hits|, cap);
    TotalRelayed(f, hits[..n], peer, cap);
    FirstTotal(f, hits, n);
    assert Relays(hits[..n], peer, cap) == Relays(hits, peer, cap);
  }

  /** An outcome brings `taken`. */
  ghost predicate Brings(f: Measure, cap: nat, o: Outcome, taken: nat) {
    match o
    case Lost => false
    case Refused => taken == 0
    case Answered(h, _) => taken == TotalFirst(f, h, Min(|h|, cap))
  }

  lemma {:induction false} GatherBrings(f: Measure, reg: Registry, asked: seq<Iri>, outcomes: seq<Outcome>, taken: seq<nat>, n: nat)
    requires TravelBlind(f) && |asked| == |outcomes| == |taken| && n <= |asked|
    requires forall j | 0 <= j < n :: Brings(f, reg.maxPeerHits, outcomes[j], taken[j])
    ensures Total(f, Gather(reg, false, asked, outcomes, n).0) == Total(f, reg.local) + Sum(taken[..n])
  {
    if n > 0 {
      GatherBrings(f, reg, asked, outcomes, taken, n - 1);
      assert taken[..n][..n - 1] == taken[..n - 1];
      assert Brings(f, reg.maxPeerHits, outcomes[n - 1], taken[n - 1]);
      if outcomes[n - 1].Answered? {
        var h := outcomes[n - 1].hits;
        TotalRelays(f, h, asked[n - 1], reg.maxPeerHits);
        TotalAppend(f, Gather(reg, false, asked, outcomes, n - 1).0, Relays(h, asked[n - 1], reg.maxPeerHits));
      }
    }
  }

  /** What leg `i`'s registry took from the legs it sent. */
  function TakenBlock(f: Measure, net: Net, t: State, i: nat): (r: seq<nat>)
    requires i < |t.legs| && t.legs[i].first + t.legs[i].count <= |t.legs|
    ensures |r| == t.legs[i].count
    ensures forall j | 0 <= j < |r| :: r[j] == TakenOf(f, net, t, t.legs[i].first + j)
  {
    var l := t.legs[i];
    seq<nat>(l.count, j requires 0 <= j < l.count => TakenOf(f, net, t, l.first + j))
  }

  lemma ChildBrings(f: Measure, net: Net, t: State, i: nat, k: nat)
    requires Whole(net, t) && i < |t.legs| && t.legs[i].Accepted() && t.legs[i].first <= k < t.legs[i].first + t.legs[i].count
    ensures t.legs[i].to in net && k < |t.legs| && t.legs[k].Settled()
    ensures Brings(f, net[t.legs[i].to].maxPeerHits, t.legs[k].Seen(), TakenOf(f, net, t, k))
  {
    assert OwnsBlock(net, t, i);
    assert ChildOf(net, t, i, k);
    AllClean(net, t, k);
  }

  lemma CollectedSum(f: Measure, net: Net, t: State, i: nat, outcomes: seq<Outcome>, taken: seq<nat>)
    requires TravelBlind(f) && Collects(net, t, i) && !Collected(net, t, i).1
    requires outcomes == Outcomes(t, t.legs[i]) && |taken| == |outcomes|
    requires forall j | 0 <= j < |taken| :: Brings(f, net[t.legs[i].to].maxPeerHits, outcomes[j], taken[j])
    ensures Total(f, Collected(net, t, i).0) == Total(f, net[t.legs[i].to].local) + Sum(taken)
  {
    var l := t.legs[i];
    var asked := Asked(l.to, net[l.to], l.req);
    GatherClean(net[l.to], Capped(l.to, net[l.to], l.req), asked, outcomes, l.count);
    assert Collected(net, t, i) == Gather(net[l.to], false, asked, outcomes, |asked|);
    GatherBrings(f, net[l.to], asked, outcomes, taken, |asked|);
    assert taken[..|asked|] == taken;
  }

  ghost predicate ChildrenBring(f: Measure, net: Net, t: State, i: nat)
    requires Collects(net, t, i)
  {
    forall k | t.legs[i].first <= k < t.legs[i].first + t.legs[i].count ::
      Brings(f, net[t.legs[i].to].maxPeerHits, t.legs[k].Seen(), TakenOf(f, net, t, k))
  }

  lemma AllChildrenBring(f: Measure, net: Net, t: State, i: nat)
    requires Whole(net, t) && Collects(net, t, i) && t.legs[i].Accepted()
    ensures ChildrenBring(f, net, t, i)
  {
    forall k | t.legs[i].first <= k < t.legs[i].first + t.legs[i].count
      ensures Brings(f, net[t.legs[i].to].maxPeerHits, t.legs[k].Seen(), TakenOf(f, net, t, k))
    {
      ChildBrings(f, net, t, i, k);
    }
  }

  lemma BlockBrings(f: Measure, net: Net, t: State, i: nat, outcomes: seq<Outcome>, taken: seq<nat>)
    requires Collects(net, t, i) && ChildrenBring(f, net, t, i)
    requires outcomes == Outcomes(t, t.legs[i]) && taken == TakenBlock(f, net, t, i)
    ensures forall j | 0 <= j < |taken| :: Brings(f, net[t.legs[i].to].maxPeerHits, outcomes[j], taken[j])
  {
    var first := t.legs[i].first;
    forall j | 0 <= j < |taken|
      ensures Brings(f, net[t.legs[i].to].maxPeerHits, outcomes[j], taken[j])
    {
      assert outcomes[j] == t.legs[first + j].Seen() && taken[j] == TakenOf(f, net, t, first + j);
    }
  }

  /** What leg `i`'s registry collected is its own answer and what it took from its peers. */
  lemma CollectedTotal(f: Measure, net: Net, t: State, i: nat)
    requires TravelBlind(f) && Whole(net, t) && Collects(net, t, i) && t.legs[i].Accepted() && !Collected(net, t, i).1
    ensures var l := t.legs[i];
            Total(f, Collected(net, t, i).0) == Total(f, net[l.to].local) + Sum(TakenBlock(f, net, t, i))
  {
    var l := t.legs[i];
    var outcomes, taken := Outcomes(t, l), TakenBlock(f, net, t, i);
    AllChildrenBring(f, net, t, i);
    BlockBrings(f, net, t, i, outcomes, taken);
    CollectedSum(f, net, t, i, outcomes, taken);
  }

  /** A relay that does not call itself partial passed on everything it collected. */
  lemma RelayTotal(f: Measure, net: Net, t: State, i: nat)
    requires TravelBlind(f) && Whole(net, t) && 0 < i < |t.legs| && t.legs[i].Accepted()
    ensures var l := t.legs[i];
            && l.to in net && i < l.first && l.first + l.count <= |t.legs|
            && Total(f, AnswerOf(t, i)) == Total(f, net[l.to].local) + Sum(TakenBlock(f, net, t, i))
  {
    assert OwnsBlock(net, t, i) && HasSender(net, t, i);
    assert ChildOf(net, t, t.legs[i].from.value, i);
    AllClean(net, t, i);
    assert Recorded(net, t, i);
    CollectedTotal(f, net, t, i);
    TotalRanked(f, Collected(net, t, i).0);
  }

  // --------------------------------------------------------------------------- the account

  /** The legs that leg `m` sent are the block it owns. */
  ghost predicate SentBlock(t: State, m: nat)
    requires m < |t.legs|
  {
    && m < t.legs[m].first && t.legs[m].first + t.legs[m].count <= |t.legs|
    && forall k | m < k < |t.legs| :: t.legs[k].from == Some(m) <==> t.legs[m].first <= k < t.legs[m].first + t.legs[m].count
  }

  /** Every leg but the root was sent by an accepted leg before it. */
  ghost predicate Tree(t: State) {
    && (forall k {:trigger t.legs[k].from} | 0 < k < |t.legs| ::
          t.legs[k].from.Some? && t.legs[k].from.value < k && t.legs[t.legs[k].from.value].Accepted())
    && forall m {:trigger SentBlock(t, m)} | 0 <= m < |t.legs| && t.legs[m].Accepted() :: SentBlock(t, m)
  }

  lemma IsTree(net: Net, t: State)
    requires Inv(net, t) && OneRoot(t)
    ensures Tree(t)
  {
    forall k | 0 < k < |t.legs|
      ensures t.legs[k].from.Some? && t.legs[k].from.value < k && t.legs[t.legs[k].from.value].Accepted()
    {
      assert HasSender(net, t, k);
    }
    forall m | 0 <= m < |t.legs| && t.legs[m].Accepted() ensures SentBlock(t, m) {
      SendsBlock(net, t, m);
    }
  }

  lemma SendsBlock(net: Net, t: State, m: nat)
    requires Inv(net, t) && m < |t.legs| && t.legs[m].Accepted()
    ensures SentBlock(t, m)
  {
    assert OwnsBlock(net, t, m);
    forall k | m < k < |t.legs|
      ensures t.legs[k].from == Some(m) <==> t.legs[m].first <= k < t.legs[m].first + t.legs[m].count
    {
      SenderIff(net, t, m, k);
    }
  }

  lemma SenderIff(net: Net, t: State, m: nat, k: nat)
    requires Inv(net, t) && m < k < |t.legs| && t.legs[m].Accepted()
    ensures t.legs[k].from == Some(m) <==> t.legs[m].first <= k < t.legs[m].first + t.legs[m].count
  {
    assert HasSender(net, t, k) && OwnsBlock(net, t, m);
    if t.legs[m].first <= k < t.legs[m].first + t.legs[m].count {
      assert ChildOf(net, t, m, k);
    }
  }

  /** The first `m` legs opened up: each stands for its registry's own hits, and what it took from the legs
      it sent stands with them. */
  function Entry(t: State, own: seq<nat>, taken: seq<nat>, m: nat, k: nat): nat
    requires |own| == |taken| == |t.legs| && k < |t.legs|
  {
    if k < m then own[k]
    else if t.legs[k].from.Some? && t.legs[k].from.value < m then taken[k]
    else 0
  }

  function Account(t: State, own: seq<nat>, taken: seq<nat>, m: nat): (r: seq<nat>)
    requires |own| == |taken| == |t.legs|
    ensures |r| == |t.legs|
    ensures forall k | 0 <= k < |r| :: r[k] == Entry(t, own, taken, m, k)
  {
    seq<nat>(|t.legs|, k requires 0 <= k < |t.legs| => Entry(t, own, taken, m, k))
  }

  /** What was taken of a leg's answer and what its receiver's cap dropped is its registry's own hits and what
      that registry took itself. */
  ghost predicate Opens(t: State, own: seq<nat>, taken: seq<nat>, dropped: seq<nat>, k: nat)
    requires |own| == |taken| == |dropped| == |t.legs| && k < |t.legs|
  {
    if t.legs[k].Accepted() then
      SentBlock(t, k)
      && taken[k] + dropped[k] == own[k] + Sum(taken[t.legs[k].first..t.legs[k].first + t.legs[k].count])
    else taken[k] == own[k] == dropped[k] == 0
  }

  ghost predicate AllOpen(t: State, own: seq<nat>, taken: seq<nat>, dropped: seq<nat>)
    requires |own| == |taken| == |dropped| == |t.legs|
  {
    forall k {:trigger Opens(t, own, taken, dropped, k)} | 0 < k < |t.legs| :: Opens(t, own, taken, dropped, k)
  }

  /** Opening leg `m` changes the entries of the legs it sent, and its own. */
  lemma BlockOpened(t: State, own: seq<nat>, taken: seq<nat>, m: nat)
    requires |own| == |taken| == |t.legs| && m < |t.legs| && Tree(t) && SentBlock(t, m)
    ensures var l, before, after := t.legs[m], Account(t, own, taken, m), Account(t, own, taken, m + 1);
            && (forall k | 0 <= k < |t.legs| && k != m :: before[k] == if l.first <= k < l.first + l.count then 0 else after[k])
            && after[l.first..l.first + l.count] == taken[l.first..l.first + l.count]
  {
    var l, after := t.legs[m], Account(t, own, taken, m + 1);
    forall k | 0 <= k < |t.legs| && k != m
      ensures Entry(t, own, taken, m, k) == if l.first <= k < l.first + l.count then 0 else Entry(t, own, taken, m + 1, k)
      ensures l.first <= k < l.first + l.count ==> after[k] == taken[k]
    {
      assert m < k ==> (t.legs[k].from == Some(m) <==> l.first <= k < l.first + l.count);
    }
  }

  /** Opening one more leg only brings to light what the cap of its receiver took. */
  lemma OpenOne(t: State, own: seq<nat>, taken: seq<nat>, dropped: seq<nat>, m: nat)
    requires |own| == |taken| == |dropped| == |t.legs| && 0 < m < |t.legs| && Tree(t) && Opens(t, own, taken, dropped, m)
    ensures Sum(Account(t, own, taken, m + 1)) == Sum(Account(t, own, taken, m)) + dropped[m]
  {
    var before, after := Account(t, own, taken, m), Account(t, own, taken, m + 1);
    assert before[m] == taken[m] && after[m] == own[m];
    if t.legs[m].Accepted() {
      BlockOpened(t, own, taken, m);
      MovedOut(before, after, m, t.legs[m].first, t.legs[m].first + t.legs[m].count, taken[m] + dropped[m]);
    } else {
      NothingOpened(t, own, taken, m);
      SumUpdate(before, m, own[m]);
    }
  }

  lemma MovedOut(before: seq<nat>, after: seq<nat>, m: nat, first: nat, last: nat, answer: nat)
    requires |before| == |after| && m < first <= last <= |before|
    requires forall k | 0 <= k < |before| && k != m :: before[k] == if first <= k < last then 0 else after[k]
    requires answer == after[m] + Sum(after[first..last])
    ensures Sum(after) + before[m] == Sum(before) + answer
  {
    SumUpdate(before, m, answer);
    MovedIntoOne(after, before[m := answer], m, first, last);
  }

  /** A refused leg sent none. */
  lemma NothingOpened(t: State, own: seq<nat>, taken: seq<nat>, m: nat)
    requires |own| == |taken| == |t.legs| && 0 < m < |t.legs| && Tree(t) && !t.legs[m].Accepted()
    ensures Account(t, own, taken, m + 1) == Account(t, own, taken, m)[m := own[m]]
  {
    forall k | m < k < |t.legs| ensures t.legs[k].from != Some(m) {
    }
  }

  lemma {:induction false} OpenAll(t: State, own: seq<nat>, taken: seq<nat>, dropped: seq<nat>, m: nat)
    requires |own| == |taken| == |dropped| == |t.legs| && 0 < m <= |t.legs| && Tree(t) && dropped[0] == 0
    requires AllOpen(t, own, taken, dropped)
    ensures Sum(Account(t, own, taken, m)) == Sum(Account(t, own, taken, 1)) + Sum(dropped[..m])
  {
    if m == 1 {
      FirstOnly(dropped);
    } else {
      OpenAll(t, own, taken, dropped, m - 1);
      assert Opens(t, own, taken, dropped, m - 1);
      OpenOne(t, own, taken, dropped, m - 1);
      OneMoreSummed(dropped, m - 1);
    }
  }

  lemma FirstOnly(cs: seq<nat>)
    requires cs != []
    ensures Sum(cs[..1]) == cs[0]
  {
    assert cs[..1][..0] == [];
  }

  lemma OneMoreSummed(cs: seq<nat>, m: nat)
    requires m < |cs|
    ensures Sum(cs[..m + 1]) == Sum(cs[..m]) + cs[m]
  {
    assert cs[..m + 1][..m] == cs[..m];
  }

  /** With only the root opened the account is what its registry has and what it took. */
  lemma RootOpened(t: State, own: seq<nat>, taken: seq<nat>)
    requires |own| == |taken| == |t.legs| > 0 && Tree(t) && t.legs[0].Accepted()
    ensures SentBlock(t, 0)
    ensures Sum(Account(t, own, taken, 1)) == own[0] + Sum(taken[t.legs[0].first..t.legs[0].first + t.legs[0].count])
  {
    var l, cs := t.legs[0], Account(t, own, taken, 1);
    assert SentBlock(t, 0);
    BlockOpened(t, own, taken, 0);
    forall k | 0 < k < |t.legs| && !(l.first <= k < l.first + l.count) ensures cs[k] == 0 {
      NotOfTheRoot(t, own, taken, k);
    }
    FirstAndBlock(cs, l.first, l.first + l.count);
  }

  lemma NotOfTheRoot(t: State, own: seq<nat>, taken: seq<nat>, k: nat)
    requires |own| == |taken| == |t.legs| && 0 < k < |t.legs| && Tree(t) && SentBlock(t, 0)
    requires !(t.legs[0].first <= k < t.legs[0].first + t.legs[0].count)
    ensures Account(t, own, taken, 1)[k] == 0
  {
    assert t.legs[k].from.Some? && t.legs[k].from != Some(0);
  }

  function AllOwn(f: Measure, net: Net, t: State): (r: seq<nat>)
    ensures |r| == |t.legs|
    ensures forall k | 0 <= k < |r| :: r[k] == if t.legs[k].Accepted() && t.legs[k].to in net then Total(f, net[t.legs[k].to].local) else 0
  {
    seq<nat>(|t.legs|, k requires 0 <= k < |t.legs| =>
      if t.legs[k].Accepted() && t.legs[k].to in net then Total(f, net[t.legs[k].to].local) else 0)
  }

  function AllTaken(f: Measure, net: Net, t: State): (r: seq<nat>)
    ensures |r| == |t.legs|
    ensures forall k | 0 <= k < |r| :: r[k] == TakenOf(f, net, t, k)
  {
    seq<nat>(|t.legs|, k requires 0 <= k < |t.legs| => TakenOf(f, net, t, k))
  }

  lemma TakenSlice(f: Measure, net: Net, t: State, i: nat)
    requires i < |t.legs| && t.legs[i].first + t.legs[i].count <= |t.legs|
    ensures AllTaken(f, net, t)[t.legs[i].first..t.legs[i].first + t.legs[i].count] == TakenBlock(f, net, t, i)
  {
  }

  lemma LegOpens(f: Measure, net: Net, t: State, k: nat)
    requires TravelBlind(f) && Whole(net, t) && 0 < k < |t.legs|
    ensures Opens(t, AllOwn(f, net, t), AllTaken(f, net, t), AllDropped(f, net, t), k)
  {
    PrefixTotal(f, AnswerOf(t, k), Min(|AnswerOf(t, k)|, Cap(net, t, k)));
    if t.legs[k].Accepted() {
      RelayTotal(f, net, t, k);
      SendsBlock(net, t, k);
      TakenSlice(f, net, t, k);
    } else {
      assert AnswerOf(t, k) == [] && Dropped(net, t, k) == [];
    }
  }

  // ---------------------------------------------------------- every claim has one accepted leg

  ghost function AcceptedAt(t: State, n: nat): set<Iri>
    requires n <= |t.legs|
  {
    set k | 0 <= k < n && t.legs[k].Accepted() :: t.legs[k].to
  }

  lemma {:induction false} OwnTotal(f: Measure, net: Net, t: State, n: nat)
    requires Inv(net, t) && n <= |t.legs|
    ensures AcceptedAt(t, n) <= net.Keys
    ensures Sum(AllOwn(f, net, t)[..n]) == LocalTotal(f, net, AcceptedAt(t, n))
  {
    var own := AllOwn(f, net, t);
    if n > 0 {
      OwnTotal(f, net, t, n - 1);
      OneMoreSummed(own, n - 1);
      OneMoreOwn(f, net, t, n);
    }
  }

  lemma OneMoreOwn(f: Measure, net: Net, t: State, n: nat)
    requires Inv(net, t) && 0 < n <= |t.legs| && AcceptedAt(t, n - 1) <= net.Keys
    ensures AcceptedAt(t, n) <= net.Keys
    ensures LocalTotal(f, net, AcceptedAt(t, n)) == LocalTotal(f, net, AcceptedAt(t, n - 1)) + AllOwn(f, net, t)[n - 1]
  {
    if t.legs[n - 1].Accepted() {
      OneMoreAccepted(net, t, n);
      LocalTotalWith(f, net, AcceptedAt(t, n), t.legs[n - 1].to);
    } else {
      assert AcceptedAt(t, n) == AcceptedAt(t, n - 1);
    }
  }

  lemma OneMoreAccepted(net: Net, t: State, n: nat)
    requires Inv(net, t) && 0 < n <= |t.legs| && t.legs[n - 1].Accepted()
    ensures t.legs[n - 1].to in net && t.legs[n - 1].to in AcceptedAt(t, n)
    ensures AcceptedAt(t, n) <= AcceptedAt(t, n - 1) + {t.legs[n - 1].to}
    ensures AcceptedAt(t, n) - {t.legs[n - 1].to} == AcceptedAt(t, n - 1)
  {
    assert OwnsBlock(net, t, n - 1);
    forall k | 0 <= k < n - 1 && t.legs[k].Accepted() ensures t.legs[k].to != t.legs[n - 1].to {
      assert Apart(t, k, n - 1);
    }
  }

  lemma AcceptedIsClaimed(net: Net, t: State)
    requires Inv(net, t)
    ensures AcceptedAt(t, |t.legs|) == t.claimed
  {
    forall k | 0 <= k < |t.legs| && t.legs[k].Accepted() ensures t.legs[k].to in t.claimed {
      assert OwnsBlock(net, t, k);
    }
    forall r | r in t.claimed ensures r in AcceptedAt(t, |t.legs|) {
      assert Claimant(t, r);
    }
  }

  lemma RootGathered(f: Measure, net: Net, t: State)
    requires TravelBlind(f) && Whole(net, t)
    ensures t.legs[0].Accepted() && t.legs[0].first + t.legs[0].count <= |t.legs|
    ensures Total(f, Gathered(net, t, 0).0) == AllOwn(f, net, t)[0] + Sum(TakenBlock(f, net, t, 0))
  {
    assert Collects(net, t, 0) && Collected(net, t, 0) == Gathered(net, t, 0);
    CollectedTotal(f, net, t, 0);
  }

  /** The account of a search that ends with an answer not called partial: what the registries that claimed
      the query hold is what the origin holds and what was past a receiver's cap, and nothing else is missing. */
  lemma HeldOrDropped(f: Measure, net: Net, t: State)
    requires TravelBlind(f) && Whole(net, t)
    ensures t.claimed <= net.Keys
    ensures LocalTotal(f, net, t.claimed) == Total(f, Gathered(net, t, 0).0) + Sum(AllDropped(f, net, t))
  {
    OwnIsLocal(f, net, t);
    RootGathered(f, net, t);
    OwnIsTakenAndDropped(f, net, t);
  }

  lemma OwnIsLocal(f: Measure, net: Net, t: State)
    requires Inv(net, t)
    ensures t.claimed <= net.Keys && Sum(AllOwn(f, net, t)) == LocalTotal(f, net, t.claimed)
  {
    OwnTotal(f, net, t, |t.legs|);
    AcceptedIsClaimed(net, t);
    assert AllOwn(f, net, t)[..|t.legs|] == AllOwn(f, net, t);
  }

  lemma OwnIsTakenAndDropped(f: Measure, net: Net, t: State)
    requires TravelBlind(f) && Whole(net, t)
    ensures t.legs[0].first + t.legs[0].count <= |t.legs|
    ensures Sum(AllOwn(f, net, t)) == AllOwn(f, net, t)[0] + Sum(TakenBlock(f, net, t, 0)) + Sum(AllDropped(f, net, t))
  {
    IsTree(net, t);
    AllLegsOpen(f, net, t);
    RootDropsNothing(f, net, t);
    SendsBlock(net, t, 0);
    TakenSlice(f, net, t, 0);
    Balance(t, AllOwn(f, net, t), AllTaken(f, net, t), AllDropped(f, net, t), TakenBlock(f, net, t, 0));
  }

  lemma AllLegsOpen(f: Measure, net: Net, t: State)
    requires TravelBlind(f) && Whole(net, t)
    ensures AllOpen(t, AllOwn(f, net, t), AllTaken(f, net, t), AllDropped(f, net, t))
  {
    forall k | 0 < k < |t.legs| ensures Opens(t, AllOwn(f, net, t), AllTaken(f, net, t), AllDropped(f, net, t), k) {
      LegOpens(f, net, t, k);
    }
  }

  lemma RootDropsNothing(f: Measure, net: Net, t: State)
    requires t.legs != []
    ensures AllDropped(f, net, t)[0] == 0
  {
    assert Dropped(net, t, 0) == [];
  }

  lemma Balance(t: State, own: seq<nat>, taken: seq<nat>, dropped: seq<nat>, root: seq<nat>)
    requires |own| == |taken| == |dropped| == |t.legs| > 0 && Tree(t) && dropped[0] == 0 && t.legs[0].Accepted()
    requires AllOpen(t, own, taken, dropped) && t.legs[0].first + t.legs[0].count <= |t.legs|
    requires root == taken[t.legs[0].first..t.legs[0].first + t.legs[0].count]
    ensures Sum(own) == own[0] + Sum(root) + Sum(dropped)
  {
    var n := |t.legs|;
    RootOpened(t, own, taken);
    OpenAll(t, own, taken, dropped, n);
    assert Account(t, own, taken, n) == own && dropped[..n] == dropped;
  }

  // -------------------------------------------------------------------------------- exactly when

  /** No answer is longer than what its receiver takes. */
  ghost predicate WithinPeerCaps(net: Net, t: State) {
    forall k | 0 < k < |t.legs| :: |AnswerOf(t, k)| <= Cap(net, t, k)
  }

  ghost predicate HoldsEverything(net: Net, t: State, hits: seq<Hit>) {
    t.claimed <= net.Keys
    && forall iri, score :: Total(Matching(iri, score), hits) == LocalTotal(Matching(iri, score), net, t.claimed)
  }

  lemma {:induction false} SumHasEntry(cs: seq<nat>, k: nat)
    requires k < |cs|
    ensures cs[k] <= Sum(cs)
  {
    SumUpdate(cs, k, 0);
  }

  /** An answer not called partial holds every hit of every registry that claimed the query exactly if no
      answer on the way was longer than its receiver's cap on one peer, which cuts without saying so. */
  lemma NotPartialIsEverythingIff(net: Net, t: State)
    requires Whole(net, t)
    ensures HoldsEverything(net, t, Gathered(net, t, 0).0) <==> WithinPeerCaps(net, t)
  {
    if WithinPeerCaps(net, t) {
      WithinCapsHolds(net, t);
    } else {
      var k :| 0 < k < |t.legs| && |AnswerOf(t, k)| > Cap(net, t, k);
      DroppedIsMissing(net, t, k);
    }
  }

  lemma WithinCapsHolds(net: Net, t: State)
    requires Whole(net, t) && WithinPeerCaps(net, t)
    ensures HoldsEverything(net, t, Gathered(net, t, 0).0)
  {
    var hits := Gathered(net, t, 0).0;
    HeldOrDropped(Each, net, t);
    forall iri, score ensures Total(Matching(iri, score), hits) == LocalTotal(Matching(iri, score), net, t.claimed) {
      HeldOrDropped(Matching(iri, score), net, t);
      NothingDropped(Matching(iri, score), net, t);
    }
  }

  lemma DroppedIsMissing(net: Net, t: State, k: nat)
    requires Whole(net, t) && 0 < k < |t.legs| && |AnswerOf(t, k)| > Cap(net, t, k)
    ensures !HoldsEverything(net, t, Gathered(net, t, 0).0)
  {
    var h := Dropped(net, t, k)[0];
    HeldOrDropped(Matching(h.iri, h.score), net, t);
    SumHasEntry(AllDropped(Matching(h.iri, h.score), net, t), k);
    FirstCounts(Dropped(net, t, k));
  }

  lemma FirstCounts(hits: seq<Hit>)
    requires hits != []
    ensures Total(Matching(hits[0].iri, hits[0].score), hits) > 0
  {
    var f, h := Matching(hits[0].iri, hits[0].score), hits[0];
    PrefixTotal(f, hits, 1);
    assert TotalFirst(f, hits, 1) == TotalFirst(f, hits, 0) + f(h);
  }

  lemma NothingDropped(f: Measure, net: Net, t: State)
    requires WithinPeerCaps(net, t)
    ensures Sum(AllDropped(f, net, t)) == 0
  {
    forall k | 0 <= k < |t.legs| ensures AllDropped(f, net, t)[k] == 0 {
      assert Dropped(net, t, k) == [];
    }
    SumOfNothing(AllDropped(f, net, t));
  }

  /** The settings rule it out if no registry may answer with more than any other takes from a peer. */
  lemma SmallAnswersFit(net: Net, t: State)
    requires Inv(net, t) && AllRecorded(net, t) && OneRoot(t)
    requires forall r, q | r in net && q in net :: net[r].maxTotalHits <= net[q].maxPeerHits
    ensures WithinPeerCaps(net, t)
  {
    forall k | 0 < k < |t.legs| ensures |AnswerOf(t, k)| <= Cap(net, t, k) {
      assert HasSender(net, t, k) && Recorded(net, t, k);
    }
  }

  /** Every run of a search leads to such a state, if it ends with an answer that is not partial. */
  lemma EndsWhole(net: Net, origin: Iri, es: seq<Event>)
    requires Runs(net, Start(origin), es) && Enabled(net, Final(net, Start(origin), es), Finish(0))
    requires !Gathered(net, Final(net, Start(origin), es), 0).1
    ensures Whole(net, Final(net, Start(origin), es))
  {
    var s := Start(origin);
    Bounds.InitialInv(net, s);
    assert Initial(s);
    RunKeepsInv(net, s, es);
    RunRecords(net, s, es);
    RunOneRoot(net, s, es);
    RunLater(net, s, es);
    assert SameStory(s.legs[0], Final(net, s, es).legs[0]);
  }

  lemma {:induction false} RunOneRoot(net: Net, s: State, es: seq<Event>)
    requires OneRoot(s) && Runs(net, s, es)
    ensures OneRoot(Final(net, s, es))
    decreases |es|
  {
    if es != [] {
      OnlyOneRoot(net, s, es[0]);
      StepLater(net, s, es[0]);
      RunOneRoot(net, Apply(net, s, es[0]), es[1..]);
    }
  }
}
