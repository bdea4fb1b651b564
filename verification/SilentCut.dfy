/** A search at the default settings whose answer is cut without being called partial (src/api/search.rs 300-327). */
module SilentCut {
  import opened Options
  import opened Copies
  import opened FanOut
  import opened Protocol
  import opened Coverage
  import opened Conservation
  import opened Completeness
  import opened SearchAnswer

  /** A registry with the settings nobody changed. */
  function Default(peers: seq<Iri>, local: seq<Hit>): Registry {
    Registry(peers, 3, 12, 3_000, 600, 100, 500, local)
  }

  /** One registry that holds nothing and its one peer that holds `hits`. */
  function Pair(a: Iri, b: Iri, hits: seq<Hit>): Net {
    map[a := Default([b], []), b := Default([], hits)]
  }

  const UserRequest := Request(true, false, None, None, [], None)

  lemma AsksItsPeer(a: Iri, b: Iri)
    requires a != b
    ensures Asked(a, Default([b], []), UserRequest) == [b] && !Capped(a, Default([b], []), UserRequest)
  {
    assert OutPath(a, Default([b], []), UserRequest) == [a];
    assert [b][..0] == [];
    assert Askable(a, None, [a], [b]) == [b];
  }

  lemma AsksNobody(b: Iri, hits: seq<Hit>, q: Request)
    ensures Asked(b, Default([], hits), q) == [] && !Capped(b, Default([], hits), q)
  {
  }

  function Query(a: Iri, b: Iri): Request {
    ChildRequest(a, Default([b], []), UserRequest)
  }

  /** The state once the origin has asked its peer, and how far that has come. */
  function Asking(a: Iri, b: Iri, q: Request, peer: Phase, first: nat, claimed: set<Iri>): State {
    State([Leg(None, a, UserRequest, 0, Working, 1, 1, false), Leg(Some(0), b, q, 1, peer, first, 0, false)], claimed)
  }

  function Answering(a: Iri, b: Iri, q: Request, hits: seq<Hit>): State {
    Asking(a, b, q, Done(Answered(hits, false)), 2, {a, b})
  }

  lemma OriginAsks(a: Iri, b: Iri, hits: seq<Hit>)
    requires a != b
    ensures Enabled(Pair(a, b, hits), Start(a), Arrive(0))
    ensures Apply(Pair(a, b, hits), Start(a), Arrive(0)) == Asking(a, b, Query(a, b), Sent, 0, {a})
  {
    AsksItsPeer(a, b);
    var net, s := Pair(a, b, hits), Start(a);
    assert Children(net, 0, s.legs[0]) == [Child(net, 0, s.legs[0], b)];
  }

  lemma LeafAccepts(net: Net, s: State, i: nat)
    requires Enabled(net, s, Arrive(i)) && s.legs[i].to !in s.claimed && Asked(s.legs[i].to, net[s.legs[i].to], s.legs[i].req) == []
    ensures Apply(net, s, Arrive(i))
         == State(s.legs[i := s.legs[i].(phase := Working, first := |s.legs|, count := 0)], s.claimed + {s.legs[i].to})
  {
    assert Children(net, i, s.legs[i]) == [];
  }

  lemma PeerAccepts(net: Net, a: Iri, b: Iri, q: Request, hits: seq<Hit>)
    requires a != b && b in net && net[b] == Default([], hits) && q.relayed
    ensures Enabled(net, Asking(a, b, q, Sent, 0, {a}), Arrive(1))
    ensures Apply(net, Asking(a, b, q, Sent, 0, {a}), Arrive(1)) == Asking(a, b, q, Working, 2, {a, b})
  {
    AsksNobody(b, hits, q);
    var s, t := Asking(a, b, q, Sent, 0, {a}), Asking(a, b, q, Working, 2, {a, b});
    assert s.legs[1].req == q && s.legs[1].to == b;
    LeafAccepts(net, s, 1);
    assert t.legs == s.legs[1 := t.legs[1]];
  }

  /** A registry that asked nobody answers with what it has. */
  lemma LeafAnswers(net: Net, s: State, i: nat)
    requires Enabled(net, s, Finish(i)) && s.legs[i].req.relayed
    requires var l := s.legs[i];
             Asked(l.to, net[l.to], l.req) == [] && !Capped(l.to, net[l.to], l.req) && |net[l.to].local| <= net[l.to].maxTotalHits
    ensures Apply(net, s, Finish(i))
         == s.(legs := s.legs[i := s.legs[i].(phase := Done(Answered(Ranked(net[s.legs[i].to].local), false)))])
  {
    assert Gathered(net, s, i) == (net[s.legs[i].to].local, false);
  }

  lemma PeerAnswers(net: Net, a: Iri, b: Iri, q: Request, hits: seq<Hit>)
    requires b in net && net[b] == Default([], hits) && q.relayed && |hits| <= 500
    ensures Enabled(net, Asking(a, b, q, Working, 2, {a, b}), Finish(1))
    ensures Apply(net, Asking(a, b, q, Working, 2, {a, b}), Finish(1)) == Answering(a, b, q, Ranked(hits))
  {
    PeerCanAnswer(net, a, b, q, hits);
    var s := Asking(a, b, q, Working, 2, {a, b});
    LeafAnswers(net, s, 1);
    WithAnswer(a, b, q, Answered(Ranked(hits), false));
  }

  lemma PeerCanAnswer(net: Net, a: Iri, b: Iri, q: Request, hits: seq<Hit>)
    requires b in net && net[b] == Default([], hits)
    ensures var s := Asking(a, b, q, Working, 2, {a, b});
            Enabled(net, s, Finish(1)) && s.legs[1].to == b && s.legs[1].req == q && Asked(b, net[b], q) == [] && !Capped(b, net[b], q)
  {
    AsksNobody(b, hits, q);
  }

  lemma WithAnswer(a: Iri, b: Iri, q: Request, o: Outcome)
    ensures var s, t := Asking(a, b, q, Working, 2, {a, b}), Asking(a, b, q, Done(o), 2, {a, b});
            t == s.(legs := s.legs[1 := s.legs[1].(phase := Done(o))])
  {
    var s, t := Asking(a, b, q, Working, 2, {a, b}), Asking(a, b, q, Done(o), 2, {a, b});
    assert t.legs == s.legs[1 := s.legs[1].(phase := Done(o))];
  }

  lemma OneAnswerGathered(reg: Registry, p: Iri, outcomes: seq<Outcome>, hits: seq<Hit>)
    requires outcomes == [Answered(hits, false)]
    ensures Gather(reg, false, [p], outcomes, 1) == (reg.local + Relays(hits, p, reg.maxPeerHits), false)
  {
    assert Gather(reg, false, [p], outcomes, 0) == (reg.local, false);
  }

  /** What the origin then has: the first hundred of its peer's hits, and no sign that there were more. */
  lemma OriginGathers(net: Net, a: Iri, b: Iri, q: Request, hits: seq<Hit>)
    requires a != b && a in net && net[a] == Default([b], [])
    ensures Enabled(net, Answering(a, b, q, hits), Finish(0))
    ensures Gathered(net, Answering(a, b, q, hits), 0) == (Relays(hits, b, 100), false)
  {
    AsksItsPeer(a, b);
    var t := Answering(a, b, q, hits);
    assert Enabled(net, t, Finish(0));
    assert Outcomes(t, t.legs[0]) == [Answered(hits, false)];
    OneAnswerGathered(net[a], b, Outcomes(t, t.legs[0]), hits);
    assert [] + Relays(hits, b, 100) == Relays(hits, b, 100);
  }

  lemma StepFirst(net: Net, s: State, es: seq<Event>, t: State, v: State)
    requires es != [] && Enabled(net, s, es[0]) && Apply(net, s, es[0]) == t && Runs(net, t, es[1..]) && Final(net, t, es[1..]) == v
    ensures Runs(net, s, es) && Final(net, s, es) == v
  {
  }

  lemma LastStep(net: Net, s: State, es: seq<Event>, v: State)
    requires |es| == 1 && Enabled(net, s, es[0]) && Apply(net, s, es[0]) == v
    ensures Runs(net, s, es) && Final(net, s, es) == v
  {
    assert es[1..] == [];
  }

  lemma TwoSteps(net: Net, s: State, es: seq<Event>, t: State, v: State)
    requires |es| == 2 && Enabled(net, s, es[0]) && Apply(net, s, es[0]) == t
    requires Enabled(net, t, es[1]) && Apply(net, t, es[1]) == v
    ensures Runs(net, s, es) && Final(net, s, es) == v
  {
    LastStep(net, t, es[1..], v);
    StepFirst(net, s, es, t, v);
  }

  const ASKED_AND_ANSWERED := [Arrive(0), Arrive(1), Finish(1)]

  lemma RunOfPair(a: Iri, b: Iri, hits: seq<Hit>)
    requires a != b && |hits| <= 500
    ensures Runs(Pair(a, b, hits), Start(a), ASKED_AND_ANSWERED)
    ensures Final(Pair(a, b, hits), Start(a), ASKED_AND_ANSWERED) == Answering(a, b, Query(a, b), Ranked(hits))
  {
    var net, q := Pair(a, b, hits), Query(a, b);
    OriginAsks(a, b, hits);
    PeerAccepts(net, a, b, q, hits);
    PeerAnswers(net, a, b, q, hits);
    var es, s := ASKED_AND_ANSWERED, Asking(a, b, q, Sent, 0, {a});
    TwoSteps(net, s, es[1..], Asking(a, b, q, Working, 2, {a, b}), Answering(a, b, q, Ranked(hits)));
    StepFirst(net, Start(a), es, s, Answering(a, b, q, Ranked(hits)));
  }

  /** The records of some hits. */
  function Records(hits: seq<Hit>): set<string> {
    set h | h in hits :: h.iri
  }

  lemma {:induction false} RecordsCounted(hits: seq<Hit>)
    ensures |Records(hits)| <= |hits| && (OncePerRecord(hits) ==> |Records(hits)| == |hits|)
  {
    if hits != [] {
      var n := |hits| - 1;
      RecordsCounted(hits[..n]);
      assert hits == hits[..n] + [hits[n]];
      assert Records(hits) == Records(hits[..n]) + {hits[n].iri};
    }
  }

  lemma SomeRecordMissing(kept: seq<Hit>, hits: seq<Hit>)
    requires OncePerRecord(hits) && |kept| < |hits|
    ensures exists h :: h in hits && !Holds(kept, h.iri)
  {
    RecordsCounted(kept);
    RecordsCounted(hits);
    if Records(hits) <= Records(kept) {
      SubsetSize(Records(hits), Records(kept));
    } else {
      var iri :| iri in Records(hits) && iri !in Records(kept);
      var h :| h in hits && h.iri == iri;
    }
  }

  /** The peer finds more than a hundred and at most five hundred records; nothing is lost on the way; the user's
      answer is not called partial and lacks one of them. */
  lemma DefaultCapCutsSilently(a: Iri, b: Iri, hits: seq<Hit>)
    requires a != b && 100 < |hits| <= 500 && OncePerRecord(hits)
    ensures var net, es := Pair(a, b, hits), ASKED_AND_ANSWERED;
            && Runs(net, Start(a), es) && (forall e | e in es :: !e.GiveUp?)
            && var t := Final(net, Start(a), es);
            && Enabled(net, t, Finish(0)) && Whole(net, t) && !HoldsEverything(net, t, Gathered(net, t, 0).0)
            && !FinalAnswer(net, a, es).partial
            && exists h :: h in net[b].local && !Holds(FinalAnswer(net, a, es).hits, h.iri)
  {
    RunOfPair(a, b, hits);
    var net, q := Pair(a, b, hits), Query(a, b);
    OriginGathers(net, a, b, q, Ranked(hits));
    EndsWhole(net, a, ASKED_AND_ANSWERED);
    NotEverything(net, a, b, q, Ranked(hits));
    FewKept(a, Default([b], []), Relays(Ranked(hits), b, 100), hits);
  }

  lemma NotEverything(net: Net, a: Iri, b: Iri, q: Request, hits: seq<Hit>)
    requires a in net && net[a].maxPeerHits < |hits| && Whole(net, Answering(a, b, q, hits))
    ensures !HoldsEverything(net, Answering(a, b, q, hits), Gathered(net, Answering(a, b, q, hits), 0).0)
  {
    var t := Answering(a, b, q, hits);
    assert |AnswerOf(t, 1)| > Cap(net, t, 1);
    NotPartialIsEverythingIff(net, t);
  }

  lemma FewKept(a: Iri, reg: Registry, got: seq<Hit>, hits: seq<Hit>)
    requires OncePerRecord(hits) && |got| < |hits| && |got| <= reg.maxTotalHits
    ensures !Settle(a, reg, false, got, false).partial
    ensures exists h :: h in hits && !Holds(Settle(a, reg, false, got, false).hits, h.iri)
  {
    SettledCut(a, reg, false, got, false);
    MergedIsNoLonger(got, a);
    SomeRecordMissing(Settle(a, reg, false, got, false).hits, hits);
  }
}
