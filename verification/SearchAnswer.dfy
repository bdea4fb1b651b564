/** What the user of a federated search gets: the settled answer, end to end. */
module SearchAnswer {
  import opened Options
  import opened Copies
  import opened FanOut
  import opened Protocol
  import opened Coverage
  import opened Completeness
  import opened Conservation
  import Reach

  predicate Holds(hits: seq<Hit>, iri: string) {
    exists h :: h in hits && h.iri == iri
  }

  lemma MergedHolds(hits: seq<Hit>, me: string, iri: string)
    ensures Holds(Merged(hits, me), iri) <==> Holds(hits, iri)
    ensures |Merged(hits, me)| <= |hits|
  {
    OneRowPerRecord(hits, me);
    MergedIsNoLonger(hits, me);
    forall row | row in Merged(hits, me) ensures Holds(hits, row.iri) {
      BestCopyKeptOthersNamed(hits, me, row);
    }
  }

  lemma RankedHolds(hits: seq<Hit>, iri: string)
    ensures Holds(Ranked(hits), iri) <==> Holds(hits, iri)
  {
    forall h ensures h in Ranked(hits) <==> h in hits {
      assert h in Ranked(hits) <==> h in multiset(Ranked(hits));
      assert h in hits <==> h in multiset(hits);
    }
  }

  /** Each record once. */
  predicate OncePerRecord(hits: seq<Hit>) {
    forall i, j | 0 <= i < j < |hits| :: hits[i].iri != hits[j].iri
  }

  lemma {:induction false} PlacedOnce(sorted: seq<Hit>, h: Hit)
    requires OncePerRecord(sorted) && !Holds(sorted, h.iri)
    ensures OncePerRecord(Place(sorted, h))
  {
    if sorted == [] || sorted[|sorted| - 1].score >= h.score {
    } else {
      var n := |sorted| - 1;
      PlacedOnce(sorted[..n], h);
      PlacedMembers(sorted[..n], h);
      AppendedOnce(Place(sorted[..n], h), sorted[n]);
    }
  }

  lemma AppendedOnce(hits: seq<Hit>, last: Hit)
    requires OncePerRecord(hits) && forall i | 0 <= i < |hits| :: hits[i].iri != last.iri
    ensures OncePerRecord(hits + [last])
  {
  }

  lemma {:induction false} RankedOnce(hits: seq<Hit>)
    requires OncePerRecord(hits)
    ensures OncePerRecord(Ranked(hits))
  {
    if hits != [] {
      var n := |hits| - 1;
      RankedOnce(hits[..n]);
      RankedHolds(hits[..n], hits[n].iri);
      PlacedOnce(Ranked(hits[..n]), hits[n]);
    }
  }

  /** What is cut off ranks no higher than what is kept. */
  lemma CutIsLowest(kept: seq<Hit>, most: nat, h: Hit, k: Hit)
    requires ByScore(kept) && most <= |kept| && h in kept[..most] && k in kept && k !in kept[..most]
    ensures h.score >= k.score
  {
    assert kept == kept[..most] + kept[most..];
    var i :| 0 <= i < most && kept[i] == h;
    var j :| most <= j < |kept| && kept[j] == k;
  }

  lemma SettledCut(me: Iri, reg: Registry, relayed: bool, hits: seq<Hit>, partial: bool)
    ensures var kept, a := Ranked(RowsOf(me, relayed, hits)), Settle(me, reg, relayed, hits, partial);
            && a.Answered? && a.hits == kept[..Min(|kept|, reg.maxTotalHits)]
            && (a.partial <==> partial || |kept| > reg.maxTotalHits)
  {
  }

  lemma RankedRows(me: Iri, relayed: bool, hits: seq<Hit>)
    ensures var kept := Ranked(RowsOf(me, relayed, hits));
            && ByScore(kept) && (!relayed ==> OncePerRecord(kept))
            && forall iri :: Holds(kept, iri) <==> Holds(hits, iri)
  {
    var rows := RowsOf(me, relayed, hits);
    RankedByScore(rows);
    if !relayed {
      OneRowPerRecord(hits, me);
      RankedOnce(rows);
    }
    forall iri ensures Holds(Ranked(rows), iri) <==> Holds(hits, iri) {
      RankedHolds(rows, iri);
      MergedHolds(hits, me, iri);
    }
  }

  /** Settling loses nothing without saying so: unless the answer is called partial, every record gathered is in
      it, and nothing else. What the gathering itself left out is another matter (`Completeness`). The answer is
      sorted, and what the user sees holds each record once. */
  lemma SettledSaysWhatItLost(me: Iri, reg: Registry, relayed: bool, hits: seq<Hit>, partial: bool)
    ensures var a := Settle(me, reg, relayed, hits, partial);
            && a.Answered? && ByScore(a.hits) && |a.hits| <= reg.maxTotalHits
            && (partial ==> a.partial)
            && (!a.partial ==> forall iri :: Holds(a.hits, iri) <==> Holds(hits, iri))
            && (!relayed ==> OncePerRecord(a.hits))
  {
    SettledCut(me, reg, relayed, hits, partial);
    RankedRows(me, relayed, hits);
  }

  /** What a cap cuts off ranks no higher than what is kept. */
  lemma SettledKeepsTheBest(me: Iri, reg: Registry, relayed: bool, hits: seq<Hit>, partial: bool, h: Hit, k: Hit)
    requires var a := Settle(me, reg, relayed, hits, partial);
             h in a.hits && k in RowsOf(me, relayed, hits) && k !in a.hits
    ensures h.score >= k.score
  {
    var kept := Ranked(RowsOf(me, relayed, hits));
    SettledCut(me, reg, relayed, hits, partial);
    RankedByScore(RowsOf(me, relayed, hits));
    assert k in multiset(kept);
    CutIsLowest(kept, Min(|kept|, reg.maxTotalHits), h, k);
  }

  // ------------------------------------------------------------------------ from counts to records

  lemma {:induction false} CountedIff(iri: string, score: int, hits: seq<Hit>)
    ensures Total(Matching(iri, score), hits) > 0 <==> exists h :: h in hits && h.iri == iri && h.score == score
  {
    if hits != [] {
      var n := |hits| - 1;
      CountedIff(iri, score, hits[..n]);
      assert hits == hits[..n] + [hits[n]];
    }
  }

  lemma {:induction false} SomeRegistryCounts(f: Measure, net: Net, rs: set<Iri>)
    requires rs <= net.Keys
    ensures LocalTotal(f, net, rs) > 0 <==> exists r :: r in rs && Total(f, net[r].local) > 0
    decreases rs
  {
    if rs != {} {
      var r :| r in rs && LocalTotal(f, net, rs) == Total(f, net[r].local) + LocalTotal(f, net, rs - {r});
      SomeRegistryCounts(f, net, rs - {r});
      if x :| x in rs && Total(f, net[x].local) > 0 {
        assert x == r || x in rs - {r};
      }
    }
  }

  /** The same counts for every record and score: the same records. */
  lemma SameRecords(net: Net, rs: set<Iri>, hits: seq<Hit>, iri: string)
    requires rs <= net.Keys
    requires forall score :: Total(Matching(iri, score), hits) == LocalTotal(Matching(iri, score), net, rs)
    ensures Holds(hits, iri) <==> exists r :: r in rs && Holds(net[r].local, iri)
  {
    if h :| h in hits && h.iri == iri {
      CountedIff(iri, h.score, hits);
      SomeRegistryCounts(Matching(iri, h.score), net, rs);
      var r :| r in rs && Total(Matching(iri, h.score), net[r].local) > 0;
      CountedIff(iri, h.score, net[r].local);
    }
    if r :| r in rs && Holds(net[r].local, iri) {
      var h :| h in net[r].local && h.iri == iri;
      CountedIff(iri, h.score, net[r].local);
      SomeRegistryCounts(Matching(iri, h.score), net, rs);
      CountedIff(iri, h.score, hits);
    }
  }

  /** The origin's leg is still the one the user sent. */
  lemma OriginUnchanged(net: Net, origin: Iri, es: seq<Event>)
    requires Runs(net, Start(origin), es) && Final(net, Start(origin), es).legs != []
    ensures Final(net, Start(origin), es).legs[0].to == origin && !Final(net, Start(origin), es).legs[0].req.relayed
  {
    var s, t := Start(origin), Final(net, Start(origin), es);
    RunLater(net, s, es);
    assert SameStory(s.legs[0], t.legs[0]);
  }

  /** The answer the user gets when the origin's last leg is in. */
  ghost function FinalAnswer(net: Net, origin: Iri, es: seq<Event>): Outcome
    requires origin in net && Runs(net, Start(origin), es) && Enabled(net, Final(net, Start(origin), es), Finish(0))
  {
    var g := Gathered(net, Final(net, Start(origin), es), 0);
    Settle(origin, net[origin], false, g.0, g.1)
  }

  lemma FinalAnswerIsGiven(net: Net, origin: Iri, es: seq<Event>)
    requires origin in net && Runs(net, Start(origin), es) && Enabled(net, Final(net, Start(origin), es), Finish(0))
    ensures Apply(net, Final(net, Start(origin), es), Finish(0)).legs[0].phase == Done(FinalAnswer(net, origin, es))
  {
    OriginUnchanged(net, origin, es);
  }

  /** Some registry within reach of the origin holds the record. */
  ghost predicate RecordHeld(net: Net, origin: Iri, iri: string) {
    exists r :: r in net && Reach.Reaches(PeerEdges(net), origin, r) && Holds(net[r].local, iri)
  }

  /** A federated search answers the question it was asked. Over every run, whatever was given up on the way:
      with hops and time enough, an answer not called partial holds each record once, and if no peer's answer
      was longer than its receiver takes, it holds a record exactly if some registry that can be reached over
      peer edges holds it. */
  lemma AnswerIsEveryReachableRecord(net: Net, origin: Iri, m: nat, es: seq<Event>)
    requires Generous(net, origin, m) && origin in net
    requires Runs(net, Start(origin), es) && Enabled(net, Final(net, Start(origin), es), Finish(0))
    requires !FinalAnswer(net, origin, es).partial
    ensures OncePerRecord(FinalAnswer(net, origin, es).hits)
    ensures WithinPeerCaps(net, Final(net, Start(origin), es)) ==>
              forall iri :: Holds(FinalAnswer(net, origin, es).hits, iri) <==> RecordHeld(net, origin, iri)
  {
    var t := Final(net, Start(origin), es);
    var g := Gathered(net, t, 0);
    SettledSaysWhatItLost(origin, net[origin], false, g.0, g.1);
    EndsWhole(net, origin, es);
    NotPartialIsEverythingIff(net, t);
    forall k | 0 <= k < |t.legs| ensures !t.legs[k].phase.Sent? {
      if k > 0 {
        AllClean(net, t, k);
      }
    }
    CoversExactlyTheReachable(net, origin, m, es);
    if WithinPeerCaps(net, t) {
      forall iri ensures Holds(FinalAnswer(net, origin, es).hits, iri) <==> RecordHeld(net, origin, iri) {
        SameRecords(net, t.claimed, g.0, iri);
      }
    }
  }

  /** And if no leg is given up and no cap is met, the answer is not partial. */
  lemma UndisturbedIsNotPartial(net: Net, origin: Iri, es: seq<Event>)
    requires origin in net && Undisturbed(net, origin, es) && TotalCapHolds(net, Final(net, Start(origin), es), 0)
    ensures !FinalAnswer(net, origin, es).partial && WithinPeerCaps(net, Final(net, Start(origin), es))
  {
    var t := Final(net, Start(origin), es);
    HitsConserved(net, origin, es);
    OriginUnchanged(net, origin, es);
    SettledCut(origin, net[origin], false, Gathered(net, t, 0).0, Gathered(net, t, 0).1);
    EndsWhole(net, origin, es);
    NotPartialIsEverythingIff(net, t);
  }
}
