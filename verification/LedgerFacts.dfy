/** What one call does to the books, written out: what it is answered, what its run says afterwards, and what it
    links (src/api/advertise.rs, src/api/openlineage.rs). */
module LedgerFacts {
  import opened Options
  import opened Ledger

  // -------------------------------------------------------------------- what a call answers

  /** A batch of calls is handled one after the other; one that is not admitted changes nothing. */
  lemma HandledInTurn(derive: Derive, b: Books, calls: seq<Call>, c: Call)
    ensures HandleAll(derive, b, []) == b
    ensures var before := HandleAll(derive, b, calls);
            HandleAll(derive, b, calls + [c]) ==
            if !c.admitted then before
            else if c.Advertised? then Advertise(derive, c.held, before, c.instance, c.role, c.run, c.artifacts).0
            else Ingest(c.held, before, c.instance, c.event).0
  {
    assert (calls + [c])[..|calls|] == calls;
  }

  /** IRIs from elsewhere that the store has no statement about, in their order. */
  lemma {:induction false} UnknownExactly(s: seq<Iri>, held: set<Iri>, i: Iri)
    ensures multiset(UnknownOnes(s, held))[i] == if i.Foreign? && i !in held then multiset(s)[i] else 0
  {
    if s != [] {
      UnknownExactly(s[..|s| - 1], held, i);
      assert s == s[..|s| - 1] + [s[|s| - 1]];
    }
  }

  /** An entry that gives an IRI is that IRI, and mints nothing; one from elsewhere that the store knows nothing
      about is queued to be resolved, and so are such parents of an artifact that is minted. Nothing else is. */
  lemma EntryAnswered(derive: Derive, held: set<Iri>, b: Books, role: Role, r: Iri, run: RunIn, a: ArtifactIn)
    ensures var (c, i, created, queued) := AdvertiseOne(derive, held, b, role, r, run, a);
            var given, key := a.iri.Some? && a.iri.value != Foreign(""), KeyOf(derive, run, a);
            var known := !given && key.Some? && key.value in b.artifactKeys;
            && i == (if given then a.iri.value else if known then b.artifactKeys[key.value] else ArtifactIri(b.next))
            && c.next == (if given || known then b.next else b.next + 1)
            && c.queue == b.queue + set q | q in queued
            && (forall q :: q in queued <==>
                  q.Foreign? && q !in held && (if given then q == i else !known && q in a.parents))
            && (created <==> c.next != b.next || c.claims != b.claims)
  {
    var given := a.iri.Some? && a.iri.value != Foreign("");
    forall q
      ensures q in UnknownOnes(a.parents, held) <==> q in a.parents && q.Foreign? && q !in held
      ensures given ==> (q in UnknownOnes([a.iri.value], held) <==> q == a.iri.value && q.Foreign? && q !in held)
    {
      UnknownMember(a.parents, held, q);
      if given {
        UnknownMember([a.iri.value], held, q);
      }
    }
  }

  lemma UnknownMember(s: seq<Iri>, held: set<Iri>, q: Iri)
    ensures q in UnknownOnes(s, held) <==> q in s && q.Foreign? && q !in held
  {
    UnknownExactly(s, held, q);
    assert q in UnknownOnes(s, held) <==> q in multiset(UnknownOnes(s, held));
    assert q in s <==> q in multiset(s);
  }

  /** A call says it created something exactly if it minted an IRI or made a claim. */
  lemma {:induction false} CreatedExactly(derive: Derive, held: set<Iri>, b: Books, role: Role, r: Iri, run: RunIn, arts: seq<ArtifactIn>)
    ensures var (c, _, created, _) := AdvertiseAll(derive, held, b, role, r, run, arts);
            && b.next <= c.next && b.claims <= c.claims && (created <==> c.next != b.next || c.claims != b.claims)
  {
    if arts != [] {
      var n := |arts| - 1;
      var b1 := AdvertiseAll(derive, held, b, role, r, run, arts[..n]).0;
      CreatedExactly(derive, held, b, role, r, run, arts[..n]);
      EntryAnswered(derive, held, b1, role, r, run, arts[n]);
      OneGrows(derive, held, b1, role, r, run, arts[n]);
    }
  }

  lemma {:induction false} QueuedExactly(derive: Derive, held: set<Iri>, b: Books, role: Role, r: Iri, run: RunIn, arts: seq<ArtifactIn>, q: Iri)
    ensures var (c, _, _, queued) := AdvertiseAll(derive, held, b, role, r, run, arts);
            q in c.queue <==> q in b.queue || q in queued
  {
    if arts != [] {
      var n := |arts| - 1;
      var (b1, _, _, queued) := AdvertiseAll(derive, held, b, role, r, run, arts[..n]);
      QueuedExactly(derive, held, b, role, r, run, arts[..n], q);
      EntryAnswered(derive, held, b1, role, r, run, arts[n]);
    }
  }

  lemma OneGrows(derive: Derive, held: set<Iri>, b: Books, role: Role, r: Iri, run: RunIn, a: ArtifactIn)
    ensures var c := AdvertiseOne(derive, held, b, role, r, run, a).0; b.next <= c.next && b.claims <= c.claims
  {
  }

  lemma AnswerCreated(derive: Derive, held: set<Iri>, b: Books, instance: Iri, role: Role, run: RunIn, arts: seq<ArtifactIn>)
    ensures var (c, answer) := Advertise(derive, held, b, instance, role, run, arts);
            && (answer.created <==> c.next != b.next || c.claims != b.claims)
            && forall q :: q in c.queue <==> q in b.queue || q in answer.queued
  {
    var (b1, r, minted) := EnsureRun(b, instance, run);
    assert b1.claims == b.claims && b1.queue == b.queue && b1.next == if minted then b.next + 1 else b.next;
    CreatedExactly(derive, held, b1, role, r, run, arts);
    var (c, _, _, queued) := AdvertiseAll(derive, held, b1, role, r, run, arts);
    forall q ensures q in c.queue <==> q in b.queue || q in queued {
      QueuedExactly(derive, held, b1, role, r, run, arts, q);
    }
  }

  /** A dataset is the first of its symlinks that is ours or that the store has statements about; failing that the
      artifact of its namespace and name, minted if there is none. */
  lemma {:induction false} FirstKnownExactly(links: seq<Iri>, held: set<Iri>)
    ensures match FirstKnown(links, held)
            case None => forall k | 0 <= k < |links| :: links[k].Foreign? && links[k] !in held
            case Some(i) => exists k :: 0 <= k < |links| && links[k] == i && (!i.Foreign? || i in held)
                                        && forall j | 0 <= j < k :: links[j].Foreign? && links[j] !in held
  {
    if links != [] && links[0].Foreign? && links[0] !in held {
      FirstKnownExactly(links[1..], held);
      forall j | 1 <= j < |links| ensures links[j] == links[1..][j - 1] {
      }
      if FirstKnown(links, held).Some? {
        var i := FirstKnown(links, held).value;
        var k :| 0 <= k < |links| - 1 && links[1..][k] == i && (!i.Foreign? || i in held)
                 && forall j | 0 <= j < k :: links[1..][j].Foreign? && links[1..][j] !in held;
        assert links[k + 1] == i;
        forall j | 0 <= j < k + 1 ensures links[j].Foreign? && links[j] !in held {
          assert j > 0 ==> links[j] == links[1..][j - 1];
        }
      }
    } else if links != [] {
      assert links[0] == FirstKnown(links, held).value;
    }
  }

  lemma DatasetAnswered(held: set<Iri>, b: Books, d: Dataset)
    ensures var (c, i) := MapDataset(held, b, d);
            var key := d.namespace + "#" + d.name;
            if forall k | 0 <= k < |d.links| :: d.links[k].Foreign? && d.links[k] !in held then
              if key in b.artifactKeys then c == b && i == b.artifactKeys[key]
              else i == ArtifactIri(b.next) && c == b.(next := b.next + 1, artifactKeys := b.artifactKeys[key := i])
            else c == b && i in d.links && (!i.Foreign? || i in held)
  {
    FirstKnownExactly(d.links, held);
  }

  // ------------------------------------------------------------------------ what a run is told

  /** What some facts say of a run. */
  function Said(facts: set<(Iri, string)>, r: Iri): set<string> {
    set f | f in facts && f.0 == r :: f.1
  }

  /** The state of an action a status stands for, if it stands for one. */
  function StateFor(status: string): set<string> {
    if status == "success" then {"CompletedActionStatus"}
    else if status == "failed" || status == "aborted" then {"FailedActionStatus"}
    else if status == "running" then {"ActiveActionStatus"}
    else {}
  }

  /** The run says exactly this much: its status, the state that goes with it, and its end. */
  ghost predicate Says(b: Books, r: Iri, status: set<string>, action: set<string>, ended: set<string>) {
    Said(b.status, r) == status && Said(b.action, r) == action && Said(b.ended, r) == ended
  }

  function Text(v: string): set<string> {
    if v == "" then {} else {v}
  }

  /** What a run says once it has been resolved or minted for a call: a status that is given replaces the one there
      was, and its state with it, a run that is new has `success` if none is; an end that is given replaces the one
      there was. No other run says anything else than before. */
  lemma RunSays(b: Books, instance: Iri, run: RunIn)
    requires Inv(b)
    ensures var (c, r, minted) := EnsureRun(b, instance, run);
            && minted == (run.key.None? || run.key.value == "" || (run.key.value, instance) !in b.runKeys)
            && Says(c, r,
                    if run.status.Some? then Text(run.status.value) else if minted then {"success"} else Said(b.status, r),
                    if run.status.Some? then StateFor(run.status.value) else if minted then {"CompletedActionStatus"} else Said(b.action, r),
                    if run.ended.Some? then Text(run.ended.value) else Said(b.ended, r))
            && (minted ==> Said(b.status, r) == Said(b.action, r) == Said(b.ended, r) == {})
            && forall q | q != r :: Says(c, q, Said(b.status, q), Said(b.action, q), Said(b.ended, q))
  {
    var (c, r, minted) := EnsureRun(b, instance, run);
    if minted {
      MintedSays(b, instance, run);
    } else {
      UpdatedSays(b, r, run);
    }
  }

  lemma Replaced(facts: set<(Iri, string)>, r: Iri, v: Option<string>, q: Iri)
    ensures Said(Without(facts, r) + Fact(r, v), q) == if q != r then Said(facts, q) else if v.Some? then Text(v.value) else {}
  {
    var after := Without(facts, r) + Fact(r, v);
    forall x | q != r ensures x in Said(after, q) <==> x in Said(facts, q) {
      assert (q, x) in after <==> (q, x) in facts;
      assert x in Said(after, q) <==> (q, x) in after;
      assert x in Said(facts, q) <==> (q, x) in facts;
    }
    forall x | q == r ensures x in Said(after, q) <==> v == Some(x) && x != "" {
      assert x in Said(after, q) <==> (q, x) in after;
    }
  }

  lemma Added(facts: set<(Iri, string)>, r: Iri, v: Option<string>, q: Iri)
    requires forall f | f in facts :: f.0 != r
    ensures Said(facts, r) == {}
    ensures Said(facts + Fact(r, v), q) == if q != r then Said(facts, q) else if v.Some? then Text(v.value) else {}
  {
    assert Without(facts, r) == facts;
    Replaced(facts, r, v, q);
  }

  lemma UpdatedSays(b: Books, r: Iri, run: RunIn)
    ensures var c := UpdateOutcome(b, r, run);
            forall q :: Says(c, q,
                             if q == r && run.status.Some? then Text(run.status.value) else Said(b.status, q),
                             if q == r && run.status.Some? then StateFor(run.status.value) else Said(b.action, q),
                             if q == r && run.ended.Some? then Text(run.ended.value) else Said(b.ended, q))
  {
    var c := UpdateOutcome(b, r, run);
    forall q
      ensures Says(c, q,
                   if q == r && run.status.Some? then Text(run.status.value) else Said(b.status, q),
                   if q == r && run.status.Some? then StateFor(run.status.value) else Said(b.action, q),
                   if q == r && run.ended.Some? then Text(run.ended.value) else Said(b.ended, q))
    {
      Replaced(b.ended, r, run.ended, q);
      if run.status.Some? {
        Replaced(b.status, r, run.status, q);
        Replaced(b.action, r, ActionStatus(run.status.value), q);
      }
    }
  }

  lemma MintedSays(b: Books, instance: Iri, run: RunIn)
    requires Inv(b)
    ensures var c, r := NewRun(b, instance, run), RunIri(b.next);
            && Said(b.status, r) == Said(b.action, r) == Said(b.ended, r) == {}
            && forall q :: Says(c, q,
                                if q != r then Said(b.status, q) else if run.status.Some? then Text(run.status.value) else {"success"},
                                if q != r then Said(b.action, q)
                                else if run.status.Some? then StateFor(run.status.value) else {"CompletedActionStatus"},
                                if q == r && run.ended.Some? then Text(run.ended.value) else Said(b.ended, q))
  {
    var c, r, status := NewRun(b, instance, run), RunIri(b.next), run.status.GetOr("success");
    forall q
      ensures Said(b.status, r) == Said(b.action, r) == Said(b.ended, r) == {}
      ensures Said(c.status, q) == if q != r then Said(b.status, q) else Text(status)
      ensures Said(c.action, q) == if q != r then Said(b.action, q) else StateFor(status)
      ensures Said(c.ended, q) == if q == r && run.ended.Some? then Text(run.ended.value) else Said(b.ended, q)
    {
      Added(b.status, r, Some(status), q);
      Added(b.action, r, ActionStatus(status), q);
      Added(b.ended, r, run.ended, q);
    }
  }

  /** Nothing about runs. */
  ghost predicate SameSaid(b: Books, c: Books) {
    c.status == b.status && c.action == b.action && c.ended == b.ended
  }

  lemma {:induction false} DatasetsSayNothing(held: set<Iri>, b: Books, role: Role, r: Iri, ds: seq<Dataset>)
    ensures SameSaid(b, IngestAll(held, b, role, r, ds).0)
  {
    if ds != [] {
      DatasetsSayNothing(held, b, role, r, ds[..|ds| - 1]);
    }
  }

  lemma {:induction false} ArtifactsSayNothing(derive: Derive, held: set<Iri>, b: Books, role: Role, r: Iri, run: RunIn, arts: seq<ArtifactIn>)
    ensures SameSaid(b, AdvertiseAll(derive, held, b, role, r, run, arts).0)
  {
    if arts != [] {
      ArtifactsSayNothing(derive, held, b, role, r, run, arts[..|arts| - 1]);
    }
  }

  /** After an OpenLineage event its run, new or known, says exactly: `success` after COMPLETE, `failed` after FAIL or
      ABORT, `running` after anything else, the state that goes with it, and the end the event gives if it is one of
      the three; otherwise the end it had. */
  lemma EventSays(held: set<Iri>, b: Books, instance: Iri, e: LineageEvent)
    requires Inv(b)
    ensures var (c, r, _, _) := Ingest(held, b, instance, e);
            var terminal := e.kind == "COMPLETE" || e.kind == "FAIL" || e.kind == "ABORT";
            && Says(c, r,
                    if e.kind == "COMPLETE" then {"success"} else if terminal then {"failed"} else {"running"},
                    if e.kind == "COMPLETE" then {"CompletedActionStatus"}
                    else if terminal then {"FailedActionStatus"} else {"ActiveActionStatus"},
                    if terminal && e.time.Some? then Text(e.time.value) else Said(b.ended, r))
            && forall q | q != r :: Says(c, q, Said(b.status, q), Said(b.action, q), Said(b.ended, q))
  {
    var (b1, r, _) := EnsureRun(b, instance, EventRun(e));
    RunSays(b, instance, EventRun(e));
    DatasetsSayNothing(held, b1, Produced, r, e.outputs);
    DatasetsSayNothing(held, IngestAll(held, b1, Produced, r, e.outputs).0, Consumed, r, e.inputs);
  }

  /** The same after an advertise call, for what it gives itself. */
  lemma CallSays(derive: Derive, held: set<Iri>, b: Books, instance: Iri, role: Role, run: RunIn, arts: seq<ArtifactIn>)
    requires Inv(b)
    ensures var (c, answer) := Advertise(derive, held, b, instance, role, run, arts);
            var r, known := answer.run, run.key.Some? && run.key.value != "" && (run.key.value, instance) in b.runKeys;
            && Says(c, r,
                    if run.status.Some? then Text(run.status.value) else if known then Said(b.status, r) else {"success"},
                    if run.status.Some? then StateFor(run.status.value) else if known then Said(b.action, r) else {"CompletedActionStatus"},
                    if run.ended.Some? then Text(run.ended.value) else Said(b.ended, r))
            && forall q | q != r :: Says(c, q, Said(b.status, q), Said(b.action, q), Said(b.ended, q))
  {
    var (b1, r, _) := EnsureRun(b, instance, run);
    RunSays(b, instance, run);
    ArtifactsSayNothing(derive, held, b1, role, r, run, arts);
  }

  // -------------------------------------------------------------------- what a call links

  /** Which run a call is for: the one its key names at the deployment, if the key is known there; otherwise a new one,
      remembered under the key if there is one. */
  lemma RunAnswered(b: Books, instance: Iri, run: RunIn)
    ensures var (c, r, _) := EnsureRun(b, instance, run);
            var key := if run.key.Some? then run.key.value else "";
            if key != "" && (key, instance) in b.runKeys then
              r == b.runKeys[(key, instance)] && c.next == b.next && c.runKeys == b.runKeys
            else
              r == RunIri(b.next) && c.next == b.next + 1 && c.runKeys == if key == "" then b.runKeys else b.runKeys[(key, instance) := r]
  {
  }

  lemma {:induction false} ArtifactsClaimed(derive: Derive, held: set<Iri>, b: Books, role: Role, r: Iri, run: RunIn, arts: seq<ArtifactIn>,
                                            q: Iri, i: Iri, o: Role)
    ensures var (c, iris, _, _) := AdvertiseAll(derive, held, b, role, r, run, arts);
            (q, i, o) in c.claims <==> (q, i, o) in b.claims || (q == r && o == role && i in iris)
  {
    if arts != [] {
      ArtifactsClaimed(derive, held, b, role, r, run, arts[..|arts| - 1], q, i, o);
    }
  }

  lemma {:induction false} DatasetsClaimed(held: set<Iri>, b: Books, role: Role, r: Iri, ds: seq<Dataset>, q: Iri, i: Iri, o: Role)
    ensures var (c, iris) := IngestAll(held, b, role, r, ds);
            (q, i, o) in c.claims <==> (q, i, o) in b.claims || (q == r && o == role && i in iris)
  {
    if ds != [] {
      DatasetsClaimed(held, b, role, r, ds[..|ds| - 1], q, i, o);
    }
  }

  /** What an advertise call links: every artifact it answers with to the run it answers with, as generated by it or
      used by it, whichever the role is, and nothing else. */
  lemma CallLinks(derive: Derive, held: set<Iri>, b: Books, instance: Iri, role: Role, run: RunIn, arts: seq<ArtifactIn>, q: Iri, i: Iri)
    requires Inv(b)
    ensures var (c, answer) := Advertise(derive, held, b, instance, role, run, arts);
            && |answer.artifacts| == |arts|
            && ((i, q) in c.generated <==> (i, q) in b.generated || (role.Produced? && q == answer.run && i in answer.artifacts))
            && ((q, i) in c.used <==> (q, i) in b.used || (role.Consumed? && q == answer.run && i in answer.artifacts))
  {
    var (b1, r, _) := EnsureRun(b, instance, run);
    RunKept(b, instance, run);
    AdvertiseKept(derive, held, b, instance, role, run, arts);
    ArtifactsClaimed(derive, held, b1, role, r, run, arts, q, i, Produced);
    ArtifactsClaimed(derive, held, b1, role, r, run, arts, q, i, Consumed);
  }

  /** What an event links: its outputs as generated by its run and its inputs as used by it. */
  lemma EventLinks(held: set<Iri>, b: Books, instance: Iri, e: LineageEvent, q: Iri, i: Iri)
    requires Inv(b)
    ensures var (c, r, produced, consumed) := Ingest(held, b, instance, e);
            && |produced| == |e.outputs| && |consumed| == |e.inputs|
            && ((i, q) in c.generated <==> (i, q) in b.generated || (q == r && i in produced))
            && ((q, i) in c.used <==> (q, i) in b.used || (q == r && i in consumed))
            && r == (if e.runId.Some? && e.runId.value != "" && (e.runId.value, instance) in b.runKeys
                     then b.runKeys[(e.runId.value, instance)] else RunIri(b.next))
  {
    var (b1, r, _) := EnsureRun(b, instance, EventRun(e));
    var b2 := IngestAll(held, b1, Produced, r, e.outputs).0;
    RunKept(b, instance, EventRun(e));
    RunAnswered(b, instance, EventRun(e));
    IngestKept(held, b, instance, e);
    DatasetsClaimed(held, b1, Produced, r, e.outputs, q, i, Produced);
    DatasetsClaimed(held, b1, Produced, r, e.outputs, q, i, Consumed);
    DatasetsClaimed(held, b2, Consumed, r, e.inputs, q, i, Produced);
    DatasetsClaimed(held, b2, Consumed, r, e.inputs, q, i, Consumed);
  }

  /** The artifact is that of the dataset: one of its links that is usable, or, if none is, the artifact remembered
      under its name. */
  ghost predicate ArtifactOf(held: set<Iri>, b: Books, d: Dataset, i: Iri) {
    if forall k | 0 <= k < |d.links| :: d.links[k].Foreign? && d.links[k] !in held then
      d.namespace + "#" + d.name in b.artifactKeys && b.artifactKeys[d.namespace + "#" + d.name] == i
    else i in d.links && (!i.Foreign? || i in held)
  }

  lemma ArtifactOfLater(held: set<Iri>, b: Books, c: Books, d: Dataset, i: Iri)
    requires ArtifactOf(held, b, d, i) && Extends(b, c)
    ensures ArtifactOf(held, c, d, i)
  {
  }

  lemma MappedToIts(held: set<Iri>, b: Books, d: Dataset)
    ensures var (c, i) := MapDataset(held, b, d); ArtifactOf(held, c, d, i)
  {
    DatasetAnswered(held, b, d);
  }

  lemma LastNamed(held: set<Iri>, b: Books, role: Role, r: Iri, ds: seq<Dataset>)
    requires Inv(b) && ds != []
    ensures var n := |ds| - 1;
            var (b1, before) := IngestAll(held, b, role, r, ds[..n]);
            var (c, iris) := IngestAll(held, b, role, r, ds);
            Extends(b1, c) && iris == before + [iris[n]] && ArtifactOf(held, c, ds[n], iris[n])
  {
    var n := |ds| - 1;
    var b1 := IngestAll(held, b, role, r, ds[..n]).0;
    var (b2, i) := MapDataset(held, b1, ds[n]);
    DatasetsKept(held, b, role, r, ds[..n]);
    DatasetKept(held, b1, role, r, ds[n]);
    MappedToIts(held, b1, ds[n]);
    ArtifactOfLater(held, b2, Claim(b2, r, i, role).0, ds[n], i);
  }

  /** Each artifact answered is that of the dataset in its place. */
  lemma {:induction false} DatasetsNamed(held: set<Iri>, b: Books, role: Role, r: Iri, ds: seq<Dataset>, x: nat)
    requires Inv(b) && x < |ds|
    ensures var (c, iris) := IngestAll(held, b, role, r, ds); ArtifactOf(held, c, ds[x], iris[x])
  {
    var n := |ds| - 1;
    LastNamed(held, b, role, r, ds);
    if x < n {
      var (b1, before) := IngestAll(held, b, role, r, ds[..n]);
      DatasetsNamed(held, b, role, r, ds[..n], x);
      ArtifactOfLater(held, b1, IngestAll(held, b, role, r, ds).0, ds[x], before[x]);
    }
  }

  /** After an event its outputs and its inputs are there under their own names. */
  lemma EventNames(held: set<Iri>, b: Books, instance: Iri, e: LineageEvent, x: nat)
    requires Inv(b)
    ensures var (c, r, produced, consumed) := Ingest(held, b, instance, e);
            && (x < |e.outputs| ==> ArtifactOf(held, c, e.outputs[x], produced[x]))
            && (x < |e.inputs| ==> ArtifactOf(held, c, e.inputs[x], consumed[x]))
  {
    var (b1, r, _) := EnsureRun(b, instance, EventRun(e));
    var (b2, produced) := IngestAll(held, b1, Produced, r, e.outputs);
    RunKept(b, instance, EventRun(e));
    DatasetsKept(held, b1, Produced, r, e.outputs);
    DatasetsKept(held, b2, Consumed, r, e.inputs);
    if x < |e.outputs| {
      DatasetsNamed(held, b1, Produced, r, e.outputs, x);
      ArtifactOfLater(held, b2, IngestAll(held, b2, Consumed, r, e.inputs).0, e.outputs[x], produced[x]);
    }
    if x < |e.inputs| {
      DatasetsNamed(held, b2, Consumed, r, e.inputs, x);
    }
  }
}
