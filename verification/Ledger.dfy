/** Advertising artifacts (src/api/advertise.rs) and ingesting OpenLineage events
    (src/api/openlineage.rs): the key tables, the claim set and the lineage edges they keep in step.
    Calls are handled one at a time and each reaches its commit. */
module Ledger {
  import opened Options

  /** A minted IRI, or one that came from elsewhere. A caller may send either kind. */
  datatype Iri = RunIri(n: nat) | ArtifactIri(n: nat) | Foreign(name: string)

  datatype Role = Produced | Consumed

  /** The ops tables and the statements of the local graph that advertisement writes. */
  datatype Books = Books(
    runKeys: map<(string, Iri), Iri>,
    artifactKeys: map<string, Iri>,
    claims: set<(Iri, Iri, Role)>,
    used: set<(Iri, Iri)>,
    generated: set<(Iri, Iri)>,
    status: set<(Iri, string)>,
    action: set<(Iri, string)>,
    ended: set<(Iri, string)>,
    queue: set<Iri>,
    next: nat)

  datatype RunIn = RunIn(key: Option<string>, status: Option<string>, ended: Option<string>)

  /** `about` is what a derived key hashes of the producer's description: title, schema, and the two URLs of each
      distribution, empty where they are missing. */
  datatype ArtifactIn = ArtifactIn(iri: Option<Iri>, key: Option<string>, about: seq<string>, parents: seq<Iri>)

  datatype Answer = Answer(run: Iri, artifacts: seq<Iri>, created: bool, queued: seq<Iri>)

  function NonEmpty(s: Option<string>): Option<string> {
    if s == Some("") then None else s
  }

  // ------------------------------------------------------------------------------- the run

  function ActionStatus(status: string): Option<string> {
    if status == "success" then Some("CompletedActionStatus")
    else if status == "failed" || status == "aborted" then Some("FailedActionStatus")
    else if status == "running" then Some("ActiveActionStatus")
    else None
  }

  function Fact(r: Iri, v: Option<string>): set<(Iri, string)> {
    if v.Some? && v.value != "" then {(r, v.value)} else {}
  }

  function Without(facts: set<(Iri, string)>, r: Iri): set<(Iri, string)> {
    set f | f in facts && f.0 != r
  }

  /** The status and end time of a run that already exists are replaced, not added to. */
  function UpdateOutcome(b: Books, r: Iri, run: RunIn): Books {
    var b1 := if run.ended.Some? then b.(ended := Without(b.ended, r) + Fact(r, run.ended)) else b;
    if run.status.Some? then
      b1.(status := Without(b1.status, r) + Fact(r, run.status),
          action := Without(b1.action, r) + Fact(r, ActionStatus(run.status.value)))
    else b1
  }

  function NewRun(b: Books, instance: Iri, run: RunIn): Books {
    var r, status := RunIri(b.next), run.status.GetOr("success");
    var key := NonEmpty(run.key);
    b.(next := b.next + 1,
       status := b.status + Fact(r, Some(status)),
       action := b.action + Fact(r, ActionStatus(status)),
       ended := b.ended + Fact(r, run.ended),
       runKeys := if key.Some? && (key.value, instance) !in b.runKeys then b.runKeys[(key.value, instance) := r] else b.runKeys)
  }

  function ExistingRun(b: Books, instance: Iri, run: RunIn): Option<Iri> {
    var key := NonEmpty(run.key);
    if key.Some? && (key.value, instance) in b.runKeys then Some(b.runKeys[(key.value, instance)]) else None
  }

  /** Resolve the run by its key, or mint it. */
  function EnsureRun(b: Books, instance: Iri, run: RunIn): (Books, Iri, bool) {
    match ExistingRun(b, instance, run)
    case Some(r) => (UpdateOutcome(b, r, run), r, false)
    case None => (NewRun(b, instance, run), RunIri(b.next), true)
  }

  // -------------------------------------------------------------------------- the artifacts

  /** The digest that makes a key for an artifact that carries none. */
  type Derive = string -> string

  function Flat(texts: seq<string>): string {
    if texts == [] then "" else Flat(texts[..|texts| - 1]) + texts[|texts| - 1]
  }

  /** What it is taken of: the run key and the texts, one after the other. */
  function Described(runKey: string, a: ArtifactIn): string {
    runKey + Flat(a.about)
  }

  function KeyOf(derive: Derive, run: RunIn, a: ArtifactIn): Option<string> {
    if NonEmpty(a.key).Some? then a.key
    else if run.key.Some? then Some(derive(Described(run.key.value, a)))
    else None
  }

  predicate Unknown(i: Iri, held: set<Iri>) {
    i.Foreign? && i !in held
  }

  function UnknownOnes(s: seq<Iri>, held: set<Iri>): seq<Iri> {
    if s == [] then []
    else UnknownOnes(s[..|s| - 1], held) + if Unknown(s[|s| - 1], held) then [s[|s| - 1]] else []
  }

  function Queue(b: Books, s: seq<Iri>): Books {
    b.(queue := b.queue + set i | i in s)
  }

  function Mint(b: Books, key: Option<string>): Books {
    b.(next := b.next + 1,
       artifactKeys := if key.Some? && key.value !in b.artifactKeys then b.artifactKeys[key.value := ArtifactIri(b.next)]
                       else b.artifactKeys)
  }

  function GivenIri(a: ArtifactIn): Option<Iri> {
    if a.iri == Some(Foreign("")) then None else a.iri
  }

  /** The artifact an entry names, minting it if nobody knows it. `held` is what the store has
      statements about. */
  function Resolve(derive: Derive, held: set<Iri>, b: Books, role: Role, r: Iri, run: RunIn, a: ArtifactIn)
    : (Books, Iri, bool, seq<Iri>)
  {
    var given, key := GivenIri(a), KeyOf(derive, run, a);
    if given.Some? then
      var q := UnknownOnes([given.value], held);
      (Queue(b, q), given.value, false, q)
    else if key.Some? && key.value in b.artifactKeys then (b, b.artifactKeys[key.value], false, [])
    else
      var i, q := ArtifactIri(b.next), UnknownOnes(a.parents, held);
      var b1 := Queue(Mint(b, key), q);
      (if role.Produced? then b1.(generated := b1.generated + {(i, r)}) else b1, i, true, q)
  }

  /** Test and set on (run, artifact, role); the edge is written only for a fresh claim. */
  function Claim(b: Books, r: Iri, i: Iri, role: Role): (Books, bool) {
    if (r, i, role) in b.claims then (b, false)
    else
      var b1 := b.(claims := b.claims + {(r, i, role)});
      (if role.Consumed? then b1.(used := b1.used + {(r, i)}) else b1.(generated := b1.generated + {(i, r)}), true)
  }

  function AdvertiseOne(derive: Derive, held: set<Iri>, b: Books, role: Role, r: Iri, run: RunIn, a: ArtifactIn)
    : (Books, Iri, bool, seq<Iri>)
  {
    var (b1, i, minted, q) := Resolve(derive, held, b, role, r, run, a);
    var (b2, first) := Claim(b1, r, i, role);
    (b2, i, minted || first, q)
  }

  function AdvertiseAll(derive: Derive, held: set<Iri>, b: Books, role: Role, r: Iri, run: RunIn, arts: seq<ArtifactIn>)
    : (res: (Books, seq<Iri>, bool, seq<Iri>))
    ensures |res.1| == |arts|
  {
    if arts == [] then (b, [], false, [])
    else
      var n := |arts| - 1;
      var (b1, iris, created, queued) := AdvertiseAll(derive, held, b, role, r, run, arts[..n]);
      var (b2, i, new_, q) := AdvertiseOne(derive, held, b1, role, r, run, arts[n]);
      (b2, iris + [i], created || new_, queued + q)
  }

  function Advertise(derive: Derive, held: set<Iri>, b: Books, instance: Iri, role: Role, run: RunIn, arts: seq<ArtifactIn>)
    : (Books, Answer)
  {
    var (b1, r, minted) := EnsureRun(b, instance, run);
    var (b2, iris, created, queued) := AdvertiseAll(derive, held, b1, role, r, run, arts);
    (b2, Answer(r, iris, minted || created, queued))
  }

  // ---------------------------------------------------------------------------- OpenLineage

  /** `links` are the IRIs of the symlinks facet. */
  datatype Dataset = Dataset(links: seq<Iri>, namespace: string, name: string)

  datatype LineageEvent = LineageEvent(kind: string, runId: Option<string>, time: Option<string>,
                                       outputs: seq<Dataset>, inputs: seq<Dataset>)

  function EventRun(e: LineageEvent): RunIn {
    var terminal := e.kind == "COMPLETE" || e.kind == "FAIL" || e.kind == "ABORT";
    var status := if e.kind == "COMPLETE" then "success" else if terminal then "failed" else "running";
    RunIn(e.runId, Some(status), if terminal then e.time else None)
  }

  function FirstKnown(links: seq<Iri>, held: set<Iri>): Option<Iri> {
    if links == [] then None
    else if !Unknown(links[0], held) then Some(links[0])
    else FirstKnown(links[1..], held)
  }

  function MapDataset(held: set<Iri>, b: Books, d: Dataset): (Books, Iri) {
    var known, key := FirstKnown(d.links, held), d.namespace + "#" + d.name;
    if known.Some? then (b, known.value)
    else if key in b.artifactKeys then (b, b.artifactKeys[key])
    else (Mint(b, Some(key)), ArtifactIri(b.next))
  }

  function IngestAll(held: set<Iri>, b: Books, role: Role, r: Iri, ds: seq<Dataset>): (res: (Books, seq<Iri>))
    ensures |res.1| == |ds|
  {
    if ds == [] then (b, [])
    else
      var n := |ds| - 1;
      var (b1, iris) := IngestAll(held, b, role, r, ds[..n]);
      var (b2, i) := MapDataset(held, b1, ds[n]);
      (Claim(b2, r, i, role).0, iris + [i])
  }

  function Ingest(held: set<Iri>, b: Books, instance: Iri, e: LineageEvent): (Books, Iri, seq<Iri>, seq<Iri>) {
    var (b1, r, _) := EnsureRun(b, instance, EventRun(e));
    var (b2, produced) := IngestAll(held, b1, Produced, r, e.outputs);
    var (b3, consumed) := IngestAll(held, b2, Consumed, r, e.inputs);
    (b3, r, produced, consumed)
  }

  // ------------------------------------------------------------------------------ invariants

  ghost predicate LinksAreClaims(b: Books) {
    && (forall r, i :: (r, i) in b.used <==> (r, i, Consumed) in b.claims)
    && (forall r, i :: (i, r) in b.generated <==> (r, i, Produced) in b.claims)
  }

  ghost predicate OneEach(facts: set<(Iri, string)>, next: nat) {
    && (forall f | f in facts :: f.0.RunIri? && f.0.n < next)
    && (forall f, g | f in facts && g in facts && f.0 == g.0 :: f == g)
  }

  ghost predicate Inv(b: Books) {
    && LinksAreClaims(b)
    && OneEach(b.status, b.next) && OneEach(b.action, b.next) && OneEach(b.ended, b.next)
    && forall k | k in b.runKeys :: b.runKeys[k].RunIri? && b.runKeys[k].n < b.next
  }

  /** Nothing the tables remember is ever forgotten or changed. */
  ghost predicate Extends(b: Books, c: Books) {
    && (forall k | k in b.runKeys :: k in c.runKeys && c.runKeys[k] == b.runKeys[k])
    && (forall k | k in b.artifactKeys :: k in c.artifactKeys && c.artifactKeys[k] == b.artifactKeys[k])
    && b.claims <= c.claims && b.next <= c.next
  }

  lemma ReplacedOnce(facts: set<(Iri, string)>, next: nat, r: Iri, v: Option<string>)
    requires OneEach(facts, next) && r.RunIri? && r.n < next
    ensures OneEach(Without(facts, r) + Fact(r, v), next)
  {
  }

  lemma AddedOnce(facts: set<(Iri, string)>, next: nat, v: Option<string>)
    requires OneEach(facts, next)
    ensures OneEach(facts + Fact(RunIri(next), v), next + 1)
  {
  }

  lemma OutcomeKept(b: Books, r: Iri, run: RunIn)
    requires Inv(b) && r.RunIri? && r.n < b.next
    ensures Inv(UpdateOutcome(b, r, run)) && Extends(b, UpdateOutcome(b, r, run))
  {
    ReplacedOnce(b.ended, b.next, r, run.ended);
    if run.status.Some? {
      ReplacedOnce(b.status, b.next, r, run.status);
      ReplacedOnce(b.action, b.next, r, ActionStatus(run.status.value));
    }
  }

  lemma NewRunKept(b: Books, instance: Iri, run: RunIn)
    requires Inv(b)
    ensures Inv(NewRun(b, instance, run)) && Extends(b, NewRun(b, instance, run))
  {
    var status := run.status.GetOr("success");
    AddedOnce(b.status, b.next, Some(status));
    AddedOnce(b.action, b.next, ActionStatus(status));
    AddedOnce(b.ended, b.next, run.ended);
  }

  lemma RunKept(b: Books, instance: Iri, run: RunIn)
    requires Inv(b)
    ensures var (c, r, _) := EnsureRun(b, instance, run);
            Inv(c) && Extends(b, c) && c.claims == b.claims && r.RunIri? && r.n < c.next
  {
    var existing := ExistingRun(b, instance, run);
    if existing.Some? {
      OutcomeKept(b, existing.value, run);
    } else {
      NewRunKept(b, instance, run);
    }
  }

  lemma ExtendsTransitive(b: Books, c: Books, d: Books)
    requires Extends(b, c) && Extends(c, d)
    ensures Extends(b, d)
  {
  }

  lemma ClaimKept(b: Books, r: Iri, i: Iri, role: Role)
    requires Inv(b)
    ensures var (c, first) := Claim(b, r, i, role);
            Inv(c) && Extends(b, c) && (r, i, role) in c.claims && first == ((r, i, role) !in b.claims)
            && c.claims == b.claims + {(r, i, role)} && c.artifactKeys == b.artifactKeys && c.runKeys == b.runKeys
  {
  }

  lemma MintKept(b: Books, key: Option<string>, q: seq<Iri>)
    requires Inv(b)
    ensures Inv(Queue(Mint(b, key), q)) && Extends(b, Queue(Mint(b, key), q))
  {
  }

  /** The edge a minted artifact is born with is claimed in the same step. */
  lemma BornClaimed(b: Books, r: Iri, i: Iri)
    requires Inv(b)
    ensures var c := Claim(b.(generated := b.generated + {(i, r)}), r, i, Produced).0;
            Inv(c) && Extends(b, c) && (r, i, Produced) in c.claims
  {
  }

  lemma OneKept(derive: Derive, held: set<Iri>, b: Books, role: Role, r: Iri, run: RunIn, a: ArtifactIn)
    requires Inv(b)
    ensures var (c, i, _, _) := AdvertiseOne(derive, held, b, role, r, run, a);
            Inv(c) && Extends(b, c) && (r, i, role) in c.claims
  {
    var (b1, i, minted, q) := Resolve(derive, held, b, role, r, run, a);
    var c := Claim(b1, r, i, role).0;
    if minted {
      var plain := Queue(Mint(b, KeyOf(derive, run, a)), q);
      MintKept(b, KeyOf(derive, run, a), q);
      if role.Produced? {
        BornClaimed(plain, r, i);
      } else {
        ClaimKept(plain, r, i, role);
      }
      ExtendsTransitive(b, plain, c);
    } else {
      assert Inv(b1) && Extends(b, b1);
      ClaimKept(b1, r, i, role);
      ExtendsTransitive(b, b1, c);
    }
  }

  lemma {:induction false} AllKept(derive: Derive, held: set<Iri>, b: Books, role: Role, r: Iri, run: RunIn, arts: seq<ArtifactIn>)
    requires Inv(b)
    ensures Inv(AdvertiseAll(derive, held, b, role, r, run, arts).0)
    ensures Extends(b, AdvertiseAll(derive, held, b, role, r, run, arts).0)
  {
    if arts != [] {
      var n := |arts| - 1;
      var b1 := AdvertiseAll(derive, held, b, role, r, run, arts[..n]).0;
      AllKept(derive, held, b, role, r, run, arts[..n]);
      OneKept(derive, held, b1, role, r, run, arts[n]);
      ExtendsTransitive(b, b1, AdvertiseOne(derive, held, b1, role, r, run, arts[n]).0);
    }
  }

  lemma DatasetKept(held: set<Iri>, b: Books, role: Role, r: Iri, d: Dataset)
    requires Inv(b)
    ensures var (c, i) := MapDataset(held, b, d);
            Inv(Claim(c, r, i, role).0) && Extends(b, Claim(c, r, i, role).0)
  {
    var (c, i) := MapDataset(held, b, d);
    assert Inv(c) && Extends(b, c);
    ClaimKept(c, r, i, role);
    ExtendsTransitive(b, c, Claim(c, r, i, role).0);
  }

  lemma {:induction false} DatasetsKept(held: set<Iri>, b: Books, role: Role, r: Iri, ds: seq<Dataset>)
    requires Inv(b)
    ensures Inv(IngestAll(held, b, role, r, ds).0) && Extends(b, IngestAll(held, b, role, r, ds).0)
  {
    if ds != [] {
      var n := |ds| - 1;
      var b1 := IngestAll(held, b, role, r, ds[..n]).0;
      DatasetsKept(held, b, role, r, ds[..n]);
      DatasetKept(held, b1, role, r, ds[n]);
      ExtendsTransitive(b, b1, IngestAll(held, b, role, r, ds).0);
    }
  }

  // ------------------------------------------------------------------------- runs of calls

  /** A call, what the store holds when it comes, and whether its credential and payload pass. */
  datatype Call =
    | Advertised(instance: Iri, role: Role, run: RunIn, artifacts: seq<ArtifactIn>, held: set<Iri>, admitted: bool)
    | Ingested(instance: Iri, event: LineageEvent, held: set<Iri>, admitted: bool)

  function Handle(derive: Derive, b: Books, c: Call): Books {
    if !c.admitted then b
    else match c
         case Advertised(instance, role, run, arts, held, _) => Advertise(derive, held, b, instance, role, run, arts).0
         case Ingested(instance, event, held, _) => Ingest(held, b, instance, event).0
  }

  function HandleAll(derive: Derive, b: Books, calls: seq<Call>): Books {
    if calls == [] then b else Handle(derive, HandleAll(derive, b, calls[..|calls| - 1]), calls[|calls| - 1])
  }

  const NoBooks := Books(map[], map[], {}, {}, {}, {}, {}, {}, {}, 0)

  lemma AdvertiseKept(derive: Derive, held: set<Iri>, b: Books, instance: Iri, role: Role, run: RunIn, arts: seq<ArtifactIn>)
    requires Inv(b)
    ensures var c := Advertise(derive, held, b, instance, role, run, arts).0; Inv(c) && Extends(b, c)
  {
    var (b1, r, _) := EnsureRun(b, instance, run);
    RunKept(b, instance, run);
    AllKept(derive, held, b1, role, r, run, arts);
    ExtendsTransitive(b, b1, AdvertiseAll(derive, held, b1, role, r, run, arts).0);
  }

  lemma IngestKept(held: set<Iri>, b: Books, instance: Iri, e: LineageEvent)
    requires Inv(b)
    ensures var c := Ingest(held, b, instance, e).0; Inv(c) && Extends(b, c)
  {
    var (b1, r, _) := EnsureRun(b, instance, EventRun(e));
    RunKept(b, instance, EventRun(e));
    DatasetsKept(held, b1, Produced, r, e.outputs);
    var b2 := IngestAll(held, b1, Produced, r, e.outputs).0;
    DatasetsKept(held, b2, Consumed, r, e.inputs);
    ExtendsTransitive(b, b1, b2);
    ExtendsTransitive(b, b2, IngestAll(held, b2, Consumed, r, e.inputs).0);
  }

  /** Over every sequence of advertise and OpenLineage calls: the edges are the claims, a run has at
      most one status, action status and end time, and no key, claim or IRI is ever lost. */
  lemma {:induction false} BooksBalance(derive: Derive, b: Books, calls: seq<Call>)
    requires Inv(b)
    ensures Inv(HandleAll(derive, b, calls)) && Extends(b, HandleAll(derive, b, calls))
  {
    if calls != [] {
      var n := |calls| - 1;
      var b1, c := HandleAll(derive, b, calls[..n]), calls[n];
      BooksBalance(derive, b, calls[..n]);
      if c.admitted {
        match c
        case Advertised(instance, role, run, arts, held, _) => AdvertiseKept(derive, held, b1, instance, role, run, arts);
        case Ingested(instance, event, held, _) => IngestKept(held, b1, instance, event);
      }
      ExtendsTransitive(b, b1, Handle(derive, b1, c));
    }
  }

  // ------------------------------------------------------------------------------- replays

  /** The tables already answer this entry, and its claim is made. */
  ghost predicate Known(derive: Derive, b: Books, role: Role, r: Iri, run: RunIn, a: ArtifactIn, i: Iri) {
    && (r, i, role) in b.claims
    && if GivenIri(a).Some? then i == GivenIri(a).value
       else var key := KeyOf(derive, run, a);
            key.Some? && key.value in b.artifactKeys && b.artifactKeys[key.value] == i
  }

  lemma OneKnown(derive: Derive, held: set<Iri>, b: Books, role: Role, r: Iri, run: RunIn, a: ArtifactIn)
    requires run.key.Some?
    ensures var (c, i, _, _) := AdvertiseOne(derive, held, b, role, r, run, a);
            Known(derive, c, role, r, run, a, i)
  {
  }

  lemma {:induction false} AllKnown(derive: Derive, held: set<Iri>, b: Books, role: Role, r: Iri, run: RunIn, arts: seq<ArtifactIn>)
    requires Inv(b) && run.key.Some?
    ensures var (c, iris, _, _) := AdvertiseAll(derive, held, b, role, r, run, arts);
            forall k | 0 <= k < |arts| :: Known(derive, c, role, r, run, arts[k], iris[k])
  {
    if arts != [] {
      var n := |arts| - 1;
      var b1 := AdvertiseAll(derive, held, b, role, r, run, arts[..n]).0;
      AllKnown(derive, held, b, role, r, run, arts[..n]);
      AllKept(derive, held, b, role, r, run, arts[..n]);
      var (c, iris, _, _) := AdvertiseAll(derive, held, b, role, r, run, arts);
      assert Extends(b1, c) by {
        OneKept(derive, held, b1, role, r, run, arts[n]);
      }
      OneKnown(derive, held, b1, role, r, run, arts[n]);
      forall k | 0 <= k < n ensures Known(derive, c, role, r, run, arts[k], iris[k]) {
        assert arts[..n][k] == arts[k];
        KnownLater(derive, b1, c, role, r, run, arts[k], iris[k]);
      }
    }
  }

  lemma KnownLater(derive: Derive, b: Books, c: Books, role: Role, r: Iri, run: RunIn, a: ArtifactIn, i: Iri)
    requires Known(derive, b, role, r, run, a, i) && Extends(b, c)
    ensures Known(derive, c, role, r, run, a, i)
  {
  }

  /** Nothing but the resolve queue differs. */
  ghost predicate SameBooks(b: Books, c: Books) {
    c == b.(queue := c.queue)
  }

  lemma {:induction false} AllReplayed(derive: Derive, held: set<Iri>, b: Books, role: Role, r: Iri, run: RunIn,
                                       arts: seq<ArtifactIn>, iris: seq<Iri>)
    requires |iris| == |arts| && forall k | 0 <= k < |arts| :: Known(derive, b, role, r, run, arts[k], iris[k])
    ensures var (c, again, created, _) := AdvertiseAll(derive, held, b, role, r, run, arts);
            again == iris && !created && SameBooks(b, c)
  {
    if arts != [] {
      var n := |arts| - 1;
      AllReplayed(derive, held, b, role, r, run, arts[..n], iris[..n]);
      assert iris == iris[..n] + [iris[n]];
      assert Known(derive, b, role, r, run, arts[n], iris[n]);
    }
  }

  /** Everything a call asked for is in the tables, under this answer. */
  ghost predicate Remembered(derive: Derive, b: Books, instance: Iri, role: Role, run: RunIn, arts: seq<ArtifactIn>,
                             r: Iri, iris: seq<Iri>)
  {
    && ExistingRun(b, instance, run) == Some(r)
    && |iris| == |arts|
    && forall k | 0 <= k < |arts| :: Known(derive, b, role, r, run, arts[k], iris[k])
  }

  lemma CallRemembered(derive: Derive, held: set<Iri>, b: Books, instance: Iri, role: Role, run: RunIn, arts: seq<ArtifactIn>)
    requires Inv(b) && NonEmpty(run.key).Some?
    ensures var (c, answer) := Advertise(derive, held, b, instance, role, run, arts);
            Remembered(derive, c, instance, role, run, arts, answer.run, answer.artifacts)
  {
    var (b1, r, _) := EnsureRun(b, instance, run);
    RunKept(b, instance, run);
    AllKnown(derive, held, b1, role, r, run, arts);
    AllKept(derive, held, b1, role, r, run, arts);
    assert ExistingRun(b1, instance, run) == Some(r);
  }

  lemma RememberedLater(derive: Derive, b: Books, c: Books, instance: Iri, role: Role, run: RunIn, arts: seq<ArtifactIn>,
                        r: Iri, iris: seq<Iri>)
    requires Remembered(derive, b, instance, role, run, arts, r, iris) && Extends(b, c)
    ensures Remembered(derive, c, instance, role, run, arts, r, iris)
  {
    forall k | 0 <= k < |arts|
      ensures Known(derive, c, role, r, run, arts[k], iris[k])
    {
      assert Known(derive, b, role, r, run, arts[k], iris[k]);
    }
  }

  lemma RememberedIdle(derive: Derive, held: set<Iri>, d: Books, instance: Iri, role: Role, run: RunIn, arts: seq<ArtifactIn>,
                       r: Iri, iris: seq<Iri>)
    requires Inv(d) && Remembered(derive, d, instance, role, run, arts, r, iris)
    ensures var (e, again) := Advertise(derive, held, d, instance, role, run, arts);
            && again.run == r && again.artifacts == iris && !again.created
            && SameBooks(UpdateOutcome(d, r, run), e)
  {
    var d1 := UpdateOutcome(d, r, run);
    forall k | 0 <= k < |arts|
      ensures Known(derive, d1, role, r, run, arts[k], iris[k])
    {
      assert Known(derive, d, role, r, run, arts[k], iris[k]);
    }
    AllReplayed(derive, held, d1, role, r, run, arts, iris);
  }

  /** Repeating, after any calls in between, an advertise call whose run has a key gives the same run
      and artifacts, creates nothing, and adds no edge, claim or key: at most the run's outcome is
      stated again. */
  lemma ReplayIsIdle(derive: Derive, b: Books, first: Call, between: seq<Call>, held: set<Iri>)
    requires Inv(b) && first.Advertised? && first.admitted && NonEmpty(first.run.key).Some?
    ensures var (c, answer) := Advertise(derive, first.held, b, first.instance, first.role, first.run, first.artifacts);
            var d := HandleAll(derive, c, between);
            var (e, again) := Advertise(derive, held, d, first.instance, first.role, first.run, first.artifacts);
            && again.run == answer.run && again.artifacts == answer.artifacts && !again.created
            && SameBooks(UpdateOutcome(d, answer.run, first.run), e)
            && e.used == d.used && e.generated == d.generated && e.claims == d.claims
  {
    var (c, answer) := Advertise(derive, first.held, b, first.instance, first.role, first.run, first.artifacts);
    AdvertiseKept(derive, first.held, b, first.instance, first.role, first.run, first.artifacts);
    CallRemembered(derive, first.held, b, first.instance, first.role, first.run, first.artifacts);
    BooksBalance(derive, c, between);
    var d := HandleAll(derive, c, between);
    RememberedLater(derive, c, d, first.instance, first.role, first.run, first.artifacts, answer.run, answer.artifacts);
    RememberedIdle(derive, held, d, first.instance, first.role, first.run, first.artifacts, answer.run, answer.artifacts);
  }

  /** The key is what makes it so: without one every repeat mints a run of its own. */
  lemma KeylessCallCreates(derive: Derive, held: set<Iri>, b: Books, instance: Iri, role: Role, run: RunIn, arts: seq<ArtifactIn>)
    requires NonEmpty(run.key) == None
    ensures var (c, answer) := Advertise(derive, held, b, instance, role, run, arts);
            answer.created && answer.run == RunIri(b.next) && b.next < c.next
  {
    var b1 := EnsureRun(b, instance, run).0;
    NextGrows(derive, held, b1, role, RunIri(b.next), run, arts);
  }

  lemma {:induction false} NextGrows(derive: Derive, held: set<Iri>, b: Books, role: Role, r: Iri, run: RunIn, arts: seq<ArtifactIn>)
    ensures b.next <= AdvertiseAll(derive, held, b, role, r, run, arts).0.next
  {
    if arts != [] {
      NextGrows(derive, held, b, role, r, run, arts[..|arts| - 1]);
    }
  }

  // --------------------------------------------------------------------- the claim as a key

  function RoleName(role: Role): string {
    if role.Produced? then "produced" else "consumed"
  }

  /** The idempotency key of `claim_advertisement`. */
  function IdemKey(run: string, artifact: string, role: Role): string {
    run + "|" + artifact + "|" + RoleName(role)
  }

  /** Run IRIs minted under one base are equally long, and then the joined key separates what it joins,
      whatever an artifact IRI holds. */
  lemma IdemKeySeparates(r1: string, a1: string, role1: Role, r2: string, a2: string, role2: Role)
    requires |r1| == |r2| && IdemKey(r1, a1, role1) == IdemKey(r2, a2, role2)
    ensures r1 == r2 && a1 == a2 && role1 == role2
  {
    var n1, n2 := RoleName(role1), RoleName(role2);
    Regrouped(r1, a1, n1);
    Regrouped(r2, a2, n2);
    RoleNamesDiffer(role1, role2);
    SameFront(r1, "|" + (a1 + ("|" + n1)), r2, "|" + (a2 + ("|" + n2)));
    SameFront("|", a1 + ("|" + n1), "|", a2 + ("|" + n2));
    SameFront(a1, "|" + n1, a2, "|" + n2);
    SameFront("|", n1, "|", n2);
  }

  lemma Regrouped(r: string, a: string, n: string)
    ensures r + "|" + a + "|" + n == r + ("|" + (a + ("|" + n)))
  {
  }

  lemma RoleNamesDiffer(role1: Role, role2: Role)
    ensures RoleName(Produced) == "produced" && RoleName(Consumed) == "consumed"
    ensures |RoleName(role1)| == |RoleName(role2)|
    ensures RoleName(role1) == RoleName(role2) ==> role1 == role2
  {
    assert role1 != role2 ==> RoleName(role1)[0] != RoleName(role2)[0];
  }

  lemma SameFront(a: string, b: string, c: string, d: string)
    requires a + b == c + d && |a| == |c|
    ensures a == c && b == d
  {
    assert a == (a + b)[..|a|] && c == (c + d)[..|a|];
    assert b == (a + b)[|a|..] && d == (c + d)[|a|..];
  }
}
