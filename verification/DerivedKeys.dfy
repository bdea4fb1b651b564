/** Which artifact an entry without an IRI is (src/api/advertise.rs 140-179 and 281-296): entries share an artifact
    by their key, given or derived, across runs and deployments. */
module DerivedKeys {
  import opened Options
  import opened Ledger

  /** Each key has an artifact of its own, and the next one minted will be nobody's. */
  ghost predicate KeysApart(b: Books) {
    && (forall k | k in b.artifactKeys :: b.artifactKeys[k].ArtifactIri? && b.artifactKeys[k].n < b.next)
    && (forall k, l | k in b.artifactKeys && l in b.artifactKeys && b.artifactKeys[k] == b.artifactKeys[l] :: k == l)
  }

  lemma SameKeysApart(b: Books, c: Books)
    requires KeysApart(b) && c.artifactKeys == b.artifactKeys && b.next <= c.next
    ensures KeysApart(c)
  {
  }

  lemma MintApart(b: Books, key: Option<string>)
    requires KeysApart(b)
    ensures KeysApart(Mint(b, key))
  {
  }

  lemma RunApart(b: Books, instance: Iri, run: RunIn)
    requires KeysApart(b)
    ensures KeysApart(EnsureRun(b, instance, run).0)
  {
    SameKeysApart(b, EnsureRun(b, instance, run).0);
  }

  lemma OneApart(derive: Derive, held: set<Iri>, b: Books, role: Role, r: Iri, run: RunIn, a: ArtifactIn)
    requires KeysApart(b)
    ensures KeysApart(AdvertiseOne(derive, held, b, role, r, run, a).0)
  {
    var b1 := Resolve(derive, held, b, role, r, run, a).0;
    var plain := if Resolve(derive, held, b, role, r, run, a).2 then Mint(b, KeyOf(derive, run, a)) else b;
    MintApart(b, KeyOf(derive, run, a));
    SameKeysApart(plain, b1);
    SameKeysApart(b1, AdvertiseOne(derive, held, b, role, r, run, a).0);
  }

  lemma {:induction false} AllApart(derive: Derive, held: set<Iri>, b: Books, role: Role, r: Iri, run: RunIn, arts: seq<ArtifactIn>)
    requires KeysApart(b)
    ensures KeysApart(AdvertiseAll(derive, held, b, role, r, run, arts).0)
  {
    if arts != [] {
      var n := |arts| - 1;
      AllApart(derive, held, b, role, r, run, arts[..n]);
      OneApart(derive, held, AdvertiseAll(derive, held, b, role, r, run, arts[..n]).0, role, r, run, arts[n]);
    }
  }

  lemma {:induction false} DatasetsApart(held: set<Iri>, b: Books, role: Role, r: Iri, ds: seq<Dataset>)
    requires KeysApart(b)
    ensures KeysApart(IngestAll(held, b, role, r, ds).0)
  {
    if ds != [] {
      var n := |ds| - 1;
      var b1 := IngestAll(held, b, role, r, ds[..n]).0;
      DatasetsApart(held, b, role, r, ds[..n]);
      var (b2, i) := MapDataset(held, b1, ds[n]);
      MintApart(b1, Some(ds[n].namespace + "#" + ds[n].name));
      SameKeysApart(b2, Claim(b2, r, i, role).0);
    }
  }

  lemma AdvertiseApart(derive: Derive, held: set<Iri>, b: Books, instance: Iri, role: Role, run: RunIn, arts: seq<ArtifactIn>)
    requires KeysApart(b)
    ensures KeysApart(Advertise(derive, held, b, instance, role, run, arts).0)
  {
    RunApart(b, instance, run);
    AllApart(derive, held, EnsureRun(b, instance, run).0, role, EnsureRun(b, instance, run).1, run, arts);
  }

  lemma IngestApart(held: set<Iri>, b: Books, instance: Iri, e: LineageEvent)
    requires KeysApart(b)
    ensures KeysApart(Ingest(held, b, instance, e).0)
  {
    var (b1, r, _) := EnsureRun(b, instance, EventRun(e));
    RunApart(b, instance, EventRun(e));
    DatasetsApart(held, b1, Produced, r, e.outputs);
    DatasetsApart(held, IngestAll(held, b1, Produced, r, e.outputs).0, Consumed, r, e.inputs);
  }

  /** Over every sequence of calls no two keys ever get one artifact. */
  lemma {:induction false} KeysStayApart(derive: Derive, b: Books, calls: seq<Call>)
    requires KeysApart(b)
    ensures KeysApart(HandleAll(derive, b, calls))
  {
    if calls != [] {
      var n := |calls| - 1;
      var b1 := HandleAll(derive, b, calls[..n]);
      KeysStayApart(derive, b, calls[..n]);
      if calls[n].admitted {
        match calls[n]
        case Advertised(instance, role, run, arts, held, _) => AdvertiseApart(derive, held, b1, instance, role, run, arts);
        case Ingested(instance, event, held, _) => IngestApart(held, b1, instance, event);
      }
    }
  }

  // -------------------------------------------------------------------------- who shares what

  /** An entry that is looked up by a key. */
  predicate LookedUp(derive: Derive, run: RunIn, a: ArtifactIn) {
    GivenIri(a).None? && KeyOf(derive, run, a).Some?
  }

  ghost predicate Answered(derive: Derive, b: Books, run: RunIn, a: ArtifactIn, i: Iri) {
    LookedUp(derive, run, a) ==>
      KeyOf(derive, run, a).value in b.artifactKeys && b.artifactKeys[KeyOf(derive, run, a).value] == i
  }

  /** Whatever an entry with a key is answered is what the table holds for the key from then on. */
  lemma {:induction false} AllAnswered(derive: Derive, held: set<Iri>, b: Books, role: Role, r: Iri, run: RunIn, arts: seq<ArtifactIn>, x: nat)
    requires Inv(b) && x < |arts|
    ensures var (c, iris, _, _) := AdvertiseAll(derive, held, b, role, r, run, arts);
            Answered(derive, c, run, arts[x], iris[x])
  {
    var n := |arts| - 1;
    var b1 := AdvertiseAll(derive, held, b, role, r, run, arts[..n]).0;
    AllKept(derive, held, b, role, r, run, arts[..n]);
    if x < n {
      AllAnswered(derive, held, b, role, r, run, arts[..n], x);
      OneKept(derive, held, b1, role, r, run, arts[n]);
      var c, i := AdvertiseOne(derive, held, b1, role, r, run, arts[n]).0, AdvertiseAll(derive, held, b, role, r, run, arts[..n]).1[x];
      AnsweredLater(derive, b1, c, run, arts[x], i);
    } else {
      OneAnswered(derive, held, b1, role, r, run, arts[n]);
    }
  }

  lemma OneAnswered(derive: Derive, held: set<Iri>, b: Books, role: Role, r: Iri, run: RunIn, a: ArtifactIn)
    ensures var (c, i, _, _) := AdvertiseOne(derive, held, b, role, r, run, a);
            Answered(derive, c, run, a, i)
  {
  }

  lemma AnsweredLater(derive: Derive, b: Books, c: Books, run: RunIn, a: ArtifactIn, i: Iri)
    requires Answered(derive, b, run, a, i) && Extends(b, c)
    ensures Answered(derive, c, run, a, i)
  {
  }

  lemma CallAnswered(derive: Derive, b: Books, call: Call, x: nat)
    requires Inv(b) && call.Advertised? && x < |call.artifacts|
    ensures var (c, answer) := Advertise(derive, call.held, b, call.instance, call.role, call.run, call.artifacts);
            |answer.artifacts| == |call.artifacts| && Answered(derive, c, call.run, call.artifacts[x], answer.artifacts[x])
  {
    var (b1, r, _) := EnsureRun(b, call.instance, call.run);
    RunKept(b, call.instance, call.run);
    AllAnswered(derive, call.held, b1, call.role, r, call.run, call.artifacts, x);
  }

  /** What two calls answer, any calls in between. */
  ghost function Answers(derive: Derive, b: Books, first: Call, between: seq<Call>, second: Call): (Answer, Answer)
    requires first.Advertised? && second.Advertised?
  {
    var (c, one) := Advertise(derive, first.held, b, first.instance, first.role, first.run, first.artifacts);
    var d := HandleAll(derive, c, between);
    (one, Advertise(derive, second.held, d, second.instance, second.role, second.run, second.artifacts).1)
  }

  /** Entries of two calls that are looked up by a key are one artifact exactly if the key is one, whoever sent
      them and for whichever run. */
  lemma SharedIffSameKey(derive: Derive, b: Books, first: Call, x: nat, between: seq<Call>, second: Call, y: nat)
    requires Inv(b) && KeysApart(b) && first.Advertised? && second.Advertised? && x < |first.artifacts| && y < |second.artifacts|
    requires LookedUp(derive, first.run, first.artifacts[x]) && LookedUp(derive, second.run, second.artifacts[y])
    ensures var (one, two) := Answers(derive, b, first, between, second);
            && |one.artifacts| == |first.artifacts| && |two.artifacts| == |second.artifacts|
            && (one.artifacts[x] == two.artifacts[y]
                <==> KeyOf(derive, first.run, first.artifacts[x]) == KeyOf(derive, second.run, second.artifacts[y]))
  {
    var c := Advertise(derive, first.held, b, first.instance, first.role, first.run, first.artifacts).0;
    AdvertiseKept(derive, first.held, b, first.instance, first.role, first.run, first.artifacts);
    AdvertiseApart(derive, first.held, b, first.instance, first.role, first.run, first.artifacts);
    CallAnswered(derive, b, first, x);
    var d := HandleAll(derive, c, between);
    BooksBalance(derive, c, between);
    KeysStayApart(derive, c, between);
    var e := Advertise(derive, second.held, d, second.instance, second.role, second.run, second.artifacts).0;
    AdvertiseKept(derive, second.held, d, second.instance, second.role, second.run, second.artifacts);
    AdvertiseApart(derive, second.held, d, second.instance, second.role, second.run, second.artifacts);
    CallAnswered(derive, d, second, y);
    ExtendsTransitive(c, d, e);
    assert KeysApart(e) && Extends(c, e);
  }

  /** The entry carries neither IRI nor key of its own, and its run has one. */
  predicate Nameless(run: RunIn, a: ArtifactIn) {
    GivenIri(a).None? && NonEmpty(a.key).None? && run.key.Some?
  }

  ghost predicate Injective(derive: Derive) {
    forall s, t :: derive(s) == derive(t) ==> s == t
  }

  /** Two such entries are one artifact exactly if run key and description, written one after the other, are the
      same text. The deployment does not enter, nor where one text ends and the next begins. */
  lemma DerivedSharedIff(derive: Derive, b: Books, first: Call, x: nat, between: seq<Call>, second: Call, y: nat)
    requires Inv(b) && KeysApart(b) && Injective(derive) && first.Advertised? && second.Advertised?
    requires x < |first.artifacts| && y < |second.artifacts|
    requires Nameless(first.run, first.artifacts[x]) && Nameless(second.run, second.artifacts[y])
    ensures var (one, two) := Answers(derive, b, first, between, second);
            && |one.artifacts| == |first.artifacts| && |two.artifacts| == |second.artifacts|
            && (one.artifacts[x] == two.artifacts[y]
                <==> first.run.key.value + Flat(first.artifacts[x].about) == second.run.key.value + Flat(second.artifacts[y].about))
  {
    SharedIffSameKey(derive, b, first, x, between, second, y);
  }

  /** Two entries with keys of their own and no IRI are one artifact exactly if the keys are one, whatever else they
      say and whichever run they are for. */
  lemma OwnKeySharedIff(derive: Derive, b: Books, first: Call, x: nat, between: seq<Call>, second: Call, y: nat)
    requires Inv(b) && KeysApart(b) && first.Advertised? && second.Advertised? && x < |first.artifacts| && y < |second.artifacts|
    requires first.artifacts[x].iri == second.artifacts[y].iri == None
    requires first.artifacts[x].key.Some? && first.artifacts[x].key.value != ""
    requires second.artifacts[y].key.Some? && second.artifacts[y].key.value != ""
    ensures var (one, two) := Answers(derive, b, first, between, second);
            && |one.artifacts| == |first.artifacts| && |two.artifacts| == |second.artifacts|
            && (one.artifacts[x] == two.artifacts[y] <==> first.artifacts[x].key == second.artifacts[y].key)
  {
    SharedIffSameKey(derive, b, first, x, between, second, y);
  }

  /** Two entries of one call: exactly if their descriptions run together to the same text. */
  lemma DerivedSharedInOneCallIff(derive: Derive, b: Books, call: Call, x: nat, y: nat)
    requires Inv(b) && KeysApart(b) && Injective(derive) && call.Advertised? && x < |call.artifacts| && y < |call.artifacts|
    requires Nameless(call.run, call.artifacts[x]) && Nameless(call.run, call.artifacts[y])
    ensures var answer := Advertise(derive, call.held, b, call.instance, call.role, call.run, call.artifacts).1;
            && |answer.artifacts| == |call.artifacts|
            && (answer.artifacts[x] == answer.artifacts[y] <==> Flat(call.artifacts[x].about) == Flat(call.artifacts[y].about))
  {
    AdvertiseApart(derive, call.held, b, call.instance, call.role, call.run, call.artifacts);
    CallAnswered(derive, b, call, x);
    CallAnswered(derive, b, call, y);
    SameRest(call.run.key.value, Flat(call.artifacts[x].about), Flat(call.artifacts[y].about));
  }

  lemma SameRest(a: string, b: string, c: string)
    ensures a + b == a + c <==> b == c
  {
    assert (a + b)[|a|..] == b && (a + c)[|a|..] == c;
  }

  /** Two deployments that use one run key and describe an output alike: two runs, one artifact, and it is
      recorded as generated by both. */
  lemma TwoDeploymentsOneArtifact(derive: Derive, one: Iri, other: Iri, key: string, a: ArtifactIn)
    requires one != other && key != "" && Nameless(RunIn(Some(key), None, None), a)
    ensures var run := RunIn(Some(key), None, None);
            var (c, x) := Advertise(derive, {}, NoBooks, one, Produced, run, [a]);
            var (d, y) := Advertise(derive, {}, c, other, Produced, run, [a]);
            && x.run != y.run && x.artifacts == y.artifacts
            && (x.artifacts[0], x.run) in d.generated && (x.artifacts[0], y.run) in d.generated
  {
    var run := RunIn(Some(key), None, None);
    var (c, x) := Advertise(derive, {}, NoBooks, one, Produced, run, [a]);
    OnlyEntry(derive, EnsureRun(NoBooks, one, run).0, x.run, run, a);
    OnlyEntry(derive, EnsureRun(c, other, run).0, RunIri(c.next), run, a);
  }

  lemma OnlyEntry(derive: Derive, b: Books, r: Iri, run: RunIn, a: ArtifactIn)
    ensures var (c, i, created, queued) := AdvertiseOne(derive, {}, b, Produced, r, run, a);
            AdvertiseAll(derive, {}, b, Produced, r, run, [a]) == (c, [i], created, queued)
  {
    var (c, i, created, queued) := AdvertiseOne(derive, {}, b, Produced, r, run, a);
    assert [a][..|[a]| - 1] == [];
    assert AdvertiseAll(derive, {}, b, Produced, r, run, [a]) == (c, [] + [i], false || created, [] + queued);
    assert [] + queued == queued && [] + [i] == [i];
  }

  /** And within one call two artifacts of one title are one, if what the first has as its download URL the
      second has as its access URL. */
  lemma DifferentArtifactsCollapse(derive: Derive, b: Books, call: Call, title: string, url: string)
    requires Inv(b) && call.Advertised? && call.run.key.Some? && title != "" && url != ""
    requires call.artifacts == [ArtifactIn(None, None, [title, "", url, ""], []), ArtifactIn(None, None, [title, "", "", url], [])]
    ensures var answer := Advertise(derive, call.held, b, call.instance, call.role, call.run, call.artifacts).1;
            |answer.artifacts| == 2 && answer.artifacts[0] == answer.artifacts[1] && call.artifacts[0] != call.artifacts[1]
  {
    FlatFour(title, "", url, "");
    FlatFour(title, "", "", url);
    assert title + "" + url + "" == title + url == title + "" + "" + url;
    var a, c := call.artifacts[0], call.artifacts[1];
    assert Flat(a.about) == Flat(c.about) && a.about[2] != c.about[2];
    assert LookedUp(derive, call.run, a) && LookedUp(derive, call.run, c) && KeyOf(derive, call.run, a) == KeyOf(derive, call.run, c);
    CallAnswered(derive, b, call, 0);
    CallAnswered(derive, b, call, 1);
  }

  lemma FlatLast(texts: seq<string>, last: string)
    ensures Flat(texts + [last]) == Flat(texts) + last
  {
    assert (texts + [last])[..|texts|] == texts;
  }

  lemma FlatTwo(s: string, t: string)
    ensures Flat([s, t]) == s + t
  {
    FlatLast([], s);
    FlatLast([s], t);
    assert [] + [s] == [s] && [s] + [t] == [s, t] && "" + s == s;
  }

  lemma FlatFour(s: string, t: string, u: string, v: string)
    ensures Flat([s, t, u, v]) == s + t + u + v
  {
    FlatTwo(s, t);
    var two, three := [s, t], [s, t, u];
    FlatLast(two, u);
    assert two + [u] == three;
    FlatLast(three, v);
    assert three + [v] == [s, t, u, v];
  }
}
