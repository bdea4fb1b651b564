/** The graph migrations every boot runs (src/seed.rs 21-302): each corrects something an older build
    wrote, and a boot may be stopped between any two of their writes. */
module Boot {
  import opened Options
  import Bases

  /** The concept classes, and the two other types the migrations look for. */
  datatype ConceptClass = ArtifactType | ResearchTopic | ArtifactKeyword | LegacyTopic

  datatype Term = Iri(name: string) | SkosConcept | ArtifactSeries | Class(kind: ConceptClass) | Blank(id: nat) | Literal(text: string)

  datatype Property = RdfType | ConceptBranch | Other(name: string)

  /** The named graphs, told apart as the queries tell them apart: by name or by prefix. */
  datatype Graph = Local | LegacyVocab | Shapes | Peer(name: string) | Bundle(name: string) | Named(name: string)

  datatype Quad = Quad(s: Term, p: Property, o: Term, g: Graph)

  type Quads = set<Quad>

  predicate IsIri(t: Term) {
    !t.Blank? && !t.Literal?
  }

  /** A graph the migrations may edit: not a peer's, not a bundle's, not the shapes. */
  predicate Open(g: Graph) {
    !g.Peer? && !g.Bundle? && !g.Shapes?
  }

  // ------------------------------------------------------------------ records by their path

  /** The text before and after the last slash. */
  function RsplitOnce(s: string): Option<(string, string)> {
    if s == "" then None
    else
      var front, last := s[..|s| - 1], s[|s| - 1];
      if last == '/' then Some((front, ""))
      else match RsplitOnce(front)
           case None => None
           case Some((a, b)) => Some((a, b + [last]))
  }

  function LastSegment(s: string): string {
    match RsplitOnce(s)
    case None => s
    case Some((_, b)) => b
  }

  predicate RecordShaped(iri: string) {
    match RsplitOnce(iri)
    case None => false
    case Some((path, id)) =>
      var kind := Bases.FromSegment(LastSegment(path));
      id != "" && kind.Some? && kind != Some(Bases.Type)
  }

  predicate IsARecordThatIsNotAType(t: Term) {
    t.Iri? && RecordShaped(t.name)
  }

  lemma {:induction false} RsplitAfter(a: string, b: string)
    requires '/' !in b
    ensures RsplitOnce(a + "/" + b) == Some((a, b))
    decreases |b|
  {
    var s := a + "/" + b;
    if b == "" {
      assert s[..|s| - 1] == a;
    } else {
      assert s[..|s| - 1] == a + "/" + b[..|b| - 1];
      RsplitAfter(a, b[..|b| - 1]);
      assert b == b[..|b| - 1] + [b[|b| - 1]];
    }
  }

  /** The path alone decides: what any registry mints, under any base, is recognised, and only a type is
      taken for one. */
  lemma MintedShapeIff(base: string, kind: Bases.Kind, id: string)
    requires id != "" && '/' !in id
    ensures RecordShaped(base + "/" + Bases.Segment(kind) + "/" + id) <==> kind != Bases.Type
  {
    Bases.SegmentReadBack(kind);
    RsplitAfter(base + "/" + Bases.Segment(kind), id);
    RsplitAfter(base, Bases.Segment(kind));
  }

  /** Which paths are a record's of a kind other than a type: those that end in a segment of such a kind and an
      identifier. What the base is does not matter. */
  lemma RecordShapedExactly(front: string, segment: string, id: string)
    requires '/' !in segment && '/' !in id
    ensures RecordShaped(front + "/" + segment + "/" + id) <==>
              id != "" && segment in {"software", "release", "instance", "instances", "artifact", "artifacts", "artifact-series",
                                      "run", "runs", "distribution", "capability", "agent", "peer", "peers"}
    ensures RecordShaped(segment + "/" + id) <==> RecordShaped(front + "/" + segment + "/" + id)
    ensures !RecordShaped(id)
  {
    RsplitAfter(front + "/" + segment, id);
    RsplitAfter(front, segment);
    RsplitAfter(segment, id);
    NoSlashNoRecord(segment);
    NoSlashNoRecord(id);
    Bases.SegmentsByName();
    forall k: Bases.Kind
      ensures Bases.FromSegment(segment) == Some(k) <==>
                segment == Bases.Segment(k)
                || (k in {Bases.Instance, Bases.Artifact, Bases.Run, Bases.Type, Bases.Peer} && segment == Bases.Segment(k) + "s")
    {
      Bases.KindsByName(segment, k);
    }
    assert "instance" + "s" == "instances" && "artifact" + "s" == "artifacts" && "run" + "s" == "runs" && "type" + "s" == "types"
        && "peer" + "s" == "peers";
  }

  // ------------------------------------------------------------------------- the migrations

  /** A subject of the retired graph that no bundle can regenerate and no local record has replaced. */
  predicate Rescued(d: Quads, s: Term) {
    IsIri(s) && !exists q | q in d :: q.s == s && (q.g.Bundle? || q.g.Shapes? || q.g.Local?)
  }

  function Moved(d: Quads): Quads {
    d + set q | q in d && q.g.LegacyVocab? && Rescued(d, q.s) :: Quad(q.s, q.p, q.o, Local)
  }

  function WithoutLegacy(d: Quads): Quads {
    set q | q in d && !q.g.LegacyVocab?
  }

  predicate HasClass(d: Quads, c: Term) {
    exists q | q in d :: q.s == c && q.p.RdfType? && q.o.Class?
  }

  /** `q` says that a local concept with no concept class anywhere, and no record's path, is a concept. */
  predicate Unclassed(d: Quads, q: Quad) {
    q.p.RdfType? && q.o.SkosConcept? && q.g.Local? && IsIri(q.s) && !IsARecordThatIsNotAType(q.s) && !HasClass(d, q.s)
  }

  function Classed(d: Quads): Quads {
    d + set q | q in d && Unclassed(d, q) :: Quad(q.s, RdfType, Class(ArtifactType), Local)
  }

  predicate Marker(q: Quad) {
    q.p.ConceptBranch? && IsIri(q.s) && Open(q.g)
  }

  function Unmarked(d: Quads): Quads {
    set q | q in d && !Marker(q)
  }

  /** A version series that also claims to be a concept, in one editable graph. */
  predicate Claimed(d: Quads, s: Term, g: Graph) {
    IsIri(s) && Open(g) && Quad(s, RdfType, SkosConcept, g) in d && Quad(s, RdfType, ArtifactSeries, g) in d
  }

  /** Such a node is left with the series type alone in that graph. */
  function Unclaimed(d: Quads): Quads {
    set q | q in d && !(q.p.RdfType? && !q.o.ArtifactSeries? && Claimed(d, q.s, q.g))
  }

  function Adopted(d: Quads): Quads {
    WithoutLegacy(Moved(d))
  }

  function Migrated(d: Quads): Quads {
    Unclaimed(Unmarked(Classed(Adopted(d))))
  }

  /** The store when a boot has made the first `writes` of its five writes. */
  function Stage(d: Quads, writes: nat): Quads {
    if writes == 0 then d
    else if writes == 1 then Moved(d)
    else if writes == 2 then Adopted(d)
    else if writes == 3 then Classed(Adopted(d))
    else if writes == 4 then Unmarked(Classed(Adopted(d)))
    else Migrated(d)
  }

  // ------------------------------------------------------------------------ restart and loss

  ghost predicate NoLegacy(d: Quads) {
    forall q | q in d :: !q.g.LegacyVocab?
  }

  ghost predicate NoMarkers(d: Quads) {
    forall q | q in d :: !Marker(q)
  }

  ghost predicate NoClaims(d: Quads) {
    forall q | q in d :: !Claimed(d, q.s, q.g)
  }

  ghost predicate AllClassed(d: Quads) {
    forall q | q in d :: !Unclassed(d, q)
  }

  lemma MovedOnce(d: Quads)
    ensures Moved(Moved(d)) == Moved(d)
  {
    var m := Moved(d);
    forall q | q in m && q.g.LegacyVocab? && Rescued(m, q.s)
      ensures Quad(q.s, q.p, q.o, Local) in m
    {
      assert q in d;
    }
  }

  lemma NothingToAdopt(d: Quads)
    requires NoLegacy(d)
    ensures Adopted(d) == d
  {
  }

  lemma ClassedIsClassed(d: Quads)
    ensures AllClassed(Classed(d))
  {
    var k := Classed(d);
    forall q | q in k ensures !Unclassed(k, q) {
      if q in d {
        var w := Quad(q.s, RdfType, Class(ArtifactType), Local);
        assert Unclassed(d, q) ==> w in k;
        assert HasClass(d, q.s) ==> HasClass(k, q.s);
      }
    }
  }

  lemma AllClassedIff(d: Quads)
    ensures Classed(d) == d <==> AllClassed(d)
  {
    forall q | q in d && Unclassed(d, q) ensures Quad(q.s, RdfType, Class(ArtifactType), Local) in Classed(d) - d {
    }
  }

  lemma UnmarkedKeepsClasses(d: Quads)
    ensures NoMarkers(Unmarked(d))
    ensures AllClassed(d) ==> AllClassed(Unmarked(d))
  {
    forall q | q in d && HasClass(d, q.s) ensures HasClass(Unmarked(d), q.s) {
      var w :| w in d && w.s == q.s && w.p.RdfType? && w.o.Class?;
      assert w in Unmarked(d);
    }
  }

  /** A boot stopped anywhere before its last write loses nothing: the next full boot ends where an
      undisturbed one would have. */
  lemma RestartIsSafe(d: Quads, writes: nat)
    requires writes <= 4
    ensures Migrated(Stage(d, writes)) == Migrated(d)
  {
    MovedOnce(d);
    if writes >= 2 {
      NothingToAdopt(Stage(d, writes));
    }
    if writes >= 3 {
      ClassedIsClassed(Stage(d, 2));
      UnmarkedKeepsClasses(Stage(d, 3));
      AllClassedIff(Stage(d, writes));
    }
    if writes == 4 {
      assert Unmarked(Stage(d, 4)) == Stage(d, 4);
    }
  }

  /** A boot states the classes, drops the markers and clears the types in this order, a write each, after the two
      that adopt; one that makes all its writes migrates the store. */
  lemma WritesInTurn(d: Quads, writes: nat)
    ensures Stage(d, 0) == d
    ensures Stage(d, 3) == Classed(Stage(d, 2)) && Stage(d, 4) == Unmarked(Stage(d, 3)) && Stage(d, 5) == Unclaimed(Stage(d, 4))
    ensures writes >= 5 ==> Stage(d, writes) == Stage(d, 5)
  {
  }

  function StoppedBoots(d: Quads, stops: seq<nat>): Quads {
    if stops == [] then d else Stage(StoppedBoots(d, stops[..|stops| - 1]), stops[|stops| - 1])
  }

  /** Stopped boots follow each other: what one leaves is what the next one finds. */
  lemma {:induction false} StoppedInTurn(d: Quads, first: nat, rest: seq<nat>)
    ensures StoppedBoots(d, []) == d
    ensures StoppedBoots(d, [first] + rest) == StoppedBoots(Stage(d, first), rest)
    decreases |rest|
  {
    var all := [first] + rest;
    if rest != [] {
      StoppedInTurn(d, first, rest[..|rest| - 1]);
      assert all[..|all| - 1] == [first] + rest[..|rest| - 1];
    } else {
      assert all[..|all| - 1] == [];
    }
  }

  lemma {:induction false} AnyStopsThenOneBoot(d: Quads, stops: seq<nat>)
    requires forall n | 0 <= n < |stops| :: stops[n] <= 4
    ensures Migrated(StoppedBoots(d, stops)) == Migrated(d)
    decreases |stops|
  {
    if stops != [] {
      AnyStopsThenOneBoot(d, stops[..|stops| - 1]);
      RestartIsSafe(StoppedBoots(d, stops[..|stops| - 1]), stops[|stops| - 1]);
    }
  }

  /** Every statement of the retired graph that nothing else can supply is in the local graph, and the
      retired graph is empty, after a boot, and after one stopped between that write and the drop and
      then run again. Nothing else enters or leaves. */
  lemma AdoptionLosesNothing(d: Quads, q: Quad)
    ensures Adopted(Moved(d)) == Adopted(d)
    ensures q in Stage(d, 2) <==>
              (!q.g.LegacyVocab? && q in d)
              || (q.g.Local? && Rescued(d, q.s) && Quad(q.s, q.p, q.o, LegacyVocab) in d)
  {
    MovedOnce(d);
    if q in Stage(d, 2) && q !in d {
      var w :| w in d && w.g.LegacyVocab? && Rescued(d, w.s) && q == Quad(w.s, w.p, w.o, Local);
      assert w == Quad(q.s, q.p, q.o, LegacyVocab);
    }
  }

  /** What becomes of a statement of the retired graph, whatever peers and other graphs hold: it is in the local
      graph after the boot, also after a stop before the drop, exactly if its subject is an IRI that no bundle, no
      shape and no local statement is about. Nothing else enters the local graph. */
  lemma AdoptedExactly(d: Quads, writes: nat, q: Quad)
    requires 1 <= writes <= 2 && q.g.Local?
    ensures q in Stage(d, writes) <==>
              q in d
              || (Quad(q.s, q.p, q.o, LegacyVocab) in d && !q.s.Blank? && !q.s.Literal?
                  && forall w | w in d && w.s == q.s :: !w.g.Bundle? && !w.g.Shapes? && !w.g.Local?)
  {
    AdoptionLosesNothing(d, q);
    if q in Moved(d) && q !in d {
      var w :| w in d && w.g.LegacyVocab? && Rescued(d, w.s) && q == Quad(w.s, w.p, w.o, Local);
    }
    if Quad(q.s, q.p, q.o, LegacyVocab) in d && Rescued(d, q.s) {
      assert q in Moved(d);
    }
  }

  /** No other graph than the local and the retired one changes before the classes are stated. */
  lemma AdoptionTouchesNoOther(d: Quads, writes: nat, q: Quad)
    requires 1 <= writes <= 2 && !q.g.Local?
    ensures q in Stage(d, writes) <==> q in d && (writes == 2 ==> !q.g.LegacyVocab?)
  {
  }

  /** The class a boot states: a local concept, an IRI and no record's of another kind, gets the artifact type class
      in the local graph exactly if no graph gives it any class. Nothing else is stated. */
  lemma ClassedExactly(d: Quads, q: Quad)
    ensures q in Classed(d) <==>
              q in d
              || (q.p.RdfType? && q.o == Class(ArtifactType) && q.g.Local? && Quad(q.s, RdfType, SkosConcept, Local) in d
                  && !q.s.Blank? && !q.s.Literal? && !(q.s.Iri? && RecordShaped(q.s.name))
                  && forall w | w in d && w.s == q.s && w.p.RdfType? :: !w.o.Class?)
  {
    if q in Classed(d) && q !in d {
      var w :| w in d && Unclassed(d, w) && q == Quad(w.s, RdfType, Class(ArtifactType), Local);
      assert w == Quad(q.s, RdfType, SkosConcept, Local);
    }
    if Quad(q.s, RdfType, SkosConcept, Local) in d && Unclassed(d, Quad(q.s, RdfType, SkosConcept, Local)) {
      assert Quad(q.s, RdfType, Class(ArtifactType), Local) in Classed(d);
    }
  }

  /** The markers that go: every branch of an IRI, in every graph but a peer's, a bundle's and the shapes. */
  lemma UnmarkedExactly(d: Quads, q: Quad)
    ensures q in Unmarked(d) <==>
              q in d && !(q.p.ConceptBranch? && !q.s.Blank? && !q.s.Literal? && !q.g.Peer? && !q.g.Bundle? && !q.g.Shapes?)
  {
  }

  /** The types that go: every other type of an IRI that one such graph calls both a concept and a series, there. */
  lemma UnclaimedExactly(d: Quads, q: Quad)
    ensures q in Unclaimed(d) <==>
              q in d && !(q.p.RdfType? && q.o != ArtifactSeries && !q.s.Blank? && !q.s.Literal?
                          && !q.g.Peer? && !q.g.Bundle? && !q.g.Shapes?
                          && Quad(q.s, RdfType, SkosConcept, q.g) in d && Quad(q.s, RdfType, ArtifactSeries, q.g) in d)
  {
  }

  /** What no write may edit: peers, bundles and the shapes, at every stop. */
  lemma ProtectedNeverChange(d: Quads, writes: nat, q: Quad)
    requires !Open(q.g)
    ensures q in Stage(d, writes) <==> q in d
  {
    assert q in Stage(d, 2) <==> q in d;
    assert q in Stage(d, 3) <==> q in d;
    assert q in Stage(d, 4) <==> q in d;
  }

  /** Outside the retired graph the migrations remove branch markers and the other types of a node that
      called itself a series and a concept, and add classes: every other statement stays. */
  lemma OtherStatementsStay(d: Quads, q: Quad)
    requires q in d && !q.g.LegacyVocab?
    requires !Marker(q) && (q.p.RdfType? ==> q.o.ArtifactSeries? || !Claimed(Stage(d, 2), q.s, q.g))
    ensures q in Migrated(d)
  {
    var x := Stage(d, 2);
    assert q in x && q in Stage(d, 3) && q in Stage(d, 4);
    ClaimsSurviveClassing(x, q.s, q.g);
  }

  lemma ClaimsSurviveClassing(x: Quads, s: Term, g: Graph)
    ensures Claimed(Unmarked(Classed(x)), s, g) <==> Claimed(x, s, g)
  {
  }

  // ------------------------------------------------------------------------------ idempotence

  /** The class of this local concept is only ever stated beside the claim that it is a series, in graphs
      other than the local one. */
  ghost predicate LosesItsClass(x: Quads, c: Term) {
    Quad(c, RdfType, SkosConcept, Local) in x && IsIri(c) && !IsARecordThatIsNotAType(c) && !Claimed(x, c, Local)
    && HasClass(x, c)
    && forall q | q in x && q.s == c && q.p.RdfType? && q.o.Class? :: Claimed(x, c, q.g)
  }

  lemma NoClaimsAfter(d: Quads)
    ensures NoClaims(Unclaimed(d))
  {
  }

  /** What one boot leaves a second one has nothing to do with, except for concepts without a class. */
  lemma SettledParts(d: Quads)
    ensures var z := Migrated(d); NoLegacy(z) && NoMarkers(z) && NoClaims(z)
  {
    var x := Stage(d, 2);
    assert NoLegacy(x);
    assert NoLegacy(Stage(d, 3));
    assert NoLegacy(Stage(d, 4));
    UnmarkedKeepsClasses(Stage(d, 3));
    NoClaimsAfter(Stage(d, 4));
  }

  lemma SecondBootOnlyClasses(z: Quads)
    requires NoLegacy(z) && NoMarkers(z) && NoClaims(z)
    ensures Migrated(z) == Classed(z) && NoClaims(Classed(z))
  {
    NothingToAdopt(z);
    var k := Classed(z);
    assert Unmarked(k) == k;
    forall q | q in k ensures !Claimed(k, q.s, q.g) {
      ClaimsSurviveClassing(z, q.s, q.g);
      assert Claimed(k, q.s, q.g) ==> Quad(q.s, RdfType, SkosConcept, q.g) in z;
    }
    assert Unclaimed(k) == k;
  }

  /** A local concept is without a class after the boot exactly if its class was lost to the last step. */
  lemma ClassAfterIff(x: Quads, c: Term)
    requires Quad(c, RdfType, SkosConcept, Local) in Unclaimed(Unmarked(Classed(x)))
    ensures Unclassed(Unclaimed(Unmarked(Classed(x))), Quad(c, RdfType, SkosConcept, Local)) <==> LosesItsClass(x, c)
  {
    var y := Unmarked(Classed(x));
    var z := Unclaimed(y);
    var q := Quad(c, RdfType, SkosConcept, Local);
    assert q in y && q in x;
    ClaimsSurviveClassing(x, c, Local);
    if Unclassed(x, q) {
      var w := Quad(c, RdfType, Class(ArtifactType), Local);
      assert w in Classed(x) && w in y && w in z;
    } else if IsIri(c) && !IsARecordThatIsNotAType(c) {
      assert HasClass(x, c);
      ClassedKept(x, c);
    }
  }

  lemma ClassedKept(x: Quads, c: Term)
    requires HasClass(x, c)
    ensures HasClass(Unclaimed(Unmarked(Classed(x))), c)
       <==> exists q :: q in x && q.s == c && q.p.RdfType? && q.o.Class? && !Claimed(x, c, q.g)
  {
    var y := Unmarked(Classed(x));
    var z := Unclaimed(y);
    forall q | q in x && q.s == c && q.p.RdfType? && q.o.Class? && !Claimed(x, c, q.g) ensures q in z {
      ClaimsSurviveClassing(x, c, q.g);
      assert q in y;
    }
    forall q | q in z && q.s == c && q.p.RdfType? && q.o.Class? ensures q in x && !Claimed(x, c, q.g) {
      ClaimsSurviveClassing(x, c, q.g);
      assert q in Classed(x);
    }
  }

  /** Exactly when running the chain twice is running it once: unless some concept loses its class to the
      last step, which the next boot then gives it back in the local graph. */
  lemma TwiceIsOnceIff(d: Quads)
    ensures Migrated(Migrated(d)) == Migrated(d) <==> !exists c :: LosesItsClass(Adopted(d), c)
  {
    var x, z := Adopted(d), Migrated(d);
    SettledParts(d);
    SecondBootOnlyClasses(z);
    AllClassedIff(z);
    if c :| LosesItsClass(x, c) {
      LostIsUnclassed(x, c);
    }
    if q :| q in z && Unclassed(z, q) {
      ClassAfterIff(x, q.s);
    }
  }

  lemma LostIsUnclassed(x: Quads, c: Term)
    requires LosesItsClass(x, c)
    ensures !AllClassed(Unclaimed(Unmarked(Classed(x))))
  {
    var q := Quad(c, RdfType, SkosConcept, Local);
    ClaimsSurviveClassing(x, c, Local);
    assert q in Unclaimed(Unmarked(Classed(x)));
    ClassAfterIff(x, c);
  }

  /** Two boots are always enough. */
  lemma SecondBootSettles(d: Quads)
    ensures Migrated(Migrated(Migrated(d))) == Migrated(Migrated(d))
  {
    var z := Migrated(d);
    SettledParts(d);
    SecondBootOnlyClasses(z);
    var k := Classed(z);
    ClassedIsClassed(z);
    assert NoLegacy(k) && NoMarkers(k);
    SecondBootOnlyClasses(k);
    AllClassedIff(k);
  }

  lemma {:induction false} NoSlashNoRecord(s: string)
    requires '/' !in s
    ensures RsplitOnce(s) == None && !RecordShaped(s)
    decreases |s|
  {
    if s != "" {
      NoSlashNoRecord(s[..|s| - 1]);
    }
  }

  /** A store on which the chain is not idempotent: one concept, local, that another graph calls a series,
      a concept and a topic. No writer of the registry makes such a graph; a restored dump can bring it in. */
  lemma TwiceIsNotAlwaysOnce(name: string, g: Graph)
    requires '/' !in name && g.Named?
    ensures var c := Iri(name);
            var d := {Quad(c, RdfType, SkosConcept, Local), Quad(c, RdfType, SkosConcept, g),
                      Quad(c, RdfType, ArtifactSeries, g), Quad(c, RdfType, Class(ResearchTopic), g)};
            Migrated(Migrated(d)) != Migrated(d)
  {
    var c := Iri(name);
    var d := {Quad(c, RdfType, SkosConcept, Local), Quad(c, RdfType, SkosConcept, g),
              Quad(c, RdfType, ArtifactSeries, g), Quad(c, RdfType, Class(ResearchTopic), g)};
    NothingToAdopt(d);
    NoSlashNoRecord(name);
    assert Quad(c, RdfType, Class(ResearchTopic), g) in d;
    assert Adopted(d) == d;
    assert LosesItsClass(Adopted(d), c);
    TwiceIsOnceIff(d);
  }

  // ------------------------------------------------------------------------------- the steps

  /** One transaction: properties of subjects cleared in a graph, then statements inserted. */
  datatype GraphTx = GraphTx(clear: set<(Term, Property, Graph)>, insert: Quads)

  class Store {
    var quads: Quads

    method Apply(tx: GraphTx)
      modifies this
      ensures quads == (set q | q in old(quads) && (q.s, q.p, q.g) !in tx.clear) + tx.insert
    {
      quads := (set q | q in quads && (q.s, q.p, q.g) !in tx.clear) + tx.insert;
    }

    /** `stop` ends the boot between the write and the drop. */
    method AdoptLegacyVocabGraph(stop: bool) returns (n: nat)
      modifies this
      ensures quads == if stop then Moved(old(quads)) else Adopted(old(quads))
      ensures n == 0 <==> forall q | q in old(quads) && q.g.LegacyVocab? :: !Rescued(old(quads), q.s)
    {
      if forall q | q in quads :: !q.g.LegacyVocab? {
        NothingToAdopt(quads);
        return 0;
      }
      var insert := Relocated(set q | q in quads && q.g.LegacyVocab? && Rescued(quads, q.s));
      n := |insert|;
      if n > 0 {
        Apply(GraphTx({}, insert));
      }
      assert quads == Moved(old(quads));
      if !stop {
        quads := WithoutLegacy(quads);
      }
    }

    static method Relocated(rows: Quads) returns (insert: Quads)
      ensures insert == set q | q in rows :: Quad(q.s, q.p, q.o, Local)
      ensures insert == {} <==> rows == {}
    {
      var left := rows;
      insert := {};
      while left != {}
        invariant left <= rows
        invariant insert == set q | q in rows - left :: Quad(q.s, q.p, q.o, Local)
        invariant insert == {} <==> left == rows
      {
        var q :| q in left;
        left := left - {q};
        insert := insert + {Quad(q.s, q.p, q.o, Local)};
        assert rows - left == (rows - (left + {q})) + {q};
      }
      assert rows - left == rows;
    }

    method ClassExistingTypes() returns (n: nat)
      modifies this
      ensures quads == Classed(old(quads))
      ensures n == 0 ==> quads == old(quads)
    {
      var rows := set q | q in quads && q.p.RdfType? && q.o.SkosConcept? && q.g.Local? && IsIri(q.s) && !HasClass(quads, q.s) :: q.s;
      var left, tx := rows, GraphTx({}, {});
      n := 0;
      while left != {}
        invariant left <= rows && tx.clear == {}
        invariant tx.insert == set c | c in rows - left && !IsARecordThatIsNotAType(c) :: Quad(c, RdfType, Class(ArtifactType), Local)
        invariant n == 0 ==> tx.insert == {}
      {
        var c :| c in left;
        left := left - {c};
        assert rows - left == (rows - (left + {c})) + {c};
        if !IsARecordThatIsNotAType(c) {
          tx := tx.(insert := tx.insert + {Quad(c, RdfType, Class(ArtifactType), Local)});
          n := n + 1;
        }
      }
      assert rows - left == rows;
      forall c | c in rows && !IsARecordThatIsNotAType(c) ensures Unclassed(quads, Quad(c, RdfType, SkosConcept, Local)) {
      }
      assert quads + tx.insert == Classed(quads) by {
        forall q | q in quads && Unclassed(quads, q) ensures q == Quad(q.s, RdfType, SkosConcept, Local) && q.s in rows {
        }
      }
      if n > 0 {
        Apply(tx);
      }
    }

    method DropBranchMarkers() returns (n: nat)
      modifies this
      ensures quads == Unmarked(old(quads))
      ensures n == 0 ==> quads == old(quads)
    {
      var rows := set q | q in quads && q.p.ConceptBranch? && Open(q.g) && IsIri(q.s) :: (q.s, q.g);
      var left, tx := rows, GraphTx({}, {});
      n := 0;
      while left != {}
        invariant left <= rows && tx.insert == {}
        invariant tx.clear == set r | r in rows - left :: (r.0, ConceptBranch, r.1)
        invariant n == 0 ==> left == rows
      {
        var r :| r in left;
        left := left - {r};
        assert rows - left == (rows - (left + {r})) + {r};
        tx := tx.(clear := tx.clear + {(r.0, ConceptBranch, r.1)});
        n := n + 1;
      }
      assert rows - left == rows;
      ghost var before := quads;
      forall q | q in before ensures (q.s, q.p, q.g) in tx.clear <==> Marker(q) {
        assert Marker(q) ==> (q.s, q.g) in rows;
      }
      if n > 0 {
        Apply(tx);
      }
    }

    method UnclaimSeriesConcepts() returns (n: nat)
      modifies this
      ensures quads == Unclaimed(old(quads))
      ensures n == 0 ==> quads == old(quads)
    {
      var rows := set q | q in quads && Claimed(quads, q.s, q.g) :: (q.s, q.g);
      var left, tx := rows, GraphTx({}, {});
      n := 0;
      while left != {}
        invariant left <= rows
        invariant tx.clear == set r | r in rows - left :: (r.0, RdfType, r.1)
        invariant tx.insert == set r | r in rows - left :: Quad(r.0, RdfType, ArtifactSeries, r.1)
        invariant n == 0 ==> left == rows
      {
        var r :| r in left;
        left := left - {r};
        assert rows - left == (rows - (left + {r})) + {r};
        tx := GraphTx(tx.clear + {(r.0, RdfType, r.1)}, tx.insert + {Quad(r.0, RdfType, ArtifactSeries, r.1)});
        n := n + 1;
      }
      assert rows - left == rows;
      ghost var before := quads;
      ReplacedIsUnclaimed(before, rows, tx);
      if n > 0 {
        Apply(tx);
      }
    }

    method LoadVocab() returns (migrated: nat)
      modifies this
      ensures quads == Migrated(old(quads))
    {
      var adopted := AdoptLegacyVocabGraph(false);
      var classed := ClassExistingTypes();
      var unmarked := DropBranchMarkers();
      var unclaimed := UnclaimSeriesConcepts();
      migrated := adopted + classed + unmarked + unclaimed;
    }
  }

  /** Clearing the types and stating the series again removes the other types only. */
  lemma ReplacedIsUnclaimed(d: Quads, rows: set<(Term, Graph)>, tx: GraphTx)
    requires rows == set q | q in d && Claimed(d, q.s, q.g) :: (q.s, q.g)
    requires tx.clear == set r | r in rows :: (r.0, RdfType, r.1)
    requires tx.insert == set r | r in rows :: Quad(r.0, RdfType, ArtifactSeries, r.1)
    ensures (set q | q in d && (q.s, q.p, q.g) !in tx.clear) + tx.insert == Unclaimed(d)
    ensures rows == {} ==> Unclaimed(d) == d
  {
    forall q | q in d ensures (q.s, q.p, q.g) in tx.clear <==> q.p.RdfType? && Claimed(d, q.s, q.g) {
      assert Claimed(d, q.s, q.g) ==> (q.s, q.g) in rows;
    }
    forall q ensures q in tx.insert <==> q.p.RdfType? && q.o.ArtifactSeries? && Claimed(d, q.s, q.g) {
      if q.p.RdfType? && q.o.ArtifactSeries? && Claimed(d, q.s, q.g) {
        assert q in d && (q.s, q.g) in rows;
      }
    }
  }
}
