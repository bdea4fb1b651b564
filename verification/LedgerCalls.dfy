/** The two handlers that write the ledger, as they run: ops rows at once, the graph transaction at the
    end of the call. */
module LedgerCalls {
  import opened Options
  import opened Ledger

  /** What a call has staged for the graph. Deletions come before insertions. */
  datatype GraphTx = GraphTx(
    used: set<(Iri, Iri)>,
    generated: set<(Iri, Iri)>,
    clearStatus: set<Iri>,
    clearEnded: set<Iri>,
    status: set<(Iri, string)>,
    action: set<(Iri, string)>,
    ended: set<(Iri, string)>)

  const EmptyTx := GraphTx({}, {}, {}, {}, {}, {}, {})

  function Uncleared(facts: set<(Iri, string)>, cleared: set<Iri>): set<(Iri, string)> {
    set f | f in facts && f.0 !in cleared
  }

  /** One transaction: a property cleared for a subject, then the new statements. The action status
      moves with the status. */
  function Applied(b: Books, tx: GraphTx): Books {
    b.(used := b.used + tx.used,
       generated := b.generated + tx.generated,
       status := Uncleared(b.status, tx.clearStatus) + tx.status,
       action := Uncleared(b.action, tx.clearStatus) + tx.action,
       ended := Uncleared(b.ended, tx.clearEnded) + tx.ended)
  }

  class Registry {
    var books: Books

    constructor ()
      ensures books == NoBooks
    {
      books := NoBooks;
    }

    method EnsureRunStaged(instance: Iri, run: RunIn) returns (r: Iri, minted: bool, tx: GraphTx)
      modifies this
      ensures var (b1, r1, m1) := EnsureRun(old(books), instance, run);
              r == r1 && minted == m1 && Applied(books, tx) == b1
      ensures books.used == old(books).used && books.generated == old(books).generated
    {
      tx := EmptyTx;
      var key := NonEmpty(run.key);
      if key.Some? && (key.value, instance) in books.runKeys {
        r, minted := books.runKeys[(key.value, instance)], false;
        if run.ended.Some? {
          tx := tx.(clearEnded := {r}, ended := Fact(r, run.ended));
        }
        if run.status.Some? {
          tx := tx.(clearStatus := {r}, status := Fact(r, run.status), action := Fact(r, ActionStatus(run.status.value)));
        }
        StagedOutcome(books, r, run, tx);
      } else {
        r, minted := RunIri(books.next), true;
        var status := run.status.GetOr("success");
        tx := tx.(status := Fact(r, Some(status)), action := Fact(r, ActionStatus(status)), ended := Fact(r, run.ended));
        UnclearedNothing(books.status);
        UnclearedNothing(books.action);
        UnclearedNothing(books.ended);
        books := books.(next := books.next + 1);
        if key.Some? {
          books := books.(runKeys := books.runKeys[(key.value, instance) := r]);
        }
      }
    }

    /** `POST /advertise/produced` and `/consumed`. */
    method Advertise(derive: Derive, held: set<Iri>, instance: Iri, role: Role, run: RunIn, arts: seq<ArtifactIn>)
      returns (answer: Answer)
      modifies this
      ensures (books, answer) == Ledger.Advertise(derive, held, old(books), instance, role, run, arts)
    {
      var r, created, tx := EnsureRunStaged(instance, run);
      ghost var start := Applied(books, tx);
      var minted := created;
      var iris: seq<Iri>, queued: seq<Iri> := [], [];
      var any := false;
      for n := 0 to |arts|
        invariant (Applied(books, tx), iris, any, queued) == AdvertiseAll(derive, held, start, role, r, run, arts[..n])
      {
        assert arts[..n + 1][..n] == arts[..n];
        var i, new_, q;
        i, new_, q, tx := AdvertiseStaged(derive, held, role, r, run, arts[n], tx);
        any := any || new_;
        queued := queued + q;
        iris := iris + [i];
      }
      assert arts[..|arts|] == arts;
      books := Applied(books, tx);
      answer := Answer(r, iris, minted || any, queued);
    }

    /** One entry of the loop: resolve or mint, remember the key, claim, and stage the edge. */
    method AdvertiseStaged(derive: Derive, held: set<Iri>, role: Role, r: Iri, run: RunIn, a: ArtifactIn, tx0: GraphTx)
      returns (i: Iri, created: bool, queued: seq<Iri>, tx: GraphTx)
      modifies this
      ensures (Applied(books, tx), i, created, queued) == AdvertiseOne(derive, held, Applied(old(books), tx0), role, r, run, a)
    {
      tx, created, queued := tx0, false, [];
      var given, key := GivenIri(a), KeyOf(derive, run, a);
      if given.Some? {
        i := given.value;
        queued := UnknownOnes([i], held);
        books := Queue(books, queued);
      } else if key.Some? && key.value in books.artifactKeys {
        i := books.artifactKeys[key.value];
      } else {
        i, created := ArtifactIri(books.next), true;
        books := books.(next := books.next + 1);
        if role.Produced? {
          tx := tx.(generated := tx.generated + {(i, r)});
        }
        queued := UnknownOnes(a.parents, held);
        books := Queue(books, queued);
        if key.Some? {
          books := books.(artifactKeys := books.artifactKeys[key.value := i]);
        }
      }
      assert Applied(books, tx) == Resolve(derive, held, Applied(old(books), tx0), role, r, run, a).0;
      var first;
      first, tx := ClaimStaged(r, i, role, tx);
      created := created || first;
    }

    method ClaimStaged(r: Iri, i: Iri, role: Role, tx0: GraphTx) returns (first: bool, tx: GraphTx)
      modifies this
      ensures (Applied(books, tx), first) == Claim(Applied(old(books), tx0), r, i, role)
    {
      tx, first := tx0, (r, i, role) !in books.claims;
      if first {
        books := books.(claims := books.claims + {(r, i, role)});
        match role {
          case Consumed =>
            assert books.used + (tx.used + {(r, i)}) == (books.used + tx.used) + {(r, i)};
            tx := tx.(used := tx.used + {(r, i)});
          case Produced =>
            assert books.generated + (tx.generated + {(i, r)}) == (books.generated + tx.generated) + {(i, r)};
            tx := tx.(generated := tx.generated + {(i, r)});
        }
      }
    }

    /** `POST /api/v1/openlineage`: outputs, then inputs, then the commit. */
    method Ingest(held: set<Iri>, instance: Iri, e: LineageEvent) returns (r: Iri, produced: seq<Iri>, consumed: seq<Iri>)
      modifies this
      ensures (books, r, produced, consumed) == Ledger.Ingest(held, old(books), instance, e)
    {
      var tx, minted;
      r, minted, tx := EnsureRunStaged(instance, EventRun(e));
      produced, tx := IngestStaged(held, Produced, r, e.outputs, tx);
      consumed, tx := IngestStaged(held, Consumed, r, e.inputs, tx);
      books := Applied(books, tx);
    }

    method IngestStaged(held: set<Iri>, role: Role, r: Iri, ds: seq<Dataset>, tx0: GraphTx)
      returns (iris: seq<Iri>, tx: GraphTx)
      modifies this
      ensures (Applied(books, tx), iris) == IngestAll(held, Applied(old(books), tx0), role, r, ds)
    {
      iris, tx := [], tx0;
      for n := 0 to |ds|
        invariant (Applied(books, tx), iris) == IngestAll(held, Applied(old(books), tx0), role, r, ds[..n])
      {
        assert ds[..n + 1][..n] == ds[..n];
        var i := MapDatasetStaged(held, ds[n], tx);
        var first;
        first, tx := ClaimStaged(r, i, role, tx);
        iris := iris + [i];
      }
      assert ds[..|ds|] == ds;
    }

    method MapDatasetStaged(held: set<Iri>, d: Dataset, ghost tx: GraphTx) returns (i: Iri)
      modifies this
      ensures (Applied(books, tx), i) == MapDataset(held, Applied(old(books), tx), d)
    {
      var known, key := FirstKnown(d.links, held), d.namespace + "#" + d.name;
      if known.Some? {
        i := known.value;
      } else if key in books.artifactKeys {
        i := books.artifactKeys[key];
      } else {
        i := ArtifactIri(books.next);
        books := books.(next := books.next + 1, artifactKeys := books.artifactKeys[key := i]);
      }
    }
  }

  lemma UnclearedNothing(facts: set<(Iri, string)>)
    ensures Uncleared(facts, {}) == facts
  {
  }

  lemma StagedOutcome(b: Books, r: Iri, run: RunIn, tx: GraphTx)
    requires tx == EmptyTx.(
               clearEnded := if run.ended.Some? then {r} else {},
               ended := if run.ended.Some? then Fact(r, run.ended) else {},
               clearStatus := if run.status.Some? then {r} else {},
               status := if run.status.Some? then Fact(r, run.status) else {},
               action := if run.status.Some? then Fact(r, ActionStatus(run.status.value)) else {})
    ensures Applied(b, tx) == UpdateOutcome(b, r, run)
  {
    UnclearedNothing(b.status);
    UnclearedNothing(b.action);
    UnclearedNothing(b.ended);
    assert Uncleared(b.status, {r}) == Without(b.status, r);
    assert Uncleared(b.action, {r}) == Without(b.action, r);
    assert Uncleared(b.ended, {r}) == Without(b.ended, r);
  }
}
