/** The record store's copy of the bundled reference data, guarded by a recorded digest (src/bundles.rs). */
module Bundles {
  type Graph = string
  type Statement = (string, string, string)
  type Parser = (string, string) -> set<Statement>

  datatype Bundle = Bundle(name: string, graph: Graph, text: string)

  /** What is hashed. Digests are taken not to collide, so a digest is what went into it. */
  datatype Digest = Digest(layout: string, name: string, graph: Graph, base: string, text: string)

  /** One build of the registry serving one base: its bundles, and how a text reads under a base. */
  datatype Binary = Binary(layout: string, base: string, bundles: seq<Bundle>)

  /** The graphs of the record store, and the digest recorded for each bundle graph. */
  datatype Store = Store(graphs: map<Graph, set<Statement>>, recorded: map<Graph, Digest>)

  /** Where a boot ends: `Within` stops while bundle `at` is replaced, after the drop and after those
      of `loaded` that the load had sent; `Before` stops before bundle `at`. */
  datatype Stop = Never | Before(at: nat) | Within(at: nat, loaded: set<Statement>)

  function DigestOf(bin: Binary, b: Bundle): Digest {
    Digest(bin.layout, b.name, b.graph, bin.base, b.text)
  }

  /** What a bundle's digest depends on. */
  lemma SameDigestIff(bin: Binary, b: Bundle, other: Binary, o: Bundle)
    ensures DigestOf(bin, b) == DigestOf(other, o) <==>
              bin.layout == other.layout && bin.base == other.base && b.name == o.name && b.graph == o.graph && b.text == o.text
  {
  }

  function Held(s: Store, g: Graph): set<Statement> {
    if g in s.graphs then s.graphs[g] else {}
  }

  predicate UpToDate(s: Store, bin: Binary, b: Bundle) {
    b.graph in s.recorded && s.recorded[b.graph] == DigestOf(bin, b)
  }

  predicate OwnGraphs(bin: Binary) {
    forall i, j | 0 <= i < j < |bin.bundles| :: bin.bundles[i].graph != bin.bundles[j].graph
  }

  function Loaded(parse: Parser, s: Store, bin: Binary, b: Bundle): Store {
    Store(s.graphs[b.graph := parse(b.text, bin.base)], s.recorded[b.graph := DigestOf(bin, b)])
  }

  function Interrupted(parse: Parser, s: Store, bin: Binary, b: Bundle, loaded: set<Statement>): Store {
    s.(graphs := s.graphs[b.graph := parse(b.text, bin.base) * loaded])
  }

  /** The store when the boot has dealt with the first `n` bundles, or has stopped before that. */
  function After(parse: Parser, s: Store, bin: Binary, stop: Stop, n: nat): Store
    requires n <= |bin.bundles|
  {
    if n == 0 then s
    else
      var before, b := After(parse, s, bin, stop, n - 1), bin.bundles[n - 1];
      if UpToDate(s, bin, b) || (stop != Never && stop.at < n - 1) || stop == Before(n - 1) then before
      else if stop.Within? && stop.at == n - 1 then Interrupted(parse, before, bin, b, stop.loaded)
      else Loaded(parse, before, bin, b)
  }

  function Synced(parse: Parser, s: Store, bin: Binary, stop: Stop): Store {
    After(parse, s, bin, stop, |bin.bundles|)
  }

  /** The guard: a digest that reads as current is only ever recorded beside exactly that content. */
  ghost predicate HonestFor(parse: Parser, s: Store, bin: Binary, b: Bundle) {
    UpToDate(s, bin, b) ==> Held(s, b.graph) == parse(b.text, bin.base)
  }

  ghost predicate Honest(parse: Parser, s: Store, bin: Binary) {
    forall b | b in bin.bundles :: HonestFor(parse, s, bin, b)
  }

  ghost predicate Complete(parse: Parser, s: Store, bin: Binary) {
    forall b | b in bin.bundles :: UpToDate(s, bin, b) && Held(s, b.graph) == parse(b.text, bin.base)
  }

  ghost predicate SameAt(t: Store, s: Store, g: Graph) {
    Held(t, g) == Held(s, g) && (g in t.recorded <==> g in s.recorded) && (g in s.recorded ==> t.recorded[g] == s.recorded[g])
  }

  ghost predicate Ends(parse: Parser, s: Store, bin: Binary, stop: Stop, k: nat, t: Store)
    requires k < |bin.bundles|
  {
    var b := bin.bundles[k];
    if UpToDate(s, bin, b) || (stop != Never && stop.at < k) || stop == Before(k) then SameAt(t, s, b.graph)
    else if stop.Within? && stop.at == k then
      && Held(t, b.graph) == parse(b.text, bin.base) * stop.loaded
      && (b.graph in t.recorded <==> b.graph in s.recorded)
      && (b.graph in s.recorded ==> t.recorded[b.graph] == s.recorded[b.graph])
    else Held(t, b.graph) == parse(b.text, bin.base) && UpToDate(t, bin, b)
  }

  lemma {:induction false} UntouchedAfter(parse: Parser, s: Store, bin: Binary, stop: Stop, n: nat, g: Graph)
    requires n <= |bin.bundles| && forall k | 0 <= k < n :: bin.bundles[k].graph != g
    ensures SameAt(After(parse, s, bin, stop, n), s, g)
  {
    if n > 0 {
      UntouchedAfter(parse, s, bin, stop, n - 1, g);
    }
  }

  /** What a boot leaves of a bundle's own graph: as it was, exactly replaced, or cut off. */
  lemma {:induction false} EndsAfter(parse: Parser, s: Store, bin: Binary, stop: Stop, k: nat, n: nat)
    requires OwnGraphs(bin) && k < n <= |bin.bundles|
    ensures Ends(parse, s, bin, stop, k, After(parse, s, bin, stop, n))
    decreases n
  {
    var g := bin.bundles[k].graph;
    if k == n - 1 {
      assert forall j | 0 <= j < k :: bin.bundles[j].graph != g;
      UntouchedAfter(parse, s, bin, stop, n - 1, g);
    } else {
      EndsAfter(parse, s, bin, stop, k, n - 1);
      assert bin.bundles[n - 1].graph != g;
      assert SameAt(After(parse, s, bin, stop, n), After(parse, s, bin, stop, n - 1), g);
    }
  }

  lemma GraphAfterBoot(parse: Parser, s: Store, bin: Binary, stop: Stop, k: nat)
    requires OwnGraphs(bin) && k < |bin.bundles|
    ensures Ends(parse, s, bin, stop, k, Synced(parse, s, bin, stop))
  {
    EndsAfter(parse, s, bin, stop, k, |bin.bundles|);
  }

  /** A boot changes no graph but the bundles' own. */
  lemma OtherGraphsUntouched(parse: Parser, s: Store, bin: Binary, stop: Stop, g: Graph)
    requires OwnGraphs(bin) && forall b | b in bin.bundles :: b.graph != g
    ensures SameAt(Synced(parse, s, bin, stop), s, g)
  {
    forall k | 0 <= k < |bin.bundles| ensures bin.bundles[k].graph != g {
      assert bin.bundles[k] in bin.bundles;
    }
    UntouchedAfter(parse, s, bin, stop, |bin.bundles|, g);
  }

  /** For one binary and base the guard survives a boot stopped anywhere, inside a load too. */
  lemma StopKeepsHonest(parse: Parser, s: Store, bin: Binary, stop: Stop)
    requires OwnGraphs(bin) && Honest(parse, s, bin)
    ensures Honest(parse, Synced(parse, s, bin, stop), bin)
  {
    forall b | b in bin.bundles ensures HonestFor(parse, Synced(parse, s, bin, stop), bin, b) {
      var k :| 0 <= k < |bin.bundles| && bin.bundles[k] == b;
      GraphAfterBoot(parse, s, bin, stop, k);
    }
  }

  function Boots(parse: Parser, s: Store, bin: Binary, stops: seq<Stop>): Store {
    if stops == [] then s
    else Synced(parse, Boots(parse, s, bin, stops[..|stops| - 1]), bin, stops[|stops| - 1])
  }

  /** Over any boots of one binary, each stopped anywhere: a current digest means current content, and
      once a boot has run to its end every bundle is there, recorded, and the next boot writes nothing. */
  lemma {:induction false} BootsKeepHonest(parse: Parser, s: Store, bin: Binary, stops: seq<Stop>)
    requires OwnGraphs(bin) && Honest(parse, s, bin)
    ensures var t := Boots(parse, s, bin, stops);
            && Honest(parse, t, bin)
            && (stops != [] && stops[|stops| - 1] == Never ==> Complete(parse, t, bin))
    decreases |stops|
  {
    if stops != [] {
      var before := Boots(parse, s, bin, stops[..|stops| - 1]);
      BootsKeepHonest(parse, s, bin, stops[..|stops| - 1]);
      StopKeepsHonest(parse, before, bin, stops[|stops| - 1]);
      if stops[|stops| - 1] == Never {
        forall b | b in bin.bundles
          ensures UpToDate(Synced(parse, before, bin, Never), bin, b)
          ensures Held(Synced(parse, before, bin, Never), b.graph) == parse(b.text, bin.base)
        {
          var k :| 0 <= k < |bin.bundles| && bin.bundles[k] == b;
          GraphAfterBoot(parse, before, bin, Never, k);
        }
      }
    }
  }

  /** A boot against an unchanged store writes nothing, and only such a boot does. */
  lemma {:induction false} IdleIff(parse: Parser, s: Store, bin: Binary, n: nat)
    requires n <= |bin.bundles|
    ensures Writes(s, bin, Never, n) == 0 <==> forall k | 0 <= k < n :: UpToDate(s, bin, bin.bundles[k])
    ensures Writes(s, bin, Never, n) == 0 ==> After(parse, s, bin, Never, n) == s
  {
    if n > 0 {
      IdleIff(parse, s, bin, n - 1);
    }
  }

  /** The requests that change the store: a drop, a load and a new provenance node for each bundle. */
  function Writes(s: Store, bin: Binary, stop: Stop, n: nat): nat
    requires n <= |bin.bundles|
  {
    if n == 0 then 0
    else
      var before := Writes(s, bin, stop, n - 1);
      if UpToDate(s, bin, bin.bundles[n - 1]) || (stop != Never && stop.at < n - 1) || stop == Before(n - 1) then before
      else if stop.Within? && stop.at == n - 1 then before + 1 + (if stop.loaded == {} then 0 else 1)
      else before + 3
  }

  /** The bundles whose recorded digest is not current. */
  function Stale(s: Store, bin: Binary, n: nat): set<nat>
    requires n <= |bin.bundles|
  {
    set k: nat | k < n && !UpToDate(s, bin, bin.bundles[k])
  }

  /** How many requests a boot makes: three for each bundle that is not current, up to where it stops; inside a load
      the drop, and one more if anything of the bundle was sent. */
  lemma {:induction false} WritesCounted(s: Store, bin: Binary, stop: Stop, n: nat)
    requires n <= |bin.bundles|
    ensures Writes(s, bin, stop, n) ==
            match stop
            case Never => 3 * |Stale(s, bin, n)|
            case Before(at) => 3 * |Stale(s, bin, Lower(at, n))|
            case Within(at, loaded) =>
              3 * |Stale(s, bin, Lower(at, n))|
              + if at < n && !UpToDate(s, bin, bin.bundles[at]) then (if loaded == {} then 1 else 2) else 0
  {
    if n > 0 {
      WritesCounted(s, bin, stop, n - 1);
      OneMoreStale(s, bin, n);
    }
  }

  function Lower(a: nat, b: nat): nat {
    if a < b then a else b
  }

  lemma OneMoreStale(s: Store, bin: Binary, n: nat)
    requires 0 < n <= |bin.bundles|
    ensures |Stale(s, bin, n)| == |Stale(s, bin, n - 1)| + if UpToDate(s, bin, bin.bundles[n - 1]) then 0 else 1
  {
    if UpToDate(s, bin, bin.bundles[n - 1]) {
      assert Stale(s, bin, n) == Stale(s, bin, n - 1);
    } else {
      assert Stale(s, bin, n) == Stale(s, bin, n - 1) + {n - 1};
    }
  }

  lemma NextBootIdle(parse: Parser, s: Store, bin: Binary, stops: seq<Stop>)
    requires OwnGraphs(bin) && Honest(parse, s, bin) && stops != [] && stops[|stops| - 1] == Never
    ensures var t := Boots(parse, s, bin, stops);
            Writes(t, bin, Never, |bin.bundles|) == 0 && Synced(parse, t, bin, Never) == t
  {
    BootsKeepHonest(parse, s, bin, stops);
    IdleIff(parse, Boots(parse, s, bin, stops), bin, |bin.bundles|);
  }

  // ------------------------------------------------------------------------ two binaries

  /** The bundle this boot stopped inside of, if its graph had been dropped by then. */
  predicate StoppedInside(s: Store, bin: Binary, stop: Stop) {
    stop.Within? && stop.at < |bin.bundles| && !UpToDate(s, bin, bin.bundles[stop.at])
  }

  /** Whether another binary's guard survives a boot of this one is decided by the bundle it was stopped
      inside of: it is lost exactly when the record still names the other binary's digest for that graph
      and what the load had sent is not that binary's content. */
  lemma UpgradeKeepsHonestIff(parse: Parser, s: Store, bin: Binary, stop: Stop, other: Binary)
    requires OwnGraphs(bin) && OwnGraphs(other) && Honest(parse, s, bin) && Honest(parse, s, other)
    ensures Honest(parse, Synced(parse, s, bin, stop), other)
       <==> !(StoppedInside(s, bin, stop)
              && exists o :: o in other.bundles && o.graph == bin.bundles[stop.at].graph && UpToDate(s, other, o)
                     && parse(o.text, other.base) != parse(bin.bundles[stop.at].text, bin.base) * stop.loaded)
  {
    var t := Synced(parse, s, bin, stop);
    forall o | o in other.bundles
      ensures HonestFor(parse, t, other, o)
         <==> !(StoppedInside(s, bin, stop) && o.graph == bin.bundles[stop.at].graph && UpToDate(s, other, o)
                && parse(o.text, other.base) != parse(bin.bundles[stop.at].text, bin.base) * stop.loaded)
    {
      if k :| 0 <= k < |bin.bundles| && bin.bundles[k].graph == o.graph {
        GraphAfterBoot(parse, s, bin, stop, k);
        assert StoppedInside(s, bin, stop) && o.graph == bin.bundles[stop.at].graph ==> k == stop.at;
      } else {
        UntouchedAfter(parse, s, bin, stop, |bin.bundles|, o.graph);
      }
    }
  }

  /** An upgrade stopped just after the drop, then a rollback: the old binary finds its own digest
      recorded, writes nothing, and serves an empty graph. */
  lemma RollbackServesAnEmptyGraph(parse: Parser, old_: Binary, new_: Binary)
    requires |old_.bundles| == 1 && |new_.bundles| == 1
    requires old_.bundles[0].graph == new_.bundles[0].graph && DigestOf(old_, old_.bundles[0]) != DigestOf(new_, new_.bundles[0])
    ensures var first := Synced(parse, Store(map[], map[]), old_, Never);
            var upgraded := Synced(parse, first, new_, Within(0, {}));
            && Synced(parse, upgraded, old_, Never) == upgraded
            && Held(upgraded, old_.bundles[0].graph) == {}
  {
    var empty := Store(map[], map[]);
    var first := Synced(parse, empty, old_, Never);
    assert After(parse, empty, old_, Never, 0) == empty;
    assert first == Loaded(parse, empty, old_, old_.bundles[0]);
    var upgraded := Synced(parse, first, new_, Within(0, {}));
    assert After(parse, first, new_, Within(0, {}), 0) == first;
    assert upgraded == Interrupted(parse, first, new_, new_.bundles[0], {});
    assert After(parse, upgraded, old_, Never, 0) == upgraded;
  }

  // ---------------------------------------------------------------------------- the boot step

  class RecordStore {
    var graphs: map<Graph, set<Statement>>
    var recorded: map<Graph, Digest>

    ghost function Value(): Store
      reads this
    {
      Store(graphs, recorded)
    }

    /** The digests are read once, before the first write. `count` is the number of statements written. */
    method Sync(parse: Parser, bin: Binary) returns (count: nat)
      requires OwnGraphs(bin)
      modifies this
      ensures Value() == Synced(parse, old(Value()), bin, Never)
      ensures Writes(old(Value()), bin, Never, |bin.bundles|) == 0 ==> count == 0
    {
      var stored := recorded;
      count := 0;
      for i := 0 to |bin.bundles|
        invariant Value() == After(parse, old(Value()), bin, Never, i)
        invariant Writes(old(Value()), bin, Never, i) == 0 ==> count == 0
      {
        var b := bin.bundles[i];
        var digest := DigestOf(bin, b);
        if !(b.graph in stored && stored[b.graph] == digest) {
          var n := LoadInto(parse, bin, b);
          recorded := recorded[b.graph := digest];
          count := count + n;
        }
      }
    }

    /** Replaces the bundle's graph: drop, then load. */
    method LoadInto(parse: Parser, bin: Binary, b: Bundle) returns (n: nat)
      modifies this
      ensures graphs == old(graphs)[b.graph := parse(b.text, bin.base)] && recorded == old(recorded)
      ensures n == |parse(b.text, bin.base)|
    {
      graphs := graphs - {b.graph};
      var quads := parse(b.text, bin.base);
      graphs := graphs[b.graph := quads];
      n := |quads|;
    }
  }
}
