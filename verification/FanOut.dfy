/** What one registry does with one leg of a federated search (src/api/search.rs): claim the query
    id, clamp the budgets, choose whom to ask, and merge what comes back. */
module FanOut {
  import opened Options
  import opened Copies
  import opened Text
  import opened Bases

  type Iri = string

  /** Below this many milliseconds a peer is asked for a local answer only. */
  const MIN_USEFUL_HOP_BUDGET: nat := 250
  const MAX_GRANTED_BUDGET: nat := 600_000
  const MAX_IRI_LENGTH: nat := 200

  /** A registry's own settings, its active peers and its own answer to the query. */
  datatype Registry = Registry(peers: seq<Iri>, maxHops: nat, maxPeers: nat, ownTimeout: nat, hopMargin: nat,
                               maxPeerHits: nat, maxTotalHits: nat, local: seq<Hit>)

  /** The propagation envelope. A `relayed` request carries a query id. */
  datatype Request = Request(federated: bool, relayed: bool, hops: Option<nat>, origin: Option<Iri>,
                             path: seq<Iri>, budget: Option<nat>)
  {
    /** Anything else is a local search, which claims nothing and asks nobody. */
    predicate Participates() {
      federated || relayed
    }
  }

  /** What became of one leg: no answer in time or an error, a refusal, or an answer. */
  datatype Outcome = Lost | Refused | Answered(hits: seq<Hit>, partial: bool)

  // ------------------------------------------------------------------ the envelope, clamped

  ghost predicate Distinct(s: seq<Iri>) {
    forall i, j | 0 <= i < j < |s| :: s[i] != s[j]
  }

  predicate Fit(p: Iri) {
    p != "" && |p| <= MAX_IRI_LENGTH
  }

  /** What may stand on a path: every entry that is not empty or too long, at its first place. */
  function Wanted(raw: seq<Iri>): seq<Iri> {
    if raw == [] then []
    else
      var rest, p := Wanted(raw[..|raw| - 1]), raw[|raw| - 1];
      if !Fit(p) || p in rest then rest else rest + [p]
  }

  function ParsePath(raw: seq<Iri>, cap: nat): (r: seq<Iri>)
    ensures forall p | p in r :: p in raw
  {
    if raw == [] then []
    else
      assert raw == raw[..|raw| - 1] + [raw[|raw| - 1]];
      var out, p := ParsePath(raw[..|raw| - 1], cap), raw[|raw| - 1];
      if !Fit(p) || p in out || |out| >= Max(cap, 1) then out else out + [p]
  }

  lemma {:induction false} WantedFacts(raw: seq<Iri>)
    ensures Distinct(Wanted(raw))
    ensures forall p :: p in Wanted(raw) <==> p in raw && Fit(p)
  {
    if raw != [] {
      WantedFacts(raw[..|raw| - 1]);
      assert raw == raw[..|raw| - 1] + [raw[|raw| - 1]];
    }
  }

  /** A path as it is read: the first of what may stand on it, in order and without repeats, up to the cap. */
  lemma {:induction false} PathIsFirstWanted(raw: seq<Iri>, cap: nat)
    ensures ParsePath(raw, cap) == Wanted(raw)[..Min(|Wanted(raw)|, Max(cap, 1))]
    ensures Distinct(ParsePath(raw, cap)) && |ParsePath(raw, cap)| <= Max(cap, 1)
    ensures forall p | p in ParsePath(raw, cap) :: p in raw && Fit(p)
  {
    WantedFacts(raw);
    if raw != [] {
      var n := |raw| - 1;
      PathIsFirstWanted(raw[..n], cap);
      WantedFacts(raw[..n]);
    }
  }

  /** With room for all of it, a path read is every entry of one to two hundred characters. */
  lemma PathReadWhole(raw: seq<Iri>, p: Iri)
    ensures p in ParsePath(raw, |raw|) <==> p in raw && 1 <= |p| <= 200
  {
    PathIsFirstWanted(raw, |raw|);
    WantedFacts(raw);
    WantedNoLonger(raw);
  }

  lemma {:induction false} WantedNoLonger(raw: seq<Iri>)
    ensures |Wanted(raw)| <= |raw|
  {
    if raw != [] {
      WantedNoLonger(raw[..|raw| - 1]);
    }
  }

  /** The entries of a path header. */
  function Entries(pieces: seq<string>): seq<Iri> {
    seq(|pieces|, i requires 0 <= i < |pieces| => TrimSlashes(Trim(pieces[i])))
  }

  function ReadPath(raw: string, cap: nat): seq<Iri> {
    ParsePath(Entries(Pieces(raw)), cap)
  }

  method ReadPathHeader(raw: string, cap: nat) returns (out: seq<Iri>)
    ensures out == ReadPath(raw, cap)
  {
    var pieces := Pieces(raw);
    var entries := Entries(pieces);
    out := [];
    for i := 0 to |pieces|
      invariant out == ParsePath(entries[..i], cap)
      invariant |out| < Max(cap, 1)
    {
      OneMoreEntry(entries, i, cap);
      var p := TrimSlashes(Trim(pieces[i]));
      if Fit(p) && p !in out {
        out := out + [p];
        if |out| >= cap {
          PathStaysFull(entries, i + 1, cap);
          return;
        }
      }
    }
    assert entries[..|pieces|] == entries;
  }

  lemma OneMoreEntry(entries: seq<Iri>, i: nat, cap: nat)
    requires i < |entries|
    ensures var out, p := ParsePath(entries[..i], cap), entries[i];
            ParsePath(entries[..i + 1], cap) == if !Fit(p) || p in out || |out| >= Max(cap, 1) then out else out + [p]
  {
    assert entries[..i + 1][..i] == entries[..i];
  }

  /** A full path takes no more entries, so reading may stop there. */
  lemma {:induction false} PathStaysFull(entries: seq<Iri>, i: nat, cap: nat)
    requires i <= |entries| && |ParsePath(entries[..i], cap)| >= Max(cap, 1)
    ensures ParsePath(entries, cap) == ParsePath(entries[..i], cap)
    decreases |entries|
  {
    if i == |entries| {
      assert entries[..i] == entries;
    } else {
      var n := |entries| - 1;
      assert entries[..n][..i] == entries[..i];
      PathStaysFull(entries[..n], i, cap);
    }
  }

  /** A base that can stand on a path header and be read back. */
  predicate Plain(p: Iri) {
    Fit(p) && ',' !in p && TrimSlashes(Trim(p)) == p
  }

  /** The path one registry sends is the path the next one reads, unless the cap cuts it. */
  lemma PathReadBack(path: seq<Iri>, cap: nat)
    requires path != [] && Distinct(path) && |path| <= Max(cap, 1) && forall i | 0 <= i < |path| :: Plain(path[i])
    ensures ReadPath(Joined(path), cap) == path
  {
    JoinedReadBack(path);
    assert Entries(path) == path;
    FitIsWanted(path);
    PathIsFirstWanted(path, cap);
  }

  lemma {:induction false} FitIsWanted(path: seq<Iri>)
    requires Distinct(path) && forall i | 0 <= i < |path| :: Fit(path[i])
    ensures Wanted(path) == path
  {
    if path != [] {
      var n := |path| - 1;
      FitIsWanted(path[..n]);
      assert path[n] !in path[..n];
      assert path == path[..n] + [path[n]];
    }
  }

  function KnownOrigin(q: Request): Option<Iri> {
    if q.origin.Some? && q.origin.value != "" && |q.origin.value| <= MAX_IRI_LENGTH then q.origin else None
  }

  function Granted(reg: Registry, q: Request): nat {
    Min(q.hops.GetOr(reg.maxHops), reg.maxHops)
  }

  function TimeBudget(reg: Registry, q: Request): nat {
    match q.budget
    case Some(ms) => Min(reg.ownTimeout, Min(ms, MAX_GRANTED_BUDGET))
    case None => reg.ownTimeout
  }

  function ForwardBudget(reg: Registry, q: Request): nat {
    var t := TimeBudget(reg, q);
    if t >= reg.hopMargin then t - reg.hopMargin else 0
  }

  function Forwarded(reg: Registry, q: Request): nat {
    if Granted(reg, q) > 0 && ForwardBudget(reg, q) >= MIN_USEFUL_HOP_BUDGET then Granted(reg, q) - 1 else 0
  }

  function OutPath(me: Iri, reg: Registry, q: Request): (r: seq<Iri>)
    ensures me in r && forall p | p in r :: p == me || p in q.path
  {
    var incoming := ParsePath(q.path, reg.maxHops + 2);
    if me in incoming then incoming else incoming + [me]
  }

  /** The path that goes out: every hop that was read, in its order, and this registry, once each. */
  lemma OutPathFacts(me: Iri, reg: Registry, q: Request)
    ensures var incoming, r := ParsePath(q.path, reg.maxHops + 2), OutPath(me, reg, q);
            && incoming <= r && Distinct(r) && |r| <= |incoming| + 1
            && forall p :: p in r <==> p in incoming || p == me
  {
    PathIsFirstWanted(q.path, reg.maxHops + 2);
  }

  // ------------------------------------------------------------------------ whom to ask

  predicate MayAsk(me: Iri, origin: Option<Iri>, path: seq<Iri>, p: Iri) {
    p != me && p !in path && Some(p) != origin
  }

  function Askable(me: Iri, origin: Option<Iri>, path: seq<Iri>, peers: seq<Iri>): seq<Iri> {
    if peers == [] then []
    else
      var n := |peers| - 1;
      var rest := Askable(me, origin, path, peers[..n]);
      if MayAsk(me, origin, path, peers[n]) then rest + [peers[n]] else rest
  }

  lemma {:induction false} AskableMembers(me: Iri, origin: Option<Iri>, path: seq<Iri>, peers: seq<Iri>)
    ensures forall p :: p in Askable(me, origin, path, peers) <==> p in peers && MayAsk(me, origin, path, p)
    ensures |Askable(me, origin, path, peers)| <= |peers|
  {
    if peers != [] {
      var n := |peers| - 1;
      AskableMembers(me, origin, path, peers[..n]);
      assert peers == peers[..n] + [peers[n]];
    }
  }

  /** A base is unique in the peer table. */
  lemma {:induction false} AskableDistinct(me: Iri, origin: Option<Iri>, path: seq<Iri>, peers: seq<Iri>)
    requires Distinct(peers)
    ensures Distinct(Askable(me, origin, path, peers))
  {
    if peers != [] {
      var n := |peers| - 1;
      AskableDistinct(me, origin, path, peers[..n]);
      AskableMembers(me, origin, path, peers[..n]);
    }
  }

  function Candidates(me: Iri, reg: Registry, q: Request): seq<Iri> {
    Askable(me, KnownOrigin(q), OutPath(me, reg, q), reg.peers)
  }

  /** The peers a leg is actually sent to. */
  function Asked(me: Iri, reg: Registry, q: Request): seq<Iri> {
    var c := Candidates(me, reg, q);
    if !q.federated || Granted(reg, q) == 0 then []
    else if |c| > reg.maxPeers then c[..reg.maxPeers]
    else c
  }

  function Capped(me: Iri, reg: Registry, q: Request): bool {
    q.federated && |Candidates(me, reg, q)| > reg.maxPeers
  }

  /** Whom a leg goes to, in the request's own terms: peers in the table that are not this registry, not on the path
      that goes out, and not the origin the request names; nobody without a hop, never more than the cap; and as
      long as the cap is not met, every such peer. */
  lemma AskedExactly(me: Iri, reg: Registry, q: Request)
    ensures forall p | p in Asked(me, reg, q) ::
              p in reg.peers && p != me && p !in OutPath(me, reg, q) && !(q.origin == Some(p) && 0 < |p| <= 200)
    ensures !q.federated || reg.maxHops == 0 || q.hops == Some(0) ==> Asked(me, reg, q) == []
    ensures |Asked(me, reg, q)| <= reg.maxPeers
    ensures q.federated && reg.maxHops > 0 && q.hops != Some(0) && |Asked(me, reg, q)| < reg.maxPeers ==>
              forall p | p in reg.peers && p != me && p !in OutPath(me, reg, q) && !(q.origin == Some(p) && 0 < |p| <= 200) ::
                p in Asked(me, reg, q)
  {
    AskableMembers(me, KnownOrigin(q), OutPath(me, reg, q), reg.peers);
  }

  function OnPath(me: Iri, origin: Option<Iri>, path: seq<Iri>, peers: seq<Iri>): seq<Iri> {
    if peers == [] then []
    else
      var n := |peers| - 1;
      var rest := OnPath(me, origin, path, peers[..n]);
      if MayAsk(me, origin, path, peers[n]) then rest else rest + [peers[n]]
  }

  lemma {:induction false} OnPathMembers(me: Iri, origin: Option<Iri>, path: seq<Iri>, peers: seq<Iri>)
    ensures forall p :: p in OnPath(me, origin, path, peers) <==> p in peers && !MayAsk(me, origin, path, p)
    ensures |OnPath(me, origin, path, peers)| <= |peers|
  {
    if peers != [] {
      var n := |peers| - 1;
      OnPathMembers(me, origin, path, peers[..n]);
      assert peers == peers[..n] + [peers[n]];
    }
  }

  function Take(s: seq<Iri>, n: nat): seq<Iri> {
    s[..Min(|s|, n)]
  }

  /** The peers reported as `skipped`: on the path already, past the cap, or past the hop budget. */
  function Skipped(me: Iri, reg: Registry, q: Request): seq<Iri> {
    var c := Candidates(me, reg, q);
    if !q.federated then []
    else
      var onPath := Take(OnPath(me, KnownOrigin(q), OutPath(me, reg, q), reg.peers), reg.maxPeers);
      var over := if |c| > reg.maxPeers then Take(c[reg.maxPeers..], reg.maxPeers) else [];
      onPath + over + if Granted(reg, q) == 0 then Take(c, reg.maxPeers) else []
  }

  lemma NotBoth(me: Iri, reg: Registry, q: Request, p: Iri)
    requires Distinct(reg.peers) && p in Skipped(me, reg, q)
    ensures p in reg.peers && p !in Asked(me, reg, q)
  {
    var origin, path := KnownOrigin(q), OutPath(me, reg, q);
    var c := Candidates(me, reg, q);
    AskableMembers(me, origin, path, reg.peers);
    AskableDistinct(me, origin, path, reg.peers);
    OnPathMembers(me, origin, path, reg.peers);
    if |c| > reg.maxPeers && p in Take(c[reg.maxPeers..], reg.maxPeers) {
      var k :| 0 <= k < |c| - reg.maxPeers && c[reg.maxPeers..][k] == p;
      assert c[reg.maxPeers + k] == p;
    }
  }

  lemma OneOrTheOther(me: Iri, reg: Registry, q: Request, p: Iri)
    requires q.federated && |reg.peers| <= reg.maxPeers && p in reg.peers
    ensures p in Asked(me, reg, q) || p in Skipped(me, reg, q)
  {
    var origin, path := KnownOrigin(q), OutPath(me, reg, q);
    var c, blocked := Candidates(me, reg, q), OnPath(me, origin, path, reg.peers);
    AskableMembers(me, origin, path, reg.peers);
    OnPathMembers(me, origin, path, reg.peers);
    assert Take(c, reg.maxPeers) == c && Take(blocked, reg.maxPeers) == blocked;
    assert p in c || p in blocked;
  }

  /** Nobody is both asked and reported as skipped, and as long as the peers fit the reporting cap a
      federated search hides no edge: every peer is one or the other. */
  lemma AskedOrReported(me: Iri, reg: Registry, q: Request)
    requires Distinct(reg.peers)
    ensures forall p | p in Skipped(me, reg, q) :: p in reg.peers && p !in Asked(me, reg, q)
    ensures q.federated && |reg.peers| <= reg.maxPeers ==>
              forall p | p in reg.peers :: p in Asked(me, reg, q) || p in Skipped(me, reg, q)
  {
    forall p | p in Skipped(me, reg, q) ensures p in reg.peers && p !in Asked(me, reg, q) {
      NotBoth(me, reg, q, p);
    }
    forall p | q.federated && |reg.peers| <= reg.maxPeers && p in reg.peers
      ensures p in Asked(me, reg, q) || p in Skipped(me, reg, q)
    {
      OneOrTheOther(me, reg, q, p);
    }
  }

  function ChildRequest(me: Iri, reg: Registry, q: Request): Request {
    Request(true, true, Some(Forwarded(reg, q)), Some(KnownOrigin(q).GetOr(me)), OutPath(me, reg, q),
            Some(Max(ForwardBudget(reg, q), 1)))
  }

  /** What a leg carries, `granted` being the smaller of the hops asked for and this registry's, `wait` the smallest of
      the time asked for, ten minutes and this registry's own: one hop less, if there is one and after the margin
      250 ms are left; the time less the margin, or a millisecond; the origin named, if it can be one, or else this
      registry. */
  lemma LegCarries(me: Iri, reg: Registry, q: Request, granted: nat, wait: nat)
    requires granted <= reg.maxHops && (q.hops.Some? ==> granted <= q.hops.value)
    requires granted == reg.maxHops || q.hops == Some(granted)
    requires wait <= reg.ownTimeout && (q.budget.Some? ==> wait <= q.budget.value && wait <= 600_000)
    requires wait == reg.ownTimeout || q.budget == Some(wait) || (q.budget.Some? && wait == 600_000)
    ensures var leg := ChildRequest(me, reg, q);
            && leg.federated && leg.relayed && leg.path == OutPath(me, reg, q)
            && leg.hops == Some(if granted > 0 && wait >= reg.hopMargin + 250 then granted - 1 else 0)
            && leg.budget == Some(if wait > reg.hopMargin then wait - reg.hopMargin else 1)
            && leg.origin == (if q.origin.Some? && 0 < |q.origin.value| <= 200 then q.origin else Some(me))
  {
  }

  lemma AskedFacts(me: Iri, reg: Registry, q: Request)
    ensures forall p | p in Asked(me, reg, q) :: p in reg.peers && MayAsk(me, KnownOrigin(q), OutPath(me, reg, q), p)
    ensures |Asked(me, reg, q)| <= Min(reg.maxPeers, |reg.peers|)
    ensures q.federated && Granted(reg, q) > 0 && |reg.peers| <= reg.maxPeers ==>
              forall p | p in reg.peers :: p in Asked(me, reg, q) || !MayAsk(me, KnownOrigin(q), OutPath(me, reg, q), p)
  {
    AskableMembers(me, KnownOrigin(q), OutPath(me, reg, q), reg.peers);
  }

  // -------------------------------------------------------------------- merging replies

  function Relays(hits: seq<Hit>, peer: Iri, cap: nat): seq<Hit> {
    seq(Min(|hits|, cap), k requires 0 <= k < Min(|hits|, cap) => Relayed(hits[k], peer))
  }

  /** The hits and the `partial` flag after the first `n` legs have been merged in. */
  function Gather(reg: Registry, capped: bool, asked: seq<Iri>, outcomes: seq<Outcome>, n: nat): (seq<Hit>, bool)
    requires |asked| == |outcomes| && n <= |asked|
  {
    if n == 0 then (reg.local, capped)
    else
      var (hits, partial) := Gather(reg, capped, asked, outcomes, n - 1);
      match outcomes[n - 1]
      case Lost => (hits, true)
      case Refused => (hits, partial)
      case Answered(h, p) => (hits + Relays(h, asked[n - 1], reg.maxPeerHits), partial || p)
  }

  /** Stable insertion by descending score. */
  function Ranked(hits: seq<Hit>): (r: seq<Hit>)
    ensures multiset(r) == multiset(hits) && |r| == |hits|
  {
    if hits == [] then []
    else
      var n := |hits| - 1;
      assert hits == hits[..n] + [hits[n]];
      Place(Ranked(hits[..n]), hits[n])
  }

  function Place(sorted: seq<Hit>, h: Hit): (r: seq<Hit>)
    ensures multiset(r) == multiset(sorted) + multiset{h} && |r| == |sorted| + 1
  {
    if sorted == [] || sorted[|sorted| - 1].score >= h.score then sorted + [h]
    else
      var n := |sorted| - 1;
      assert sorted == sorted[..n] + [sorted[n]];
      Place(sorted[..n], h) + [sorted[n]]
  }

  predicate ByScore(hits: seq<Hit>) {
    forall i, j | 0 <= i < j < |hits| :: hits[i].score >= hits[j].score
  }

  lemma {:induction false} PlaceByScore(sorted: seq<Hit>, h: Hit)
    requires ByScore(sorted)
    ensures ByScore(Place(sorted, h))
  {
    if sorted == [] || sorted[|sorted| - 1].score >= h.score {
    } else {
      var n := |sorted| - 1;
      PlaceByScore(sorted[..n], h);
      PlacedMembers(sorted[..n], h);
      AppendByScore(Place(sorted[..n], h), sorted[n]);
    }
  }

  lemma AppendByScore(hits: seq<Hit>, last: Hit)
    requires ByScore(hits) && forall i | 0 <= i < |hits| :: hits[i].score >= last.score
    ensures ByScore(hits + [last])
  {
  }

  lemma PlacedMembers(sorted: seq<Hit>, h: Hit)
    ensures forall i | 0 <= i < |Place(sorted, h)| :: Place(sorted, h)[i] == h || Place(sorted, h)[i] in sorted
  {
    var r := Place(sorted, h);
    forall i | 0 <= i < |r| ensures r[i] == h || r[i] in sorted {
      assert r[i] in multiset(r);
      assert r[i] != h ==> r[i] in multiset(sorted);
    }
  }

  lemma {:induction false} RankedByScore(hits: seq<Hit>)
    ensures ByScore(Ranked(hits))
  {
    if hits != [] {
      var n := |hits| - 1;
      RankedByScore(hits[..n]);
      PlaceByScore(Ranked(hits[..n]), hits[n]);
    }
  }

  /** Copies are merged only where the search started. */
  function RowsOf(me: Iri, relayed: bool, hits: seq<Hit>): seq<Hit> {
    if relayed then hits else Merged(hits, me)
  }

  /** Every registry sorts and caps its answer. */
  function Settle(me: Iri, reg: Registry, relayed: bool, hits: seq<Hit>, partial: bool): (r: Outcome)
    ensures r.Answered?
  {
    var kept := Ranked(RowsOf(me, relayed, hits));
    if |kept| > reg.maxTotalHits then Answered(kept[..reg.maxTotalHits], true)
    else Answered(kept, partial)
  }

  // ------------------------------------------------------------------------- the claim table

  /** The table once one more request with this id has been seen: how often a repeat of it was refused. */
  function Noted(seen: map<string, nat>, id: string): map<string, nat> {
    seen[id := if id in seen then seen[id] + 1 else 0]
  }

  function NotedAll(seen: map<string, nat>, ids: seq<string>): map<string, nat> {
    if ids == [] then seen else Noted(NotedAll(seen, ids[..|ids| - 1]), ids[|ids| - 1])
  }

  /** Of any requests in any order exactly the first with an id nobody saw before is fresh, and every later
      one is counted. */
  lemma {:induction false} OneFreshClaim(seen: map<string, nat>, ids: seq<string>, id: string)
    ensures id in NotedAll(seen, ids) <==> id in seen || id in ids
    ensures id !in seen && id in ids ==> NotedAll(seen, ids)[id] + 1 == multiset(ids)[id]
    ensures id in seen ==> NotedAll(seen, ids)[id] == seen[id] + multiset(ids)[id]
  {
    if ids != [] {
      var n := |ids| - 1;
      OneFreshClaim(seen, ids[..n], id);
      assert ids == ids[..n] + [ids[n]];
    }
  }

  // ------------------------------------------------------------------------- the handler

  /** The claim table and the handler's two loops. */
  class Handler {
    const me: Iri
    const settings: Registry
    /** Query id to how often a repeat of it was refused. */
    var seen: map<string, nat>

    constructor (me: Iri, settings: Registry)
      ensures this.me == me && this.settings == settings && seen == map[]
    {
      this.me, this.settings := me, settings;
      seen := map[];
    }

    /** Insert, or count a repeat. */
    method Claim(id: string) returns (first: bool)
      modifies this`seen
      ensures first <==> id !in old(seen)
      ensures seen == Noted(old(seen), id)
    {
      if id !in seen {
        seen := seen[id := 0];
        return true;
      }
      seen := seen[id := seen[id] + 1];
      first := false;
    }

    /** Split the peers into those worth asking and those that would close a loop. */
    method Partition(origin: Option<Iri>, path: seq<Iri>) returns (askable: seq<Iri>, onPath: seq<Iri>)
      ensures askable == Askable(me, origin, path, settings.peers)
      ensures onPath == OnPath(me, origin, path, settings.peers)
    {
      askable, onPath := [], [];
      for n := 0 to |settings.peers|
        invariant askable == Askable(me, origin, path, settings.peers[..n])
        invariant onPath == OnPath(me, origin, path, settings.peers[..n])
      {
        var p := settings.peers[n];
        assert settings.peers[..n + 1][..n] == settings.peers[..n];
        if MayAsk(me, origin, path, p) {
          askable := askable + [p];
        } else {
          onPath := onPath + [p];
        }
      }
      assert settings.peers[..|settings.peers|] == settings.peers;
    }

    /** Partition the peers, apply the fan-out cap and the hop budget, and report the rest. */
    method PlanFanOut(q: Request) returns (asked: seq<Iri>, skipped: seq<Iri>, partial: bool)
      ensures asked == Asked(me, settings, q)
      ensures skipped == Skipped(me, settings, q)
      ensures partial == Capped(me, settings, q)
    {
      asked, skipped, partial := [], [], false;
      if q.federated {
        var onPath;
        asked, onPath := Partition(KnownOrigin(q), OutPath(me, settings, q));
        skipped := Take(onPath, settings.maxPeers);
        if |asked| > settings.maxPeers {
          skipped := skipped + Take(asked[settings.maxPeers..], settings.maxPeers);
          asked := asked[..settings.maxPeers];
          partial := true;
        }
        if Granted(settings, q) == 0 {
          skipped := skipped + asked;
          asked := [];
        }
      }
    }

    /** Merge the legs' outcomes in the order the peers were asked, then settle the answer. */
    method MergeReplies(q: Request, asked: seq<Iri>, outcomes: seq<Outcome>) returns (answer: Outcome)
      requires asked == Asked(me, settings, q) && |outcomes| == |asked|
      ensures var (hits, partial) := Gather(settings, Capped(me, settings, q), asked, outcomes, |asked|);
              answer == Settle(me, settings, q.relayed, hits, partial)
    {
      var hits, partial := settings.local, Capped(me, settings, q);
      for n := 0 to |asked|
        invariant (hits, partial) == Gather(settings, Capped(me, settings, q), asked, outcomes, n)
      {
        match outcomes[n] {
          case Lost =>
            partial := true;
          case Refused =>
          case Answered(h, p) =>
            partial := partial || p;
            hits := hits + Relays(h, asked[n], settings.maxPeerHits);
        }
      }
      if !q.relayed {
        hits := MergeCopies(hits, me);
      }
      hits := Ranked(hits);
      if |hits| > settings.maxTotalHits {
        hits := hits[..settings.maxTotalHits];
        partial := true;
      }
      answer := Answered(hits, partial);
    }
  }
}
