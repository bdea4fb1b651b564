/** Deployments that register themselves (src/api/instances.rs), and the identity a credential has
    because of the records it made (src/auth/jwt.rs). */
module Registration {
  import opened Options
  import Bases

  type Iri = nat

  /** An instance record. `about` holds what an announcement may restate freely: label, endpoint,
      release, capability and so on. An empty text is never stored. */
  datatype Record = Record(
    owner: Option<string>,
    issuer: Option<string>,
    key: Option<string>,
    software: string,
    clientId: Option<string>,
    clientIssuer: Option<string>,
    about: map<string, string>,
    withdrawn: bool)

  /** A software's registration clients, and the issuer they belong to. */
  datatype Registrar = Registrar(software: string, clients: set<string>, issuer: Option<string>)

  datatype Config = Config(registrars: seq<Registrar>, defaultIssuer: Option<string>, autoRegister: bool)

  /** The registry's records and the next identifier to mint. */
  datatype Store = Store(records: map<Iri, Record>, next: Iri)

  /** A verified credential. `candidates` are the client ids of an OIDC token, most specific first. */
  datatype Credential =
    | Oidc(tokenIssuer: string, candidates: seq<string>, sub: string, person: bool)
    | InstanceToken(instance: Iri, name: string)
    | SoftwareToken(id: string, software: string)

  datatype Principal = Principal(instance: Option<Iri>, software: Option<string>, subject: string, issuer: Option<string>)

  function NonEmpty(s: string): Option<string> {
    if s == "" then None else Some(s)
  }

  /** The client ids of a token, most specific first: each of its client claims once, and then its subject;
      none at all for a token of the browser's own client. */
  function Distinct(claims: seq<Option<string>>): seq<string> {
    if claims == [] then []
    else
      var front, last := Distinct(claims[..|claims| - 1]), claims[|claims| - 1];
      if last.None? || last.value == "" || last.value in front then front else front + [last.value]
  }

  function CandidatesOf(claims: seq<Option<string>>, sub: string, uiClient: Option<string>): seq<string> {
    var ids := Distinct(claims);
    if ids != [] && uiClient == Some(ids[0]) then [] else if sub != "" then ids + [sub] else ids
  }

  lemma {:induction false} DistinctOnce(claims: seq<Option<string>>)
    ensures forall i, j | 0 <= i < j < |Distinct(claims)| :: Distinct(claims)[i] != Distinct(claims)[j]
    ensures forall x :: x in Distinct(claims) <==> x != "" && Some(x) in claims
  {
    if claims != [] {
      DistinctOnce(claims[..|claims| - 1]);
      assert claims == claims[..|claims| - 1] + [claims[|claims| - 1]];
    }
  }

  /** No client id is empty. */
  lemma CandidatesNotEmpty(claims: seq<Option<string>>, sub: string, uiClient: Option<string>)
    ensures "" !in CandidatesOf(claims, sub, uiClient)
  {
    DistinctOnce(claims);
  }

  method Candidates(claims: seq<Option<string>>, sub: string, uiClient: Option<string>) returns (ids: seq<string>)
    ensures ids == CandidatesOf(claims, sub, uiClient)
  {
    ids := [];
    for i := 0 to |claims|
      invariant ids == Distinct(claims[..i])
    {
      assert claims[..i + 1][..i] == claims[..i];
      if claims[i].Some? && claims[i].value != "" && claims[i].value !in ids {
        ids := ids + [claims[i].value];
      }
    }
    assert claims[..|claims|] == claims;
    if ids != [] && uiClient == Some(ids[0]) {
      ids := [];
    } else if sub != "" {
      ids := ids + [sub];
    }
  }

  // ----------------------------------------------------------------------- who is calling

  /** A pin is required: a record without one is read against the default issuer, if there is one. */
  predicate IssuerAdmits(cfg: Config, declared: Option<string>, issuer: string) {
    match declared
    case Some(d) => Bases.TrimSlashes(d) == issuer
    case None => cfg.defaultIssuer == Some(issuer)
  }

  predicate Declares(cfg: Config, r: Record, c: Credential) {
    c.Oidc? && r.clientId.Some? && r.clientId.value in c.candidates && IssuerAdmits(cfg, r.clientIssuer, c.tokenIssuer)
  }

  /** The deployments that name one of these client ids. */
  function Declaring(cfg: Config, s: Store, c: Credential): set<Iri> {
    set i | i in s.records && Declares(cfg, s.records[i], c)
  }

  predicate RegisteredBy(cfg: Config, r: Record, c: Credential) {
    c.Oidc? && !r.withdrawn && r.owner.Some? && r.owner.value in c.candidates && IssuerAdmits(cfg, r.issuer, c.tokenIssuer)
  }

  /** The live deployments this credential registered at the issuer it presents now. */
  function SelfRegistered(cfg: Config, s: Store, c: Credential): set<Iri> {
    set i | i in s.records && RegisteredBy(cfg, s.records[i], c)
  }

  function SoftwareForClient(cfg: Config, registrars: seq<Registrar>, c: Credential): Option<string>
    requires c.Oidc?
  {
    if registrars == [] then None
    else if (exists x :: x in c.candidates && x in registrars[0].clients) && IssuerAdmits(cfg, registrars[0].issuer, c.tokenIssuer)
    then Some(registrars[0].software)
    else SoftwareForClient(cfg, registrars[1..], c)
  }

  function Subject(c: Credential): string {
    match c
    case Oidc(_, candidates, sub, person) =>
      if person then if sub != "" then sub else if candidates != [] then candidates[0] else ""
      else if candidates != [] && candidates[0] != "" then candidates[0]
      else sub
    case InstanceToken(_, name) => name
    case SoftwareToken(id, _) => "urn:tar:token:" + id
  }

  /** The first candidate of a bound workload, whatever else the token says. */
  function BoundSubject(c: Credential): string
    requires c.Oidc?
  {
    if c.candidates != [] then c.candidates[0] else c.sub
  }

  function IssuerOf(c: Credential): Option<string> {
    if c.Oidc? then Some(c.tokenIssuer) else None
  }

  /** Who a credential is taken for, in the store as it stands: a deployment that names it, the one deployment
      it registered, or itself. Only several deployments naming one client leave a choice. */
  ghost predicate Resolves(cfg: Config, s: Store, c: Credential, p: Principal) {
    match c
    case InstanceToken(i, name) => p == Principal(Some(i), None, name, None)
    case SoftwareToken(_, sw) => p == Principal(None, Some(sw), Subject(c), None)
    case Oidc(issuer, _, _, person) =>
      if Declaring(cfg, s, c) != {} then
        p.instance.Some? && p.instance.value in Declaring(cfg, s, c) && p == Principal(p.instance, None, BoundSubject(c), Some(issuer))
      else if |SelfRegistered(cfg, s, c)| == 1 then
        p.instance.Some? && p.instance.value in SelfRegistered(cfg, s, c)
        && p == Principal(p.instance, Some(s.records[p.instance.value].software), BoundSubject(c), Some(issuer))
      else p == Principal(None, if person then None else SoftwareForClient(cfg, cfg.registrars, c), Subject(c), Some(issuer))
  }

  /** The token comes from the issuer the record pins, slashes aside, or, where it pins none, from the default one. */
  predicate FromIts(cfg: Config, pinned: Option<string>, issuer: string) {
    if pinned.Some? then Bases.TrimSlashes(pinned.value) == issuer else cfg.defaultIssuer.Some? && cfg.defaultIssuer.value == issuer
  }

  /** The deployments that name a client id of the token and are of its issuer. */
  function Naming(cfg: Config, s: Store, candidates: seq<string>, issuer: string): set<Iri> {
    set i | i in s.records && s.records[i].clientId.Some? && s.records[i].clientId.value in candidates
            && FromIts(cfg, s.records[i].clientIssuer, issuer)
  }

  /** The live records registered with such an id at the issuer. */
  function RegisteredAt(cfg: Config, s: Store, candidates: seq<string>, issuer: string): set<Iri> {
    set i | i in s.records && !s.records[i].withdrawn && s.records[i].owner.Some?
            && s.records[i].owner.value in candidates && FromIts(cfg, s.records[i].issuer, issuer)
  }

  /** Which deployment a token is taken for: one that names it, if there is any; otherwise the one record registered
      with it, if there is exactly one; otherwise none. */
  lemma BoundToExactly(cfg: Config, s: Store, c: Credential, p: Principal)
    requires c.Oidc? && Resolves(cfg, s, c, p)
    ensures var naming, own := Naming(cfg, s, c.candidates, c.tokenIssuer), RegisteredAt(cfg, s, c.candidates, c.tokenIssuer);
            if naming != {} then p.instance.Some? && p.instance.value in naming && p.software.None?
            else if |own| == 1 then p.instance.Some? && own == {p.instance.value} && p.software == Some(s.records[p.instance.value].software)
            else p.instance.None?
  {
    var naming, own := Naming(cfg, s, c.candidates, c.tokenIssuer), RegisteredAt(cfg, s, c.candidates, c.tokenIssuer);
    assert naming == Declaring(cfg, s, c);
    assert own == SelfRegistered(cfg, s, c);
    if naming == {} && |own| == 1 {
      OnlyOne(own, p.instance.value);
    }
  }

  lemma OnlyOne(s: set<Iri>, i: Iri)
    requires |s| == 1 && i in s
    ensures s == {i}
  {
    assert |s - {i}| == 0;
  }

  /** The software a token is authorised for: that of the first registrar that lists one of its client ids and is of
      its issuer. */
  lemma {:induction false} AuthorisedByFirst(cfg: Config, registrars: seq<Registrar>, c: Credential)
    requires c.Oidc?
    ensures var r := SoftwareForClient(cfg, registrars, c);
            && (r.Some? ==> exists k :: 0 <= k < |registrars| && r.value == registrars[k].software
                                        && Lists(cfg, registrars[k], c) && forall j | 0 <= j < k :: !Lists(cfg, registrars[j], c))
            && (r.None? ==> forall k | 0 <= k < |registrars| :: !Lists(cfg, registrars[k], c))
  {
    if registrars != [] && !Lists(cfg, registrars[0], c) {
      AuthorisedByFirst(cfg, registrars[1..], c);
      forall j | 1 <= j < |registrars| ensures registrars[j] == registrars[1..][j - 1] {
      }
      if SoftwareForClient(cfg, registrars, c).Some? {
        var k :| 0 <= k < |registrars| - 1 && SoftwareForClient(cfg, registrars, c).value == registrars[1..][k].software
                 && Lists(cfg, registrars[1..][k], c) && forall j | 0 <= j < k :: !Lists(cfg, registrars[1..][j], c);
        forall j | 0 <= j < k + 1 ensures !Lists(cfg, registrars[j], c) {
          assert j > 0 ==> registrars[j] == registrars[1..][j - 1];
        }
        assert registrars[k + 1] == registrars[1..][k];
      }
    }
  }

  predicate Lists(cfg: Config, r: Registrar, c: Credential)
    requires c.Oidc?
  {
    (exists x :: x in c.candidates && x in r.clients) && FromIts(cfg, r.issuer, c.tokenIssuer)
  }

  /** A token of an issuer that nobody pins and that is not the default is bound to nothing, whatever its client ids. */
  lemma StrangerIsBoundToNothing(cfg: Config, s: Store, c: Credential, p: Principal)
    requires c.Oidc? && Resolves(cfg, s, c, p) && cfg.defaultIssuer != Some(c.tokenIssuer)
    requires forall i | i in s.records ::
               && (s.records[i].clientIssuer.Some? ==> Bases.TrimSlashes(s.records[i].clientIssuer.value) != c.tokenIssuer)
               && (s.records[i].issuer.Some? ==> Bases.TrimSlashes(s.records[i].issuer.value) != c.tokenIssuer)
    requires forall k | 0 <= k < |cfg.registrars| ::
               cfg.registrars[k].issuer.Some? ==> Bases.TrimSlashes(cfg.registrars[k].issuer.value) != c.tokenIssuer
    ensures p.instance == None && p.software == None
  {
    BoundToExactly(cfg, s, c, p);
    AuthorisedByFirst(cfg, cfg.registrars, c);
    assert Declaring(cfg, s, c) == {} && SelfRegistered(cfg, s, c) == {};
  }

  /** Who a credential is, besides what it is bound to. A token bound to a deployment has its first client id for a
      subject; an unbound person the subject of the token, an unbound workload its first client id. */
  lemma TakenFor(cfg: Config, s: Store, c: Credential, p: Principal)
    requires Resolves(cfg, s, c, p)
    ensures match c
            case InstanceToken(i, name) => p == Principal(Some(i), None, name, None)
            case SoftwareToken(id, sw) => p == Principal(None, Some(sw), "urn:tar:token:" + id, None)
            case Oidc(issuer, ids, sub, person) =>
              && p.issuer == Some(issuer)
              && p.subject == (if p.instance.None? && person && sub != "" then sub
                               else if ids != [] && (p.instance.Some? || person || ids[0] != "") then ids[0]
                               else if p.instance.None? && person then ""
                               else sub)
              && (p.instance.None? ==> p.software == if person then None else SoftwareForClient(cfg, cfg.registrars, c))
  {
  }

  // --------------------------------------------------------------------------- the routes

  predicate Owned(r: Record, subject: string, key: string) {
    !r.withdrawn && r.owner == Some(subject) && r.key == Some(key)
  }

  function OwnedRecords(s: Store, subject: string, key: string): set<Iri> {
    set i | i in s.records && Owned(s.records[i], subject, key)
  }

  /** `valid` is the outcome of the shapes, of the rule on endpoints and of the subscribe-only guard. */
  datatype Announcement = Announcement(key: Option<string>, software: Option<string>, about: map<string, string>, valid: bool)

  function KeyOf(p: Principal, a: Announcement): string {
    a.key.GetOr(p.subject)
  }

  /** A row the query for the record registered before under this subject and key may return. */
  predicate FoundOwn(s: Store, p: Principal, a: Announcement, own: Option<Iri>) {
    match own
    case Some(i) => i in OwnedRecords(s, p.subject, KeyOf(p, a))
    case None => OwnedRecords(s, p.subject, KeyOf(p, a)) == {}
  }

  /** Which record an announcement is about, `own` being the one registered under its key before. The
      explicit key of a shared credential comes first: its binding is to whichever deployment it registered. */
  function Target(p: Principal, a: Announcement, own: Option<Iri>): Option<Iri> {
    if p.software.Some? then own.Or(if a.key == None then p.instance else None) else p.instance.Or(own)
  }

  /** Writing a record clears its subject first, and the withdrawal mark with it. */
  function Rewritten(r: Record, software: string, about: map<string, string>): Record {
    r.(software := software, about := about, withdrawn := false, issuer := if r.owner.None? then None else r.issuer)
  }

  function Fresh(p: Principal, a: Announcement, software: string): Record {
    Record(NonEmpty(p.subject), p.issuer, NonEmpty(KeyOf(p, a)), software,
           if p.software.None? then NonEmpty(p.subject) else None,
           if p.software.None? then p.issuer else None,
           a.about, false)
  }

  /** What a first announcement registers a deployment of. Only here is what it names held against what its
      credential is bound to. */
  function FirstSoftware(cfg: Config, p: Principal, a: Announcement): Option<string> {
    match p.software
    case Some(bound) => if a.software.Some? && a.software.value != bound then None else Some(bound)
    case None => if cfg.autoRegister then a.software else None
  }

  /** A person cannot announce, nor can what the shapes refuse. */
  predicate MayAnnounce(c: Credential, p: Principal, a: Announcement) {
    !(c.Oidc? && c.person && p.instance.None?) && a.valid
  }

  /** `PUT /instances/self`: the store after it and the record it wrote, or a refusal. What it names replaces
      the software of a record that is there. */
  function Announce(cfg: Config, s: Store, c: Credential, p: Principal, own: Option<Iri>, a: Announcement): Option<(Store, Iri)> {
    if !MayAnnounce(c, p, a) then None
    else match Target(p, a, own)
         case Some(i) =>
           if i !in s.records then None
           else
             var r := s.records[i];
             Some((s.(records := s.records[i := Rewritten(r, a.software.GetOr(r.software), r.about + a.about)]), i))
         case None =>
           match FirstSoftware(cfg, p, a)
           case None => None
           case Some(software) => Some((Store(s.records[s.next := Fresh(p, a, software)], s.next + 1), s.next))
  }

  /** Which software a created record is a deployment of: the one named or read off its release, unless
      the credential is bound to one. */
  function CreatedFor(p: Principal, named: Option<string>): Option<string> {
    match p.software
    case Some(bound) => if named.Some? && named.value != bound then None else Some(bound)
    case None => named
  }

  /** `POST /instances`: ownership marks from the wire are dropped. */
  function Create(s: Store, p: Principal, named: Option<string>, clientId: Option<string>, clientIssuer: Option<string>,
                  about: map<string, string>, allowed: bool): Option<(Store, Iri)>
  {
    var software := CreatedFor(p, named);
    if !allowed || software.None? then None
    else Some((Store(s.records[s.next := Record(None, None, None, software.value, clientId, clientIssuer, about, false)], s.next + 1), s.next))
  }

  /** `PATCH /instances/{id}`: `merged` is the stored record with the caller's JSON laid over it. A
      self-registered record is changed only by its own deployment, and keeps its ownership. */
  function Patch(s: Store, p: Principal, i: Iri, merged: Record, allowed: bool): Option<Store> {
    if !allowed || i !in s.records || (s.records[i].owner.Some? && p.instance != Some(i)) then None
    else
      var r := s.records[i];
      Some(s.(records := s.records[i := merged.(owner := r.owner, issuer := if r.owner.None? then None else r.issuer, key := r.key, withdrawn := false)]))
  }

  /** `DELETE /instances/{id}`: the IRI keeps resolving, marked as withdrawn. */
  function Withdraw(s: Store, i: Iri, allowed: bool): Option<Store> {
    if !allowed || i !in s.records then None
    else Some(s.(records := s.records[i := s.records[i].(withdrawn := true)]))
  }

  /** A request, with the principal its credential was resolved to when it came and the row its query gave. */
  datatype Event =
    | Announced(c: Credential, p: Principal, own: Option<Iri>, a: Announcement)
    | Created(c: Credential, p: Principal, named: Option<string>, clientId: Option<string>, clientIssuer: Option<string>,
              about: map<string, string>, allowed: bool)
    | Patched(c: Credential, p: Principal, i: Iri, merged: Record, allowed: bool)
    | Withdrawn(i: Iri, allowed: bool)

  ghost predicate Genuine(cfg: Config, s: Store, e: Event) {
    match e
    case Announced(c, p, own, a) => Resolves(cfg, s, c, p) && FoundOwn(s, p, a, own)
    case Created(c, p, _, _, _, _, _) => Resolves(cfg, s, c, p)
    case Patched(c, p, _, _, _) => Resolves(cfg, s, c, p)
    case Withdrawn(_, _) => true
  }

  /** A refused request changes nothing. */
  function Step(cfg: Config, s: Store, e: Event): Store {
    match e
    case Announced(c, p, own, a) => (var r := Announce(cfg, s, c, p, own, a); if r.Some? then r.value.0 else s)
    case Created(_, p, named, ci, ss, about, allowed) =>
      (var r := Create(s, p, named, ci, ss, about, allowed); if r.Some? then r.value.0 else s)
    case Patched(_, p, i, merged, allowed) => Patch(s, p, i, merged, allowed).GetOr(s)
    case Withdrawn(i, allowed) => Withdraw(s, i, allowed).GetOr(s)
  }

  /** The record an announcement wrote, if it was accepted. */
  function Written(cfg: Config, s: Store, e: Event): Option<Iri> {
    if e.Announced? && Announce(cfg, s, e.c, e.p, e.own, e.a).Some? then Some(Announce(cfg, s, e.c, e.p, e.own, e.a).value.1)
    else None
  }

  function Run(cfg: Config, s: Store, es: seq<Event>): Store
    decreases |es|
  {
    if es == [] then s else Step(cfg, Run(cfg, s, es[..|es| - 1]), es[|es| - 1])
  }

  // ----------------------------------------------------------------------------- uniqueness

  predicate SamePair(r: Record, t: Record) {
    r.owner.Some? && r.key.Some? && r.owner == t.owner && r.key == t.key
  }

  predicate Clash(r: Record, t: Record) {
    !r.withdrawn && !t.withdrawn && SamePair(r, t)
  }

  /** At most one live record carries a given pair of owner and key. */
  ghost predicate Unique(s: Store) {
    forall i, j | i in s.records && j in s.records && i != j :: !Clash(s.records[i], s.records[j])
  }

  ghost predicate MintsAbove(s: Store) {
    forall i | i in s.records :: i < s.next
  }

  ghost predicate WellKept(s: Store) {
    Unique(s) && MintsAbove(s)
  }

  /** The stored record an accepted patch or announcement is about to write. */
  function Rewrites(s: Store, e: Event): Option<Iri> {
    match e
    case Announced(c, p, own, a) =>
      (var target := Target(p, a, own);
       if !MayAnnounce(c, p, a) || target.None? || target.value !in s.records then None else target)
    case Patched(_, p, i, merged, allowed) => if Patch(s, p, i, merged, allowed).Some? then Some(i) else None
    case _ => None
  }

  /** What the request is about to write is withdrawn, and its owner and key are taken by a live record. */
  ghost predicate Revives(s: Store, e: Event) {
    var target := Rewrites(s, e);
    target.Some? && target.value in s.records && s.records[target.value].withdrawn
    && exists j :: j in s.records && !s.records[j].withdrawn && SamePair(s.records[target.value], s.records[j])
  }

  lemma StepKeepsOwners(cfg: Config, s: Store, e: Event)
    requires MintsAbove(s)
    ensures var t := Step(cfg, s, e);
            && MintsAbove(t) && s.records.Keys <= t.records.Keys
            && forall i | i in s.records :: t.records[i].owner == s.records[i].owner && t.records[i].key == s.records[i].key
                                            && (s.records[i].owner.Some? ==> t.records[i].issuer == s.records[i].issuer)
  {
  }

  /** A record that was not there is the one the step minted, and nothing live had its pair. */
  lemma NewRecordAlone(cfg: Config, s: Store, e: Event, i: Iri, j: Iri)
    requires MintsAbove(s) && Genuine(cfg, s, e) && i in Step(cfg, s, e).records && i !in s.records && j in s.records
    ensures Step(cfg, s, e).records[j] == s.records[j]
    ensures !Clash(Step(cfg, s, e).records[i], s.records[j])
  {
    if e.Announced? {
      assert Target(e.p, e.a, e.own) == None && e.own == None;
      NotOwned(s, e.p.subject, KeyOf(e.p, e.a), j);
    }
  }

  lemma NotOwned(s: Store, subject: string, key: string, j: Iri)
    requires OwnedRecords(s, subject, key) == {} && j in s.records
    ensures !Owned(s.records[j], subject, key)
  {
    assert j !in OwnedRecords(s, subject, key);
  }

  /** Exactly when a step keeps owner and key unique among live records: it does unless it brings back
      a withdrawn record whose pair is taken. */
  lemma StepKeepsUniqueIff(cfg: Config, s: Store, e: Event)
    requires WellKept(s) && Genuine(cfg, s, e)
    ensures Unique(Step(cfg, s, e)) <==> !Revives(s, e)
  {
    var t := Step(cfg, s, e);
    StepKeepsOwners(cfg, s, e);
    if !Revives(s, e) {
      forall i, j | i in t.records && j in t.records && i != j
        ensures !Clash(t.records[i], t.records[j])
      {
        if i !in s.records && j in s.records {
          NewRecordAlone(cfg, s, e, i, j);
        } else if i in s.records && j !in s.records {
          NewRecordAlone(cfg, s, e, j, i);
        } else if i in s.records && j in s.records {
          OneRecordChanges(cfg, s, e, i, j);
        }
      }
    } else {
      var i := Rewrites(s, e).value;
      var j :| j in s.records && !s.records[j].withdrawn && SamePair(s.records[i], s.records[j]);
      RewrittenIsLive(cfg, s, e);
      OneRecordChanges(cfg, s, e, i, j);
      assert Clash(t.records[i], t.records[j]);
    }
  }

  /** Only what is rewritten comes back to life. */
  lemma RewrittenIsLive(cfg: Config, s: Store, e: Event)
    requires MintsAbove(s)
    ensures var target := Rewrites(s, e);
            && (target.Some? ==> target.value in s.records && !Step(cfg, s, e).records[target.value].withdrawn)
            && forall i | i in s.records && target != Some(i) && s.records[i].withdrawn :: Step(cfg, s, e).records[i].withdrawn
  {
  }

  /** A step rewrites at most one of two records. */
  lemma OneRecordChanges(cfg: Config, s: Store, e: Event, i: Iri, j: Iri)
    requires MintsAbove(s) && i in s.records && j in s.records && i != j
    ensures Step(cfg, s, e).records[i] == s.records[i] || Step(cfg, s, e).records[j] == s.records[j]
  {
  }

  /** Every request of the run came with a principal and a row of its time. */
  ghost predicate GenuineRun(cfg: Config, s: Store, es: seq<Event>)
    decreases |es|
  {
    es == [] || (GenuineRun(cfg, s, es[..|es| - 1]) && Genuine(cfg, Run(cfg, s, es[..|es| - 1]), es[|es| - 1]))
  }

  /** No step of the run writes a withdrawn record whose owner and key a live one has by then. */
  ghost predicate NeverRevives(cfg: Config, s: Store, es: seq<Event>)
    decreases |es|
  {
    es == [] || (NeverRevives(cfg, s, es[..|es| - 1]) && !Revives(Run(cfg, s, es[..|es| - 1]), es[|es| - 1]))
  }

  /** Over every run of creations, patches, announcements and withdrawals in which no step brings a
      withdrawn record back over a live one, owner and key stay unique. */
  lemma {:induction false} RunKeepsUnique(cfg: Config, s: Store, es: seq<Event>)
    requires WellKept(s) && GenuineRun(cfg, s, es) && NeverRevives(cfg, s, es)
    ensures WellKept(Run(cfg, s, es))
    decreases |es|
  {
    if es != [] {
      var n := |es| - 1;
      RunKeepsUnique(cfg, s, es[..n]);
      StepKeepsUniqueIff(cfg, Run(cfg, s, es[..n]), es[n]);
      StepKeepsOwners(cfg, Run(cfg, s, es[..n]), es[n]);
    }
  }

  const NoRecords := Store(map[], 0)

  /** A plain announcement under an explicit key. */
  function Saying(key: string, software: Option<string>): Announcement {
    Announcement(Some(key), software, map[], true)
  }

  function AnnouncedBy(c: Credential, p: Principal, own: Option<Iri>, key: string, software: Option<string>): Event {
    Announced(c, p, own, Saying(key, software))
  }

  /** A registry on which it fails: register under a key, withdraw, register again under the key, and let the
      withdrawn deployment announce itself with a credential of its own. */
  lemma UniquenessCanFail(cfg: Config, id: string, sw: string, key: string, name: string)
    requires key != ""
    ensures var c, d := SoftwareToken(id, sw), InstanceToken(0, name);
            var p, q := Principal(None, Some(sw), Subject(c), None), Principal(Some(0), None, name, None);
            var s1 := Step(cfg, NoRecords, AnnouncedBy(c, p, None, key, None));
            var s2 := Step(cfg, s1, Withdrawn(0, true));
            var s3 := Step(cfg, s2, AnnouncedBy(c, p, None, key, None));
            exists own ::
              var s4 := Step(cfg, s3, AnnouncedBy(d, q, own, name, None));
              && Genuine(cfg, NoRecords, AnnouncedBy(c, p, None, key, None))
              && Genuine(cfg, s2, AnnouncedBy(c, p, None, key, None))
              && Genuine(cfg, s3, AnnouncedBy(d, q, own, name, None))
              && !Unique(s4)
  {
    var c, d := SoftwareToken(id, sw), InstanceToken(0, name);
    var p, q := Principal(None, Some(sw), Subject(c), None), Principal(Some(0), None, name, None);
    var e := AnnouncedBy(c, p, None, key, None);
    assert Subject(c) != "" by {
      assert |Subject(c)| >= |"urn:tar:token:"|;
    }
    var s1 := Step(cfg, NoRecords, e);
    var s2 := Step(cfg, s1, Withdrawn(0, true));
    var s3 := Step(cfg, s2, e);
    assert OwnedRecords(NoRecords, Subject(c), key) == {} && OwnedRecords(s2, Subject(c), key) == {};
    var own := if OwnedRecords(s3, name, name) == {} then None else Some(1);
    assert OwnedRecords(s3, name, name) <= {1} by {
      assert s3.records[0].withdrawn && s3.records.Keys == {0, 1};
    }
    assert FoundOwn(s3, q, Saying(name, None), own) by {
      if own.Some? {
        var i :| i in OwnedRecords(s3, name, name);
      }
    }
    var s4 := Step(cfg, s3, AnnouncedBy(d, q, own, name, None));
    assert Clash(s4.records[0], s4.records[1]);
  }

  // --------------------------------------------------------- one credential, many deployments

  /** A credential shared by every deployment of a software: an auto-registration key, or a client the
      software lists and no deployment names. A token's client ids are never empty. */
  predicate Shared(cfg: Config, s: Store, c: Credential) {
    match c
    case SoftwareToken(_, _) => true
    case InstanceToken(_, _) => false
    case Oidc(_, candidates, _, person) =>
      !person && candidates != [] && candidates[0] != "" && Declaring(cfg, s, c) == {}
      && SoftwareForClient(cfg, cfg.registrars, c).Some?
  }

  /** In other words: an auto-registration key, or a workload whose first client id is not empty, that some software
      lists for its issuer and no deployment names. */
  lemma SharedExactly(cfg: Config, s: Store, c: Credential)
    ensures c.SoftwareToken? ==> Shared(cfg, s, c)
    ensures c.InstanceToken? ==> !Shared(cfg, s, c)
    ensures Shared(cfg, s, c) ==> Authority(cfg, c).Some?
    ensures c.Oidc? ==>
              (Shared(cfg, s, c) <==>
                 && !c.person && c.candidates != [] && c.candidates[0] != ""
                 && Naming(cfg, s, c.candidates, c.tokenIssuer) == {}
                 && exists k :: 0 <= k < |cfg.registrars| && Lists(cfg, cfg.registrars[k], c))
  {
    if c.Oidc? {
      AuthorisedByFirst(cfg, cfg.registrars, c);
      assert Declaring(cfg, s, c) == Naming(cfg, s, c.candidates, c.tokenIssuer);
    }
  }

  /** Whatever it has registered so far, and whichever record it is bound to for that, a shared
      credential keeps its subject and issuer and stays bound to a software. */
  lemma SharedKeepsItsSubject(cfg: Config, s: Store, c: Credential, p: Principal)
    requires Shared(cfg, s, c) && Resolves(cfg, s, c, p)
    ensures p.software.Some? && p.subject == Subject(c) && p.subject != "" && p.issuer == IssuerOf(c)
  {
    assert c.SoftwareToken? ==> |Subject(c)| >= |"urn:tar:token:"|;
  }

  /** An acceptable announcement under an explicit key. It may name a software. */
  predicate Keyed(a: Announcement) {
    a.valid && a.key.Some? && a.key.value != ""
  }

  /** The key an announcement gives, if it gives one. */
  function KeyAt(e: Event): string {
    if e.Announced? then e.a.key.GetOr("") else ""
  }

  predicate KeyedBy(e: Event, c: Credential) {
    e.Announced? && e.c == c && Keyed(e.a)
  }

  lemma OwnedOnce(s: Store, subject: string, key: string, i: Iri)
    requires Unique(s) && i in OwnedRecords(s, subject, key)
    ensures OwnedRecords(s, subject, key) == {i}
  {
    forall j | j in OwnedRecords(s, subject, key) ensures j == i {
      assert Clash(s.records[i], s.records[j]);
    }
  }

  /** One announcement of a shared credential writes exactly one record: the one it owns under that key if
      there is one, otherwise a new one that it then owns. It is refused, and changes nothing, only if it is
      the first under its key and names another software than the credential is bound to. */
  lemma AnnouncementWritesItsOwn(cfg: Config, s: Store, e: Event, c: Credential)
    requires Shared(cfg, s, c) && WellKept(s) && KeyedBy(e, c) && Genuine(cfg, s, e)
    ensures var k, t, written := e.a.key.value, Step(cfg, s, e), Written(cfg, s, e);
            && (written.Some? <==> OwnedRecords(s, Subject(c), k) != {} || e.a.software.None? || e.a.software == e.p.software)
            && (written.None? ==> t == s)
            && (written.Some? ==>
                  var i := written.value;
                  && t.records.Keys == s.records.Keys + {i}
                  && (forall j | j in s.records && j != i :: t.records[j] == s.records[j])
                  && OwnedRecords(s, Subject(c), k) == (if i in s.records then {i} else {})
                  && OwnedRecords(t, Subject(c), k) == {i}
                  && (forall f | f in e.a.about :: f in t.records[i].about && t.records[i].about[f] == e.a.about[f]))
            && Shared(cfg, t, c) && WellKept(t)
  {
    SharedKeepsItsSubject(cfg, s, c, e.p);
    var k, t := e.a.key.value, Step(cfg, s, e);
    if e.own.Some? {
      OwnedOnce(s, Subject(c), k, e.own.value);
    }
    StepKeepsUniqueIff(cfg, s, e);
    StepKeepsOwners(cfg, s, e);
    var written := Written(cfg, s, e);
    if written.Some? {
      DeclaringUnchanged(cfg, s, t, c, written.value);
      OwnedOnce(t, Subject(c), k, written.value);
    }
  }

  /** What an accepted announcement leaves of the record it is about: what it says is there, what it does not say is
      as it was, and so are owner, key and client. */
  lemma UnsaidStays(cfg: Config, s: Store, e: Event)
    requires e.Announced? && Written(cfg, s, e).Some? && Written(cfg, s, e).value in s.records
    requires MintsAbove(s)
    ensures var i := Written(cfg, s, e).value;
            var r, t := s.records[i], Step(cfg, s, e).records[i];
            && t.about.Keys == r.about.Keys + e.a.about.Keys
            && (forall f | f in e.a.about :: t.about[f] == e.a.about[f])
            && (forall f | f in r.about && f !in e.a.about :: t.about[f] == r.about[f])
            && t.software == (if e.a.software.Some? then e.a.software.value else r.software)
            && t.owner == r.owner && t.key == r.key && t.clientId == r.clientId && t.clientIssuer == r.clientIssuer
            && t.issuer == (if r.owner.Some? then r.issuer else None)
            && !t.withdrawn
  {
  }

  /** Which record an accepted announcement writes. Of a credential bound to a software: the one it owns under the key,
      failing that, without a key, the one it is bound to, failing that a new one. Of any other: the one it is bound
      to, failing that the one it owns under the key, failing that a new one. */
  lemma WritesWhich(cfg: Config, s: Store, e: Event)
    requires e.Announced? && Written(cfg, s, e).Some? && Genuine(cfg, s, e)
    ensures var own := OwnedRecords(s, e.p.subject, if e.a.key.Some? then e.a.key.value else e.p.subject);
            var i := Written(cfg, s, e).value;
            if e.p.software.Some? then
              if own != {} then i in own
              else if e.a.key.None? && e.p.instance.Some? then i == e.p.instance.value
              else i == s.next
            else
              if e.p.instance.Some? then i == e.p.instance.value
              else if own != {} then i in own
              else i == s.next
  {
  }

  /** What a first announcement registers: owned by its subject, under its key, at its issuer, live, saying what it
      said; a deployment of the software its credential is bound to, or of the one it names where the registry lets
      anybody register. Only a credential bound to no software is named as the deployment's client. */
  lemma RegistersWhat(cfg: Config, s: Store, e: Event)
    requires e.Announced? && Written(cfg, s, e) == Some(s.next) && s.next !in s.records
    requires e.p.subject != "" && (e.a.key.Some? ==> e.a.key.value != "")
    ensures Step(cfg, s, e).next == s.next + 1
    ensures var r := Step(cfg, s, e).records[s.next];
            && r.owner == Some(e.p.subject) && r.issuer == e.p.issuer && r.about == e.a.about && !r.withdrawn
            && r.key == Some(if e.a.key.Some? then e.a.key.value else e.p.subject)
            && (if e.p.software.Some? then r.software == e.p.software.value && (e.a.software.Some? ==> e.a.software == e.p.software)
                                           && r.clientId == None && r.clientIssuer == None
                else cfg.autoRegister && e.a.software == Some(r.software) && r.clientId == Some(e.p.subject) && r.clientIssuer == e.p.issuer)
  {
  }

  /** And when it is accepted: not a person's, valid, and with a software to register. */
  lemma RegistersIff(cfg: Config, s: Store, e: Event)
    requires e.Announced? && Genuine(cfg, s, e) && e.p.instance.None? && e.own.None?
    ensures Written(cfg, s, e).Some? <==>
              e.a.valid && !(e.c.Oidc? && e.c.person)
              && (if e.p.software.Some? then e.a.software.None? || e.a.software == e.p.software else cfg.autoRegister && e.a.software.Some?)
  {
  }

  /** A created record is a deployment of the software named or read off the release, or, where the credential is bound
      to one and nothing else is named, of that. It carries no ownership marks. */
  lemma CreatesWhat(cfg: Config, s: Store, e: Event)
    requires e.Created? && s.next !in s.records
    ensures var t := Step(cfg, s, e);
            if e.allowed && (if e.p.software.Some? then e.named.None? || e.named == e.p.software else e.named.Some?) then
              t == Store(s.records[s.next := Record(None, None, None, (if e.p.software.Some? then e.p.software else e.named).value,
                                                   e.clientId, e.clientIssuer, e.about, false)], s.next + 1)
            else t == s
  {
  }

  /** What names no client, or names the same as before, declares nobody new. */
  lemma DeclaringUnchanged(cfg: Config, s: Store, t: Store, c: Credential, i: Iri)
    requires i in t.records && t.records.Keys == s.records.Keys + {i}
    requires forall j | j in s.records && j != i :: t.records[j] == s.records[j]
    requires if i in s.records then t.records[i].clientId == s.records[i].clientId
                                    && t.records[i].clientIssuer == s.records[i].clientIssuer
             else t.records[i].clientId == None
    ensures Declaring(cfg, t, c) == Declaring(cfg, s, c)
  {
    forall j | j in t.records ensures j in Declaring(cfg, t, c) <==> j in Declaring(cfg, s, c) {
    }
  }

  /** The request withdraws a record of this owner. */
  predicate TakesAway(s: Store, e: Event, subject: string) {
    e.Withdrawn? && e.allowed && e.i in s.records && s.records[e.i].owner == Some(subject)
  }

  /** A run of anybody's requests that keeps the credential shared when it announces, and its records live. */
  ghost predicate Orderly(cfg: Config, s: Store, es: seq<Event>, c: Credential)
    decreases |es|
  {
    es == [] ||
    var before, e := Run(cfg, s, es[..|es| - 1]), es[|es| - 1];
    && Orderly(cfg, s, es[..|es| - 1], c)
    && Genuine(cfg, before, e) && !Revives(before, e) && !TakesAway(before, e, Subject(c))
    && (KeyedBy(e, c) ==> Shared(cfg, before, c))
  }

  /** For each request of the run, the record written if it is an accepted announcement of this credential
      under an explicit key. */
  function WrittenBy(cfg: Config, s: Store, es: seq<Event>, c: Credential): (r: seq<Option<Iri>>)
    ensures |r| == |es|
    ensures forall x | 0 <= x < |es| && r[x].Some? :: KeyedBy(es[x], c)
    decreases |es|
  {
    if es == [] then []
    else
      var n := |es| - 1;
      WrittenBy(cfg, s, es[..n], c) + [if KeyedBy(es[n], c) then Written(cfg, Run(cfg, s, es[..n]), es[n]) else None]
  }

  lemma {:induction false} WrittenAt(cfg: Config, s: Store, es: seq<Event>, c: Credential, x: nat)
    requires x < |es|
    ensures WrittenBy(cfg, s, es, c)[x] == if KeyedBy(es[x], c) then Written(cfg, Run(cfg, s, es[..x]), es[x]) else None
    decreases |es|
  {
    var n := |es| - 1;
    if x < n {
      WrittenAt(cfg, s, es[..n], c, x);
      assert es[..n][..x] == es[..x];
    }
  }

  lemma StaysOwned(cfg: Config, s: Store, e: Event, subject: string, key: string, i: Iri)
    requires MintsAbove(s) && i in OwnedRecords(s, subject, key) && !TakesAway(s, e, subject)
    ensures i in OwnedRecords(Step(cfg, s, e), subject, key)
  {
    StepKeepsOwners(cfg, s, e);
  }

  ghost predicate OwnsAll(t: Store, subject: string, es: seq<Event>, written: seq<Option<Iri>>)
    requires |written| == |es|
  {
    forall x | 0 <= x < |es| && written[x].Some? :: OwnedRecords(t, subject, KeyAt(es[x])) == {written[x].value}
  }

  lemma StaysTheOne(cfg: Config, s: Store, e: Event, subject: string, key: string, i: Iri)
    requires MintsAbove(s) && OwnedRecords(s, subject, key) == {i} && !TakesAway(s, e, subject) && Unique(Step(cfg, s, e))
    ensures OwnedRecords(Step(cfg, s, e), subject, key) == {i}
  {
    StaysOwned(cfg, s, e, subject, key, i);
    OwnedOnce(Step(cfg, s, e), subject, key, i);
  }

  /** One more request: what was owned stays owned, and an announcement owns what it wrote. */
  lemma StepOwnsAll(cfg: Config, s: Store, es: seq<Event>, written: seq<Option<Iri>>, e: Event, c: Credential)
    requires |written| == |es| && WellKept(s) && OwnsAll(s, Subject(c), es, written)
    requires Genuine(cfg, s, e) && !Revives(s, e) && !TakesAway(s, e, Subject(c)) && (KeyedBy(e, c) ==> Shared(cfg, s, c))
    ensures WellKept(Step(cfg, s, e))
    ensures OwnsAll(Step(cfg, s, e), Subject(c), es + [e], written + [if KeyedBy(e, c) then Written(cfg, s, e) else None])
  {
    var all, last := es + [e], written + [if KeyedBy(e, c) then Written(cfg, s, e) else None];
    StepKeepsUniqueIff(cfg, s, e);
    StepKeepsOwners(cfg, s, e);
    forall x | 0 <= x < |all| && last[x].Some?
      ensures OwnedRecords(Step(cfg, s, e), Subject(c), KeyAt(all[x])) == {last[x].value}
    {
      if x < |es| {
        StaysTheOne(cfg, s, e, Subject(c), KeyAt(es[x]), written[x].value);
      } else {
        AnnouncementWritesItsOwn(cfg, s, e, c);
      }
    }
  }

  lemma {:induction false} RunOwnsAll(cfg: Config, s: Store, es: seq<Event>, c: Credential)
    requires WellKept(s) && Orderly(cfg, s, es, c)
    ensures WellKept(Run(cfg, s, es))
    ensures OwnsAll(Run(cfg, s, es), Subject(c), es, WrittenBy(cfg, s, es, c))
    decreases |es|
  {
    if es != [] {
      var n := |es| - 1;
      RunOwnsAll(cfg, s, es[..n], c);
      StepOwnsAll(cfg, Run(cfg, s, es[..n]), es[..n], WrittenBy(cfg, s, es[..n], c), es[n], c);
      assert es == es[..n] + [es[n]];
    }
  }

  /** Some announcement was accepted under the key. */
  ghost predicate AcceptedUnder(es: seq<Event>, written: seq<Option<Iri>>, k: string)
    requires |written| == |es|
  {
    exists x :: 0 <= x < |es| && written[x].Some? && KeyAt(es[x]) == k
  }

  /** The live records a subject owns under any of the keys. */
  function OwnedUnder(s: Store, subject: string, keys: set<string>): set<Iri> {
    set i | i in s.records && s.records[i].key.Some? && s.records[i].key.value in keys && Owned(s.records[i], subject, s.records[i].key.value)
  }

  lemma {:induction false} AsManyRecordsAsKeys(s: Store, subject: string, keys: set<string>)
    requires forall k | k in keys :: exists i :: OwnedRecords(s, subject, k) == {i}
    ensures |OwnedUnder(s, subject, keys)| == |keys|
    decreases keys
  {
    if keys == {} {
      assert OwnedUnder(s, subject, keys) == {};
    } else {
      var k :| k in keys;
      var i :| OwnedRecords(s, subject, k) == {i};
      AsManyRecordsAsKeys(s, subject, keys - {k});
      var rest := OwnedUnder(s, subject, keys - {k});
      assert i in OwnedRecords(s, subject, k);
      forall j | j in OwnedUnder(s, subject, keys) && s.records[j].key.value == k ensures j == i {
        assert j in OwnedRecords(s, subject, k);
      }
      assert OwnedUnder(s, subject, keys) == rest + {i} && i !in rest;
    }
  }

  /** Over every run, whoever else does what in between: a shared credential whose records nobody withdraws owns
      exactly one live record for each explicit key it was accepted under. Two of its announcements land on
      the same record if and only if their keys agree, so n distinct keys own n records. */
  lemma OneRecordPerKey(cfg: Config, s: Store, es: seq<Event>, c: Credential)
    requires WellKept(s) && Orderly(cfg, s, es, c)
    ensures var t, written := Run(cfg, s, es), WrittenBy(cfg, s, es, c);
            && (forall x | 0 <= x < |es| && written[x].Some? :: OwnedRecords(t, Subject(c), KeyAt(es[x])) == {written[x].value})
            && (forall x, y | 0 <= x < |es| && 0 <= y < |es| && written[x].Some? && written[y].Some? ::
                  written[x] == written[y] <==> KeyAt(es[x]) == KeyAt(es[y]))
            && forall keys | (forall k | k in keys :: AcceptedUnder(es, written, k)) :: |OwnedUnder(t, Subject(c), keys)| == |keys|
  {
    var t, written := Run(cfg, s, es), WrittenBy(cfg, s, es, c);
    RunOwnsAll(cfg, s, es, c);
    forall x, y | 0 <= x < |es| && 0 <= y < |es| && written[x].Some? && written[y].Some?
      ensures written[x] == written[y] <==> KeyAt(es[x]) == KeyAt(es[y])
    {
      assert written[x].value in OwnedRecords(t, Subject(c), KeyAt(es[x]));
      assert written[y].value in OwnedRecords(t, Subject(c), KeyAt(es[y]));
      if KeyAt(es[x]) == KeyAt(es[y]) {
        assert {written[x].value} == {written[y].value};
        assert written[x].value in {written[y].value};
      }
    }
    forall keys | forall k | k in keys :: AcceptedUnder(es, written, k)
      ensures |OwnedUnder(t, Subject(c), keys)| == |keys|
    {
      forall k | k in keys ensures exists i :: OwnedRecords(t, Subject(c), k) == {i} {
        assert AcceptedUnder(es, written, k);
        var x :| 0 <= x < |es| && written[x].Some? && KeyAt(es[x]) == k;
      }
      AsManyRecordsAsKeys(t, Subject(c), keys);
    }
  }

  // ------------------------------------------------------------------ which software it registers

  /** The software a shared credential is meant for. */
  function Authority(cfg: Config, c: Credential): Option<string> {
    match c
    case SoftwareToken(_, sw) => Some(sw)
    case Oidc(_, _, _, _) => SoftwareForClient(cfg, cfg.registrars, c)
    case InstanceToken(_, _) => None
  }

  predicate OwnerIs(c: Credential, owner: Option<string>) {
    owner.Some? && (if c.Oidc? then owner.value in c.candidates else owner.value == Subject(c))
  }

  /** Every record registered with one of the credential's names is a deployment of `sw`. */
  ghost predicate AllUnder(s: Store, c: Credential, sw: string) {
    forall i | i in s.records && OwnerIs(c, s.records[i].owner) :: s.records[i].software == sw
  }

  /** The request makes such a record one of another software. */
  predicate Strays(cfg: Config, s: Store, e: Event, c: Credential, sw: string) {
    match e
    case Announced(d, p, own, a) =>
      MayAnnounce(d, p, a) &&
      (match Target(p, a, own)
       case Some(i) => i in s.records && OwnerIs(c, s.records[i].owner) && a.software.Some? && a.software.value != sw
       case None => OwnerIs(c, NonEmpty(p.subject)) && FirstSoftware(cfg, p, a).Some? && FirstSoftware(cfg, p, a).value != sw)
    case Patched(_, p, i, merged, allowed) =>
      Patch(s, p, i, merged, allowed).Some? && OwnerIs(c, s.records[i].owner) && merged.software != sw
    case _ => false
  }

  /** Exactly when a request leaves every record of the credential under its software. */
  lemma StepKeepsSoftwareIff(cfg: Config, s: Store, e: Event, c: Credential, sw: string)
    requires MintsAbove(s) && AllUnder(s, c, sw)
    ensures AllUnder(Step(cfg, s, e), c, sw) <==> !Strays(cfg, s, e, c, sw)
  {
    var t := Step(cfg, s, e);
    StepKeepsOwners(cfg, s, e);
    if Strays(cfg, s, e, c, sw) {
      var i := if e.Patched? then e.i else Target(e.p, e.a, e.own).GetOr(s.next);
      assert i in t.records && OwnerIs(c, t.records[i].owner) && t.records[i].software != sw;
    } else {
      forall i | i in t.records && OwnerIs(c, t.records[i].owner) ensures t.records[i].software == sw {
      }
    }
  }

  ghost predicate NeverStrays(cfg: Config, s: Store, es: seq<Event>, c: Credential, sw: string)
    decreases |es|
  {
    es == [] || (NeverStrays(cfg, s, es[..|es| - 1], c, sw) && !Strays(cfg, Run(cfg, s, es[..|es| - 1]), es[|es| - 1], c, sw))
  }

  /** The records are under the software all along. */
  ghost predicate AlwaysUnder(cfg: Config, s: Store, es: seq<Event>, c: Credential, sw: string)
    decreases |es|
  {
    AllUnder(Run(cfg, s, es), c, sw) && (es == [] || AlwaysUnder(cfg, s, es[..|es| - 1], c, sw))
  }

  /** The same over every run. */
  lemma {:induction false} RunKeepsSoftwareIff(cfg: Config, s: Store, es: seq<Event>, c: Credential, sw: string)
    requires MintsAbove(s) && AllUnder(s, c, sw)
    ensures MintsAbove(Run(cfg, s, es))
    ensures AlwaysUnder(cfg, s, es, c, sw) <==> NeverStrays(cfg, s, es, c, sw)
    decreases |es|
  {
    if es != [] {
      var n := |es| - 1;
      RunKeepsSoftwareIff(cfg, s, es[..n], c, sw);
      StepKeepsOwners(cfg, Run(cfg, s, es[..n]), es[n]);
      if AlwaysUnder(cfg, s, es[..n], c, sw) {
        assert AllUnder(Run(cfg, s, es[..n]), c, sw);
        StepKeepsSoftwareIff(cfg, Run(cfg, s, es[..n]), es[n], c, sw);
      }
    }
  }

  /** While its records are under its software, a shared credential is bound to that software. */
  lemma BoundToItsSoftware(cfg: Config, s: Store, c: Credential, p: Principal, sw: string)
    requires Shared(cfg, s, c) && Resolves(cfg, s, c, p) && Authority(cfg, c) == Some(sw) && AllUnder(s, c, sw)
    ensures p.software == Some(sw)
  {
    if c.Oidc? && p.instance.Some? {
      assert p.instance.value in SelfRegistered(cfg, s, c);
    }
  }

  /** A credential issued for one application keeps to it, in its own accepted announcements, exactly if it is
      the first announcement under its key, names no software or names that one: what a later announcement
      names is not held against the credential. */
  lemma AnnouncementKeepsSoftwareIff(cfg: Config, s: Store, e: Event, c: Credential, sw: string)
    requires Shared(cfg, s, c) && WellKept(s) && KeyedBy(e, c) && Genuine(cfg, s, e) && Written(cfg, s, e).Some?
    requires Authority(cfg, c) == Some(sw) && AllUnder(s, c, sw)
    ensures AllUnder(Step(cfg, s, e), c, sw)
       <==> OwnedRecords(s, Subject(c), e.a.key.value) == {} || e.a.software.None? || e.a.software == Some(sw)
  {
    SharedKeepsItsSubject(cfg, s, c, e.p);
    BoundToItsSoftware(cfg, s, c, e.p, sw);
    AnnouncementWritesItsOwn(cfg, s, e, c);
    StepKeepsSoftwareIff(cfg, s, e, c, sw);
    SubjectIsOwner(cfg, s, c);
  }

  lemma SubjectIsOwner(cfg: Config, s: Store, c: Credential)
    requires Shared(cfg, s, c)
    ensures OwnerIs(c, Some(Subject(c)))
  {
  }

  /** An auto-registration key of one application makes the record it registered another application's. */
  lemma KeyCanMoveItsRecord(cfg: Config, id: string, a: string, b: string, key: string)
    requires a != b && key != ""
    ensures var c := SoftwareToken(id, a);
            var p := Principal(None, Some(a), Subject(c), None);
            var first, again := AnnouncedBy(c, p, None, key, None), AnnouncedBy(c, p, Some(0), key, Some(b));
            var s1 := Step(cfg, NoRecords, first);
            && Genuine(cfg, NoRecords, first) && Genuine(cfg, s1, again)
            && s1.records[0].software == a && Step(cfg, s1, again).records[0].software == b
  {
    var c := SoftwareToken(id, a);
    assert Subject(c) != "" by {
      assert |Subject(c)| >= |"urn:tar:token:"|;
    }
    assert OwnedRecords(NoRecords, Subject(c), key) == {};
  }

  /** One application that lists one client of one issuer. */
  function OneClient(a: string, client: string, issuer: string): Config {
    Config([Registrar(a, {client}, Some(issuer))], None, false)
  }

  /** And a listed client, having moved its one record, registers a new deployment of the other application
      without naming it. */
  lemma ClientCanRegisterForAnother(a: string, b: string, client: string, issuer: string, k1: string, k2: string)
    requires a != b && client != "" && k1 != "" && k2 != "" && k1 != k2 && Bases.TrimSlashes(issuer) == issuer
    ensures var cfg, c := OneClient(a, client, issuer), Oidc(issuer, [client], "", false);
            var p0, p1, p2 := Principal(None, Some(a), client, Some(issuer)), Principal(Some(0), Some(a), client, Some(issuer)),
                              Principal(Some(0), Some(b), client, Some(issuer));
            var e0, e1, e2 := AnnouncedBy(c, p0, None, k1, None), AnnouncedBy(c, p1, Some(0), k1, Some(b)), AnnouncedBy(c, p2, None, k2, None);
            var s1 := Step(cfg, NoRecords, e0);
            var s2 := Step(cfg, s1, e1);
            && Authority(cfg, c) == Some(a) && Shared(cfg, NoRecords, c) && Shared(cfg, s1, c) && Shared(cfg, s2, c)
            && Genuine(cfg, NoRecords, e0) && Genuine(cfg, s1, e1) && Genuine(cfg, s2, e2)
            && Written(cfg, s2, e2) == Some(1) && 1 !in s2.records && Step(cfg, s2, e2).records[1].software == b
  {
    var cfg, c := OneClient(a, client, issuer), Oidc(issuer, [client], "", false);
    FirstOfClient(a, client, issuer, k1);
    var s1 := Step(cfg, NoRecords, AnnouncedBy(c, Principal(None, Some(a), client, Some(issuer)), None, k1, None));
    var e1 := AnnouncedBy(c, Principal(Some(0), Some(a), client, Some(issuer)), Some(0), k1, Some(b));
    OneRegistered(cfg, s1, c, client, issuer);
    assert Genuine(cfg, s1, e1) by {
      assert 0 in OwnedRecords(s1, client, k1);
    }
    var s2 := Step(cfg, s1, e1);
    OneRegistered(cfg, s2, c, client, issuer);
    assert OwnedRecords(s2, client, k2) == {};
  }

  lemma FirstOfClient(a: string, client: string, issuer: string, key: string)
    requires client != "" && key != "" && Bases.TrimSlashes(issuer) == issuer
    ensures var cfg, c := OneClient(a, client, issuer), Oidc(issuer, [client], "", false);
            var e := AnnouncedBy(c, Principal(None, Some(a), client, Some(issuer)), None, key, None);
            && Authority(cfg, c) == Some(a) && Shared(cfg, NoRecords, c) && Genuine(cfg, NoRecords, e)
            && Step(cfg, NoRecords, e) == Store(map[0 := Record(Some(client), Some(issuer), Some(key), a, None, None, map[], false)], 1)
  {
    var cfg, c := OneClient(a, client, issuer), Oidc(issuer, [client], "", false);
    ListedClient(a, client, issuer);
    assert OwnedRecords(NoRecords, client, key) == {} && SelfRegistered(cfg, NoRecords, c) == {} && Declaring(cfg, NoRecords, c) == {};
  }

  lemma ListedClient(a: string, client: string, issuer: string)
    requires Bases.TrimSlashes(issuer) == issuer
    ensures var cfg := OneClient(a, client, issuer);
            SoftwareForClient(cfg, cfg.registrars, Oidc(issuer, [client], "", false)) == Some(a)
  {
    assert client in [client];
  }

  lemma OneRegistered(cfg: Config, s: Store, c: Credential, client: string, issuer: string)
    requires c == Oidc(issuer, [client], "", false) && Bases.TrimSlashes(issuer) == issuer
    requires s.records.Keys == {0} && s.records[0].owner == Some(client) && s.records[0].issuer == Some(issuer)
    requires !s.records[0].withdrawn && s.records[0].clientId == None
    ensures SelfRegistered(cfg, s, c) == {0} && Declaring(cfg, s, c) == {}
  {
  }

  // --------------------------------------------------------------------- whose record it is

  /** The record of the announcement is looked for by subject and key alone: its credential is no deployment's, or
      it is shared and the announcement gives a key. */
  predicate ByKey(p: Principal, a: Announcement) {
    p.instance.None? || (p.software.Some? && a.key.Some?)
  }

  /** Whoever announces, listed by a software or not: what such an announcement writes is a record registered at
      the issuer its credential presents exactly if no live record with its subject and key was registered at
      another. The query for that record does not ask for the issuer. */
  lemma AnnouncementKeepsToItsIssuerIff(cfg: Config, s: Store, e: Event)
    requires WellKept(s) && e.Announced? && ByKey(e.p, e.a) && Genuine(cfg, s, e) && Written(cfg, s, e).Some?
    ensures Written(cfg, s, e).value in Step(cfg, s, e).records
    ensures Step(cfg, s, e).records[Written(cfg, s, e).value].issuer == IssuerOf(e.c)
       <==> forall j | j in OwnedRecords(s, e.p.subject, KeyOf(e.p, e.a)) :: s.records[j].issuer == IssuerOf(e.c)
  {
    StepKeepsOwners(cfg, s, e);
    if e.own.Some? {
      OwnedOnce(s, e.p.subject, KeyOf(e.p, e.a), e.own.value);
      assert e.own.value in OwnedRecords(s, e.p.subject, KeyOf(e.p, e.a));
    }
  }

  /** For a shared credential under an explicit key, whatever it is bound to. */
  lemma SharedKeepsToItsIssuerIff(cfg: Config, s: Store, e: Event, c: Credential)
    requires Shared(cfg, s, c) && WellKept(s) && KeyedBy(e, c) && Genuine(cfg, s, e) && Written(cfg, s, e).Some?
    ensures Written(cfg, s, e).value in Step(cfg, s, e).records
    ensures Step(cfg, s, e).records[Written(cfg, s, e).value].issuer == IssuerOf(c)
       <==> forall j | j in OwnedRecords(s, Subject(c), e.a.key.value) :: s.records[j].issuer == IssuerOf(c)
  {
    SharedKeepsItsSubject(cfg, s, c, e.p);
    AnnouncementKeepsToItsIssuerIff(cfg, s, e);
  }

  /** Two applications that list the same client name, each at an issuer of its own. */
  function TwoClients(a: string, b: string, client: string, one: string, two: string): Config {
    Config([Registrar(a, {client}, Some(one)), Registrar(b, {client}, Some(two))], None, false)
  }

  /** Then the second issuer's client rewrites the record the first one's registered. */
  lemma OtherIssuerRewrites(a: string, b: string, client: string, one: string, two: string, key: string)
    requires client != "" && key != "" && one != two && Bases.TrimSlashes(one) == one && Bases.TrimSlashes(two) == two
    ensures var cfg, c, d := TwoClients(a, b, client, one, two), Oidc(one, [client], "", false), Oidc(two, [client], "", false);
            var p, q := Principal(None, Some(a), client, Some(one)), Principal(None, Some(b), client, Some(two));
            var e0, e1 := AnnouncedBy(c, p, None, key, None), AnnouncedBy(d, q, Some(0), key, None);
            var s1 := Step(cfg, NoRecords, e0);
            && Shared(cfg, NoRecords, c) && Shared(cfg, s1, d) && Genuine(cfg, NoRecords, e0) && Genuine(cfg, s1, e1)
            && Written(cfg, s1, e1) == Some(0) && Step(cfg, s1, e1).records[0].issuer == Some(one)
  {
    var cfg, c, d := TwoClients(a, b, client, one, two), Oidc(one, [client], "", false), Oidc(two, [client], "", false);
    var p := Principal(None, Some(a), client, Some(one));
    TwoListed(a, b, client, one, two);
    var s1 := Step(cfg, NoRecords, AnnouncedBy(c, p, None, key, None));
    assert OwnedRecords(NoRecords, client, key) == {} && SelfRegistered(cfg, NoRecords, c) == {};
    assert s1.records == map[0 := Record(Some(client), Some(one), Some(key), a, None, None, map[], false)];
    assert SelfRegistered(cfg, s1, d) == {} && Declaring(cfg, s1, d) == {};
  }

  /** And a client that nobody lists and no deployment names, of another accepted issuer, rewrites the record of
      the listed one and makes it another application's. Into an empty registry it could register nothing. */
  lemma UnlistedClientRewrites(a: string, b: string, client: string, one: string, two: string, key: string)
    requires a != b && client != "" && key != "" && one != two && Bases.TrimSlashes(one) == one && Bases.TrimSlashes(two) == two
    ensures var cfg, c, d := OneClient(a, client, one), Oidc(one, [client], "", false), Oidc(two, [client], "", false);
            var p, q := Principal(None, Some(a), client, Some(one)), Principal(None, None, client, Some(two));
            var e0, e1 := AnnouncedBy(c, p, None, key, None), AnnouncedBy(d, q, Some(0), key, Some(b));
            var s1 := Step(cfg, NoRecords, e0);
            var s2 := Step(cfg, s1, e1);
            && Authority(cfg, d) == None && Genuine(cfg, NoRecords, e0) && Genuine(cfg, s1, e1)
            && Announce(cfg, NoRecords, d, q, None, e1.a) == None && Written(cfg, s1, e1) == Some(0)
            && s1.records[0].software == a && s2.records[0].software == b && s2.records[0].issuer == Some(one)
  {
    var cfg, d := OneClient(a, client, one), Oidc(two, [client], "", false);
    FirstOfClient(a, client, one, key);
    NotListed(a, client, one, two);
    var s1 := Step(cfg, NoRecords, AnnouncedBy(Oidc(one, [client], "", false), Principal(None, Some(a), client, Some(one)), None, key, None));
    assert SelfRegistered(cfg, s1, d) == {} && Declaring(cfg, s1, d) == {};
    assert 0 in OwnedRecords(s1, client, key);
  }

  lemma NotListed(a: string, client: string, one: string, two: string)
    requires one != two && Bases.TrimSlashes(one) == one
    ensures var cfg := OneClient(a, client, one);
            SoftwareForClient(cfg, cfg.registrars, Oidc(two, [client], "", false)) == None
  {
    assert OneClient(a, client, one).registrars[1..] == [];
  }

  lemma TwoListed(a: string, b: string, client: string, one: string, two: string)
    requires one != two && Bases.TrimSlashes(one) == one && Bases.TrimSlashes(two) == two
    ensures var cfg := TwoClients(a, b, client, one, two);
            && SoftwareForClient(cfg, cfg.registrars, Oidc(one, [client], "", false)) == Some(a)
            && SoftwareForClient(cfg, cfg.registrars, Oidc(two, [client], "", false)) == Some(b)
  {
    var cfg := TwoClients(a, b, client, one, two);
    assert client in [client];
    assert cfg.registrars[1..] == [Registrar(b, {client}, Some(two))];
  }

  // ---------------------------------------------------------------------------- empty keys

  /** No record holds an empty key: empty texts are not stored. */
  ghost predicate NoEmptyKeys(s: Store) {
    forall i | i in s.records :: s.records[i].key != Some("")
  }

  lemma StepStoresNoEmptyKey(cfg: Config, s: Store, e: Event)
    requires NoEmptyKeys(s) && MintsAbove(s)
    ensures NoEmptyKeys(Step(cfg, s, e))
  {
    StepKeepsOwners(cfg, s, e);
  }

  predicate SameCall(e: Event, f: Event, c: Credential) {
    e.Announced? && f.Announced? && e.c == f.c == c && e.a == f.a && e.a.valid && e.a.key.Some?
  }

  /** Announcing twice under one explicit key, accepted both times, lands on the same record exactly when the
      key is not empty. */
  lemma AgainIsTheSameRecordIff(cfg: Config, s: Store, e: Event, f: Event, c: Credential)
    requires Shared(cfg, s, c) && WellKept(s) && NoEmptyKeys(s) && SameCall(e, f, c)
    requires Genuine(cfg, s, e) && Written(cfg, s, e).Some?
    requires Genuine(cfg, Step(cfg, s, e), f) && Written(cfg, Step(cfg, s, e), f).Some?
    ensures Written(cfg, Step(cfg, s, e), f) == Written(cfg, s, e) <==> e.a.key != Some("")
  {
    var t := Step(cfg, s, e);
    StepStoresNoEmptyKey(cfg, s, e);
    if e.a.key != Some("") {
      AnnouncementWritesItsOwn(cfg, s, e, c);
      AnnouncementWritesItsOwn(cfg, t, f, c);
      assert Written(cfg, s, e).value in OwnedRecords(t, Subject(c), e.a.key.value);
    } else {
      EmptyKeyMints(cfg, s, e, c);
      DeclaringUnchanged(cfg, s, t, c, s.next);
      EmptyKeyMints(cfg, t, f, c);
    }
  }

  /** From an empty registry, the same announcement under an empty key twice makes two records. */
  lemma EmptyKeyMakesTwo(cfg: Config, id: string, sw: string)
    ensures var c := SoftwareToken(id, sw);
            var e := AnnouncedBy(c, Principal(None, Some(sw), Subject(c), None), None, "", None);
            var s1 := Step(cfg, NoRecords, e);
            && Genuine(cfg, NoRecords, e) && Genuine(cfg, s1, e)
            && Written(cfg, NoRecords, e) == Some(0) && Written(cfg, s1, e) == Some(1)
            && Step(cfg, s1, e).records.Keys == {0, 1}
  {
    var c := SoftwareToken(id, sw);
    var s1 := Step(cfg, NoRecords, AnnouncedBy(c, Principal(None, Some(sw), Subject(c), None), None, "", None));
    assert OwnedRecords(NoRecords, Subject(c), "") == {} && OwnedRecords(s1, Subject(c), "") == {};
  }

  lemma EmptyKeyMints(cfg: Config, s: Store, e: Event, c: Credential)
    requires Shared(cfg, s, c) && NoEmptyKeys(s) && MintsAbove(s) && Genuine(cfg, s, e)
    requires e.Announced? && e.c == c && e.a.key == Some("") && Written(cfg, s, e).Some?
    ensures var t := Step(cfg, s, e);
            && Written(cfg, s, e) == Some(s.next) && t.next == s.next + 1
            && t.records.Keys == s.records.Keys + {s.next} && t.records[s.next].clientId == None
            && forall j | j in s.records :: t.records[j] == s.records[j]
  {
    SharedKeepsItsSubject(cfg, s, c, e.p);
    assert OwnedRecords(s, Subject(c), "") == {};
  }
}
