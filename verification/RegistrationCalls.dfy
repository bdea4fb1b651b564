/** The handlers behind the registration routes, against the store they change. Each is handled on its
    own, as the credential was resolved when it arrived. */
module RegistrationCalls {
  import opened Options
  import opened Registration

  lemma OnlyMember(s: set<Iri>, i: Iri)
    requires |s| == 1 && i in s
    ensures s == {i}
  {
    assert |s - {i}| == 0;
  }

  class Registry {
    const cfg: Config
    var records: map<Iri, Record>
    var next: Iri

    ghost function Value(): Store
      reads this
    {
      Store(records, next)
    }

    /** The first row that accepts the token's issuer, whichever the store gives first. */
    method FindInstanceForClient(c: Credential) returns (found: Option<Iri>)
      ensures found.Some? ==> found.value in Declaring(cfg, Value(), c)
      ensures found.None? ==> Declaring(cfg, Value(), c) == {}
    {
      var left := records.Keys;
      while left != {}
        invariant left <= records.Keys
        invariant forall i | i in records.Keys - left :: !Declares(cfg, records[i], c)
      {
        var i :| i in left;
        if Declares(cfg, records[i], c) {
          return Some(i);
        }
        left := left - {i};
      }
      found := None;
    }

    /** Exactly one, or none: more than one is ambiguous and binds to nothing. */
    method FindSelfRegisteredInstance(c: Credential) returns (found: Option<Iri>)
      ensures found.Some? <==> |SelfRegistered(cfg, Value(), c)| == 1
      ensures found.Some? ==> SelfRegistered(cfg, Value(), c) == {found.value}
    {
      var rows, left := {}, records.Keys;
      while left != {}
        invariant left <= records.Keys
        invariant rows == set i | i in records.Keys - left && RegisteredBy(cfg, records[i], c)
      {
        var i :| i in left;
        left := left - {i};
        if RegisteredBy(cfg, records[i], c) {
          rows := rows + {i};
        }
      }
      assert rows == SelfRegistered(cfg, Value(), c);
      if |rows| != 1 {
        return None;
      }
      var i :| i in rows;
      OnlyMember(rows, i);
      found := Some(i);
    }

    /** A verified token's principal: a deployment that names it, the one deployment it registered, or a
        person or workload of its own. */
    method PrincipalFromClaims(c: Credential) returns (p: Principal)
      requires c.Oidc?
      ensures Resolves(cfg, Value(), c, p)
    {
      var named := FindInstanceForClient(c);
      if named.Some? {
        return Principal(named, None, BoundSubject(c), Some(c.tokenIssuer));
      }
      var own := FindSelfRegisteredInstance(c);
      if own.Some? {
        return Principal(own, Some(records[own.value].software), BoundSubject(c), Some(c.tokenIssuer));
      }
      p := Principal(None, if c.person then None else SoftwareForClient(cfg, cfg.registrars, c), Subject(c), Some(c.tokenIssuer));
    }

    method FindOwn(p: Principal, a: Announcement) returns (found: Option<Iri>)
      ensures FoundOwn(Value(), p, a, found)
    {
      var subject, key := p.subject, KeyOf(p, a);
      var left := records.Keys;
      while left != {}
        invariant left <= records.Keys
        invariant forall i | i in records.Keys - left :: !Owned(records[i], subject, key)
      {
        var i :| i in left;
        if Owned(records[i], subject, key) {
          return Some(i);
        }
        left := left - {i};
      }
      found := None;
    }

    /** Everything said replaces, everything absent stays. */
    static method ApplyAnnouncement(target: map<string, string>, said: map<string, string>) returns (merged: map<string, string>)
      ensures merged == target + said
    {
      merged := target;
      var left := said.Keys;
      while left != {}
        invariant left <= said.Keys
        invariant merged == target + map f | f in said.Keys - left :: said[f]
      {
        var f :| f in left;
        left := left - {f};
        merged := merged[f := said[f]];
      }
      assert (map f | f in said.Keys - left :: said[f]) == said;
    }

    /** The record found for the announcement, if the store holds one, is the one written. */
    method AnnounceSelf(c: Credential, p: Principal, a: Announcement) returns (written: Option<Iri>, ghost own: Option<Iri>)
      requires Resolves(cfg, Value(), c, p)
      modifies this
      ensures Genuine(cfg, old(Value()), Announced(c, p, own, a))
      ensures Value() == Step(cfg, old(Value()), Announced(c, p, own, a))
      ensures written == Written(cfg, old(Value()), Announced(c, p, own, a))
    {
      var found := FindOwn(p, a);
      own := found;
      if (c.Oidc? && c.person && p.instance.None?) || !a.valid {
        return None, own;
      }
      var target := Target(p, a, found);
      if target.Some? {
        if target.value !in records {
          return None, own;
        }
        var r := records[target.value];
        var about := ApplyAnnouncement(r.about, a.about);
        records := records[target.value := Rewritten(r, a.software.GetOr(r.software), about)];
        return target, own;
      }
      var software := FirstSoftware(cfg, p, a);
      if software.None? {
        return None, own;
      }
      written := Some(next);
      records, next := records[next := Fresh(p, a, software.value)], next + 1;
    }

    method CreateInstance(c: Credential, p: Principal, named: Option<string>, clientId: Option<string>, clientIssuer: Option<string>,
                          about: map<string, string>, allowed: bool) returns (created: Option<Iri>)
      requires Resolves(cfg, Value(), c, p)
      modifies this
      ensures Genuine(cfg, old(Value()), Created(c, p, named, clientId, clientIssuer, about, allowed))
      ensures Value() == Step(cfg, old(Value()), Created(c, p, named, clientId, clientIssuer, about, allowed))
      ensures created.Some? <==> Create(old(Value()), p, named, clientId, clientIssuer, about, allowed).Some?
      ensures created.Some? ==> created.value == old(next)
    {
      var software := CreatedFor(p, named);
      if !allowed || software.None? {
        return None;
      }
      created := Some(next);
      records := records[next := Record(None, None, None, software.value, clientId, clientIssuer, about, false)];
      next := next + 1;
    }

    method PatchInstance(c: Credential, p: Principal, i: Iri, merged: Record, allowed: bool) returns (done: bool)
      requires Resolves(cfg, Value(), c, p)
      modifies this
      ensures Genuine(cfg, old(Value()), Patched(c, p, i, merged, allowed))
      ensures Value() == Step(cfg, old(Value()), Patched(c, p, i, merged, allowed))
      ensures done <==> Patch(old(Value()), p, i, merged, allowed).Some?
    {
      if !allowed || i !in records {
        return false;
      }
      var r := records[i];
      if r.owner.Some? && p.instance != Some(i) {
        return false;
      }
      var kept := merged.(owner := r.owner, issuer := if r.owner.None? then None else r.issuer, key := r.key, withdrawn := false);
      records := records[i := kept];
      done := true;
    }

    method SoftDelete(i: Iri, allowed: bool) returns (done: bool)
      modifies this
      ensures Value() == Step(cfg, old(Value()), Withdrawn(i, allowed))
      ensures done <==> allowed && i in old(records)
    {
      if !allowed || i !in records {
        return false;
      }
      records := records[i := records[i].(withdrawn := true)];
      done := true;
    }
  }
}
