/** Renaming from an old base IRI to a new one: the string facts under src/rebase.rs and
    src/ids.rs. */
module Bases {
  import opened Options

  predicate Starts(s: string, p: string) {
    |p| <= |s| && s[..|p|] == p
  }

  function StripPrefix(s: string, p: string): (r: Option<string>)
    ensures r.Some? <==> Starts(s, p)
    ensures r.Some? ==> s == p + r.value
  {
    if Starts(s, p) then Some(s[|p|..]) else None
  }

  function TrimSlashes(s: string): (r: string)
    ensures Starts(s, r) && (r == "" || r[|r| - 1] != '/')
  {
    if s != "" && s[|s| - 1] == '/' then TrimSlashes(s[..|s| - 1]) else s
  }

  predicate IsUnder(iri: string, base: string) {
    var rest := StripPrefix(iri, base);
    rest.Some? && Starts(rest.value, "/")
  }

  predicate IsHttp(s: string) {
    Starts(s, "http://") || Starts(s, "https://")
  }

  predicate CheckBases(old_: string, new_: string) {
    var o, n := TrimSlashes(old_), TrimSlashes(new_);
    IsHttp(o) && o != n && !IsUnder(n, o) && !IsUnder(o, n)
  }

  lemma UnderIff(iri: string, base: string)
    ensures IsUnder(iri, base) <==> Starts(iri, base + "/")
  {
    if IsUnder(iri, base) {
      assert iri[..|base| + 1] == base + iri[|base|..][..1];
    }
    if Starts(iri, base + "/") {
      assert iri[..|base|] == iri[..|base| + 1][..|base|] == base;
      assert iri[|base|] == iri[..|base| + 1][|base|];
    }
  }

  lemma PrefixIsUnder(a: string, b: string)
    requires Starts(a + "/", b + "/")
    ensures a == b || IsUnder(a, b)
  {
    var m := |b| + 1;
    assert (a + "/")[..m] == b + "/";
    if |a| == |b| {
      assert a == (a + "/")[..m][..|b|] == (b + "/")[..|b|] == b;
    } else {
      assert (a + "/")[..m] == a[..m];
      UnderIff(a, b);
    }
  }

  /** What the check is for: with the slash added, neither base starts the other. */
  lemma AcceptedBasesApart(o: string, n: string)
    requires CheckBases(o, n) && TrimSlashes(o) == o && TrimSlashes(n) == n
    ensures !Starts(o + "/", n + "/") && !Starts(n + "/", o + "/")
    ensures !Starts(o, n + "/") && !Starts(n, o + "/")
  {
    if Starts(o + "/", n + "/") {
      PrefixIsUnder(o, n);
    }
    if Starts(n + "/", o + "/") {
      PrefixIsUnder(n, o);
    }
    UnderIff(o, n);
    UnderIff(n, o);
  }

  lemma BothPrefixes(s: string, a: string, b: string)
    requires Starts(s, a) && Starts(s, b)
    ensures Starts(a, b) || Starts(b, a)
  {
    if |a| <= |b| {
      assert b[..|a|] == s[..|a|];
    } else {
      assert a[..|b|] == s[..|b|];
    }
  }

  // ------------------------------------------------------------------------------- one IRI

  /** `<old>/x` becomes `<new>/x` and `<old>` itself `<new>`. */
  function RewriteIri(iri: string, old_: string, new_: string): Option<string> {
    match StripPrefix(iri, old_)
    case None => None
    case Some(rest) =>
      if rest == "" then Some(new_)
      else match StripPrefix(rest, "/")
           case None => None
           case Some(r) => Some(new_ + "/" + r)
  }

  function Rename(iri: string, old_: string, new_: string): string {
    RewriteIri(iri, old_, new_).GetOr(iri)
  }

  /** An IRI is renamed exactly when it is the old base or lies under it. */
  lemma RenamedIff(iri: string, o: string, n: string)
    ensures RewriteIri(iri, o, n).Some? <==> iri == o || Starts(iri, o + "/")
    ensures Starts(iri, o + "/") ==> RewriteIri(iri, o, n) == Some(n + "/" + iri[|o| + 1..])
  {
    UnderIff(iri, o);
    if IsUnder(iri, o) {
      assert iri[|o|..] == "/" + iri[|o| + 1..];
    }
  }

  /** Between bases the check accepts a renamed IRI is never renamed again, so a second run is safe;
      and renaming back restores it. */
  lemma RenameOnce(iri: string, o: string, n: string)
    requires CheckBases(o, n) && TrimSlashes(o) == o && TrimSlashes(n) == n
    requires RewriteIri(iri, o, n).Some?
    ensures RewriteIri(RewriteIri(iri, o, n).value, o, n) == None
    ensures RewriteIri(RewriteIri(iri, o, n).value, n, o) == Some(iri)
  {
    var j := RewriteIri(iri, o, n).value;
    RenamedIff(iri, o, n);
    RenamedIff(j, o, n);
    RenamedIff(j, n, o);
    AcceptedBasesApart(o, n);
    if iri != o {
      var rest := iri[|o| + 1..];
      assert j == (n + "/") + rest;
      assert j[..|n| + 1] == n + "/" && j[|n| + 1..] == rest;
      assert iri == o + "/" + rest;
      if Starts(j, o + "/") {
        BothPrefixes(j, n + "/", o + "/");
      }
    }
  }

  // -------------------------------------------------------------------------------- local ids

  datatype Kind = Software | Release | Instance | Artifact | ArtifactSeries | Run | Type | Distribution | Capability | Agent | Peer

  function Segment(k: Kind): string {
    match k
    case Software => "software"
    case Release => "release"
    case Instance => "instance"
    case Artifact => "artifact"
    case ArtifactSeries => "artifact-series"
    case Run => "run"
    case Type => "type"
    case Distribution => "distribution"
    case Capability => "capability"
    case Agent => "agent"
    case Peer => "peer"
  }

  function FromSegment(s: string): Option<Kind> {
    if s == "software" then Some(Software)
    else if s == "release" then Some(Release)
    else if s == "instance" || s == "instances" then Some(Instance)
    else if s == "artifact" || s == "artifacts" then Some(Artifact)
    else if s == "artifact-series" then Some(ArtifactSeries)
    else if s == "run" || s == "runs" then Some(Run)
    else if s == "type" || s == "types" then Some(Type)
    else if s == "distribution" then Some(Distribution)
    else if s == "capability" then Some(Capability)
    else if s == "agent" then Some(Agent)
    else if s == "peer" || s == "peers" then Some(Peer)
    else None
  }

  /** The text before and after the first slash. */
  function SplitOnce(s: string): Option<(string, string)> {
    if s == "" then None
    else if s[0] == '/' then Some(("", s[1..]))
    else match SplitOnce(s[1..])
         case None => None
         case Some((a, b)) => Some(([s[0]] + a, b))
  }

  function LocalId(base: string, iri: string): Option<(Kind, string)> {
    match StripPrefix(iri, TrimSlashes(base))
    case None => None
    case Some(tail) =>
      match StripPrefix(tail, "/")
      case None => None
      case Some(rest) =>
        match SplitOnce(rest)
        case None => None
        case Some((seg, id)) =>
          if FromSegment(seg).None? || id == "" || '/' in id then None else Some((FromSegment(seg).value, id))
  }

  function IriFor(base: string, kind: Kind, id: string): string {
    if IsHttp(id) then id else TrimSlashes(base) + "/" + Segment(kind) + "/" + id
  }

  lemma {:induction false} SplitOnceAfter(a: string, b: string)
    requires '/' !in a
    ensures SplitOnce(a + "/" + b) == Some((a, b))
  {
    var s := a + "/" + b;
    if a == "" {
      assert s == "/" + b;
      assert s[1..] == b;
    } else {
      assert s[1..] == a[1..] + "/" + b;
      SplitOnceAfter(a[1..], b);
      assert a == [a[0]] + a[1..];
    }
  }

  lemma LocalIdUnder(base: string, rest: string)
    requires TrimSlashes(base) == base
    ensures LocalId(base, base + "/" + rest) ==
              match SplitOnce(rest)
              case None => None
              case Some((seg, id)) =>
                if FromSegment(seg).None? || id == "" || '/' in id then None else Some((FromSegment(seg).value, id))
  {
    var iri := base + "/" + rest;
    assert iri[..|base|] == base && iri[|base|..] == "/" + rest;
    assert ("/" + rest)[1..] == rest && ("/" + rest)[..1] == "/";
  }

  lemma SegmentReadBack(k: Kind)
    ensures FromSegment(Segment(k)) == Some(k) && '/' !in Segment(k)
  {
  }

  /** What the IRIs of each kind look like, and that nothing else is read as one. */
  lemma SegmentsByName()
    ensures Segment(Software) == "software" && Segment(Release) == "release" && Segment(Instance) == "instance"
    ensures Segment(Artifact) == "artifact" && Segment(ArtifactSeries) == "artifact-series" && Segment(Run) == "run"
    ensures Segment(Type) == "type" && Segment(Distribution) == "distribution" && Segment(Capability) == "capability"
    ensures Segment(Agent) == "agent" && Segment(Peer) == "peer"
  {
  }

  lemma KindsByName(segment: string, k: Kind)
    ensures FromSegment(segment) == Some(k) <==>
              segment == Segment(k) || (k in {Instance, Artifact, Run, Type, Peer} && segment == Segment(k) + "s")
  {
    SegmentReadBack(k);
    SegmentsByName();
    assert "instance" + "s" == "instances" && "artifact" + "s" == "artifacts" && "run" + "s" == "runs" && "type" + "s" == "types"
        && "peer" + "s" == "peers";
  }

  /** An identifier that is an IRI already stands for itself. */
  lemma IriForGiven(base: string, kind: Kind, id: string)
    ensures Starts(id, "http://") || Starts(id, "https://") ==> IriFor(base, kind, id) == id
    ensures !Starts(id, "http://") && !Starts(id, "https://") ==> IriFor(base, kind, id) == TrimSlashes(base) + "/" + Segment(kind) + "/" + id
  {
  }

  lemma HttpHasSlash(s: string)
    requires IsHttp(s)
    ensures '/' in s
  {
    assert s[6] == (if Starts(s, "http://") then s[..7][6] else s[..8][6]);
  }

  /** Minting and reading an identifier are inverse. */
  lemma MintedIsLocal(base: string, kind: Kind, id: string)
    requires id != "" && '/' !in id && TrimSlashes(base) == base
    ensures IriFor(base, kind, id) == base + "/" + Segment(kind) + "/" + id
    ensures LocalId(base, IriFor(base, kind, id)) == Some((kind, id))
  {
    if IsHttp(id) {
      HttpHasSlash(id);
    }
    SegmentReadBack(kind);
    SplitOnceAfter(Segment(kind), id);
    assert IriFor(base, kind, id) == base + "/" + (Segment(kind) + "/" + id);
    LocalIdUnder(base, Segment(kind) + "/" + id);
  }

  /** Every renamed IRI keeps its kind and its id. */
  lemma RenameKeepsLocalId(iri: string, o: string, n: string)
    requires TrimSlashes(o) == o && TrimSlashes(n) == n && RewriteIri(iri, o, n).Some?
    ensures LocalId(n, RewriteIri(iri, o, n).value) == LocalId(o, iri)
  {
    RenamedIff(iri, o, n);
    if iri != o {
      var rest := iri[|o| + 1..];
      assert iri == o + "/" + rest;
      LocalIdUnder(o, rest);
      LocalIdUnder(n, rest);
    }
  }
}
