/** The idempotency keys of advertisement after a rebase (src/ops/mod.rs 425-432, src/rebase.rs 57-59 and 118-122):
    when the renamed key is the key of the renamed run and artifact. */
module RebasedKeys {
  import opened Options
  import opened Bases
  import opened Rewriting
  import opened Rebase
  import Ledger

  // ------------------------------------------------------------------------- replacing in parts

  /** A text without the separator is replaced in each part alone. */
  lemma {:induction false} ReplaceInParts(a: string, b: string, from: string, to: string)
    requires from != "" && '|' !in from
    ensures Replace(a + "|" + b, from, to) == Replace(a, from, to) + "|" + Replace(b, from, to)
    decreases |a|
  {
    var text := a + "|" + b;
    assert text[|a|] == '|';
    if a == "" {
      assert text == "|" + b && text[1..] == b;
      NoHitAcross(a, b, from);
      OneStep(text, from, to);
    } else if |a| >= |from| && OccursAt(text, from, 0) {
      HitInFirstPart(a, b, from);
      assert text[|from|..] == a[|from|..] + "|" + b;
      ReplaceInParts(a[|from|..], b, from, to);
      assert to + (Replace(a[|from|..], from, to) + "|" + Replace(b, from, to))
          == to + Replace(a[|from|..], from, to) + "|" + Replace(b, from, to);
    } else {
      if |a| < |from| {
        NoHitAcross(a, b, from);
      } else {
        NoHitInFirstPart(a, b, from);
      }
      assert text[1..] == a[1..] + "|" + b && text[0] == a[0];
      ReplaceInParts(a[1..], b, from, to);
      StepInParts(a, b, from, to);
    }
  }

  lemma NoHitAcross(a: string, b: string, from: string)
    requires '|' !in from && |a| < |from|
    ensures !OccursAt(a + "|" + b, from, 0)
  {
    assert (a + "|" + b)[0 + |a|] == '|' && from[|a|] != '|';
  }

  lemma HitInFirstPart(a: string, b: string, from: string)
    requires |from| <= |a| && OccursAt(a + "|" + b, from, 0)
    ensures OccursAt(a, from, 0)
  {
    forall i | 0 <= i < |from| ensures a[0 + i] == from[i] {
      assert (a + "|" + b)[0 + i] == from[i];
    }
  }

  lemma NoHitInFirstPart(a: string, b: string, from: string)
    requires !OccursAt(a + "|" + b, from, 0)
    ensures !OccursAt(a, from, 0)
  {
    if OccursAt(a, from, 0) {
      forall i | 0 <= i < |from| ensures (a + "|" + b)[0 + i] == from[i] {
        assert a[0 + i] == from[i];
      }
    }
  }

  lemma StepInParts(a: string, b: string, from: string, to: string)
    requires from != "" && a != "" && !OccursAt(a, from, 0) && !OccursAt(a + "|" + b, from, 0)
    requires Replace(a[1..] + "|" + b, from, to) == Replace(a[1..], from, to) + "|" + Replace(b, from, to)
    ensures Replace(a + "|" + b, from, to) == Replace(a, from, to) + "|" + Replace(b, from, to)
  {
    var text := a + "|" + b;
    assert text[1..] == a[1..] + "|" + b && text[0] == a[0];
    OneStep(text, from, to);
    OneStep(a, from, to);
    var rest, last := Replace(a[1..], from, to), Replace(b, from, to);
    assert [a[0]] + (rest + "|" + last) == [a[0]] + rest + "|" + last;
  }

  lemma OneStep(text: string, from: string, to: string)
    requires from != "" && text != "" && !OccursAt(text, from, 0)
    ensures Replace(text, from, to) == [text[0]] + Replace(text[1..], from, to)
  {
    if |text| < |from| {
      assert text == [text[0]] + text[1..];
    }
  }

  lemma {:induction false} ReplaceLength(text: string, from: string, to: string)
    requires from != ""
    ensures |to| >= |from| ==> |Replace(text, from, to)| >= |text|
    ensures |to| <= |from| ==> |Replace(text, from, to)| <= |text|
    decreases |text|
  {
    if |text| >= |from| {
      if OccursAt(text, from, 0) {
        ReplaceLength(text[|from|..], from, to);
      } else {
        ReplaceLength(text[1..], from, to);
      }
    }
  }

  /** Replacing one string by another one leaves exactly the texts alone that do not hold it. */
  lemma ReplaceIdleIff(text: string, from: string, to: string)
    requires from != "" && from != to
    ensures Replace(text, from, to) == text <==> !Occurs(text, from)
  {
    FirstHitIffOccurs(text, from);
    if !Occurs(text, from) {
      NothingToReplace(text, from, to);
    } else {
      var k := FirstHit(text, from);
      ReplaceAtFirstHit(text, from, to);
      FirstHitIsFirst(text, from);
      var rest := text[k + |from|..];
      ReplaceLength(rest, from, to);
      CutAt(text, from, k);
      SpliceDiffers(text[..k], from, rest, to, Replace(rest, from, to));
    }
  }

  lemma CutAt(text: string, p: string, k: nat)
    requires OccursAt(text, p, k)
    ensures text == text[..k] + p + text[k + |p|..]
  {
    forall i | 0 <= i < |p| ensures text[k..k + |p|][i] == p[i] {
      assert text[k + i] == p[i];
    }
    assert text[k..k + |p|] == p;
  }

  lemma SpliceDiffers(head: string, a: string, rest: string, b: string, other: string)
    requires a != b && (|b| >= |a| ==> |other| >= |rest|) && (|b| <= |a| ==> |other| <= |rest|)
    ensures head + a + rest != head + b + other
  {
    if |a| == |b| {
      var i := Differ(a, b);
      assert (head + a + rest)[|head| + i] == a[i] && (head + b + other)[|head| + i] == b[i];
    }
  }

  lemma Differ(a: string, b: string) returns (i: nat)
    requires a != b && |a| == |b|
    ensures i < |a| && a[i] != b[i]
  {
    i :| 0 <= i < |a| && a[i] != b[i];
  }

  // ---------------------------------------------------------------------------- one IRI, two ways

  /** The IRI is not the old base itself, and `<old>/` is in it nowhere but where it starts. */
  ghost predicate InStep(iri: string, o: string) {
    iri != o && !Occurs(if Starts(iri, o + "/") then iri[|o| + 1..] else iri, o + "/")
  }

  /** Replacing the base anywhere in an IRI is renaming the IRI exactly then. */
  lemma InStepIff(iri: string, o: string, n: string)
    requires o != n
    ensures RewriteText(iri, o, n) == Rename(iri, o, n) <==> InStep(iri, o)
  {
    var from, to := o + "/", n + "/";
    assert from != to by {
      assert from[..|from| - 1] == o && to[..|to| - 1] == n;
    }
    RenamedIff(iri, o, n);
    if iri == o {
      ShortUntouched(iri, from, to);
      assert Rename(iri, o, n) == n;
    } else if Starts(iri, from) {
      var rest := iri[|o| + 1..];
      forall i | 0 <= i < |from| ensures iri[0 + i] == from[i] {
        assert iri[..|from|][i] == from[i];
      }
      assert Replace(iri, from, to) == to + Replace(rest, from, to);
      ReplaceIdleIff(rest, from, to);
      SameTail(to, Replace(rest, from, to), rest);
    } else {
      ReplaceIdleIff(iri, from, to);
    }
  }

  lemma SameTail(a: string, b: string, c: string)
    ensures a + b == a + c <==> b == c
  {
    assert (a + b)[|a|..] == b && (a + c)[|a|..] == c;
  }

  lemma SameHead(a: string, b: string, c: string)
    ensures a + c == b + c <==> a == b
  {
    if a + c == b + c {
      assert |a| == |b|;
      assert a == (a + c)[..|a|] == (b + c)[..|b|] == b;
    }
  }

  lemma FirstBarApart(a: string, b: string, c: string, d: string)
    requires '|' !in c && |a| < |c|
    ensures a + "|" + b != c + "|" + d
  {
    assert (a + "|" + b)[|a|] == '|' && (c + "|" + d)[|a|] == c[|a|];
  }

  /** What the first separator parts is the same in equal texts. */
  lemma SameParts(a: string, b: string, c: string, d: string)
    requires '|' !in a && '|' !in c
    ensures a + "|" + b == c + "|" + d <==> a == c && b == d
  {
    if |a| < |c| {
      FirstBarApart(a, b, c, d);
    } else if |c| < |a| {
      FirstBarApart(c, d, a, b);
    } else {
      assert (a + "|" + b)[..|a|] == a && (c + "|" + d)[..|a|] == c;
      assert (a + "|" + b)[|a| + 1..] == b && (c + "|" + d)[|a| + 1..] == d;
    }
  }

  lemma {:induction false} ReplaceBringsNoBar(text: string, from: string, to: string)
    requires from != "" && '|' !in text && '|' !in to
    ensures '|' !in Replace(text, from, to)
    decreases |text|
  {
    if |text| >= |from| {
      if OccursAt(text, from, 0) {
        ReplaceBringsNoBar(text[|from|..], from, to);
      } else {
        ReplaceBringsNoBar(text[1..], from, to);
      }
    }
  }

  lemma LacksCharacter(text: string, p: string, i: nat)
    requires i < |p| && p[i] !in text
    ensures !Occurs(text, p)
  {
    forall k: nat ensures !OccursAt(text, p, k) {
      if k + |p| <= |text| {
        assert text[k + i] != p[i];
      }
    }
  }

  lemma RoleUntouched(role: Ledger.Role, o: string, n: string)
    ensures RewriteText(Ledger.RoleName(role), o, n) == Ledger.RoleName(role)
  {
    var name := Ledger.RoleName(role);
    LacksCharacter(name, o + "/", |o|);
    NothingToReplace(name, o + "/", n + "/");
  }

  // -------------------------------------------------------------------------------- the keys

  function RenamedKey(run: string, artifact: string, role: Ledger.Role, o: string, n: string): Option<string> {
    RewriteCell(Joined, Some(Ledger.IdemKey(run, artifact, role)), o, n)
  }

  lemma Grouped(r: string, a: string, n: string)
    ensures r + "|" + a + "|" + n == r + "|" + (a + "|" + n)
  {
  }

  /** The key of a claim is renamed in its run and its artifact. */
  lemma KeyInParts(run: string, artifact: string, role: Ledger.Role, o: string, n: string)
    requires '|' !in o
    ensures RenamedKey(run, artifact, role, o, n) == Some(Ledger.IdemKey(RewriteText(run, o, n), RewriteText(artifact, o, n), role))
  {
    var from, to, name := o + "/", n + "/", Ledger.RoleName(role);
    var key := Ledger.IdemKey(run, artifact, role);
    Grouped(run, artifact, name);
    ReplaceInParts(run, artifact + "|" + name, from, to);
    ReplaceInParts(artifact, name, from, to);
    RoleUntouched(role, o, n);
    Grouped(RewriteText(run, o, n), RewriteText(artifact, o, n), name);
    FirstHitIffOccurs(key, from);
    if !Occurs(key, from) {
      NothingToReplace(key, from, to);
    }
  }

  /** The renamed key is that of the renamed run and artifact, as the columns beside it have them, exactly if
      both are in step. So a claim retried under the IRIs the registry has after the move is then recognised. */
  lemma RenamedKeyIff(run: string, artifact: string, role: Ledger.Role, o: string, n: string)
    requires CheckBases(o, n) && TrimSlashes(o) == o && TrimSlashes(n) == n && '|' !in o && '|' !in n && '|' !in run
    ensures RenamedKey(run, artifact, role, o, n) == Some(Ledger.IdemKey(Rename(run, o, n), Rename(artifact, o, n), role))
       <==> InStep(run, o) && InStep(artifact, o)
  {
    var run1, art1, run2, art2 := RewriteText(run, o, n), RewriteText(artifact, o, n), Rename(run, o, n), Rename(artifact, o, n);
    KeyInParts(run, artifact, role, o, n);
    InStepIff(run, o, n);
    InStepIff(artifact, o, n);
    ReplaceBringsNoBar(run, o + "/", n + "/");
    RenameBringsNoBar(run, o, n);
    SameKeyIff(run1, art1, run2, art2, role);
  }

  lemma RenameBringsNoBar(iri: string, o: string, n: string)
    requires '|' !in iri && '|' !in n
    ensures '|' !in Rename(iri, o, n)
  {
  }

  lemma SameKeyIff(run1: string, art1: string, run2: string, art2: string, role: Ledger.Role)
    requires '|' !in run1 && '|' !in run2
    ensures Ledger.IdemKey(run1, art1, role) == Ledger.IdemKey(run2, art2, role) <==> run1 == run2 && art1 == art2
  {
    var name := Ledger.RoleName(role);
    Grouped(run1, art1, name);
    Grouped(run2, art2, name);
    SameParts(run1, art1 + "|" + name, run2, art2 + "|" + name);
    assert art1 + ("|" + name) == art1 + "|" + name && art2 + ("|" + name) == art2 + "|" + name;
    SameHead(art1, art2, "|" + name);
  }

  lemma NoColonInSegment(kind: Kind)
    ensures ':' !in Segment(kind) && '|' !in Segment(kind)
  {
  }

  /** A run minted here is always in step. */
  lemma MintedInStep(o: string, kind: Kind, id: string)
    requires IsHttp(o) && TrimSlashes(o) == o && id != "" && '/' !in id && ':' !in id
    ensures InStep(IriFor(o, kind, id), o)
  {
    MintedIsLocal(o, kind, id);
    NoColonInSegment(kind);
    PathInStep(o, Segment(kind), id);
  }

  lemma PathInStep(o: string, segment: string, id: string)
    requires IsHttp(o) && ':' !in segment && ':' !in id
    ensures InStep(o + "/" + segment + "/" + id, o)
  {
    UnderInStep(o, segment + "/" + id);
    assert o + "/" + (segment + "/" + id) == o + "/" + segment + "/" + id;
  }

  lemma UnderInStep(o: string, rest: string)
    requires IsHttp(o) && ':' !in rest
    ensures InStep(o + "/" + rest, o)
  {
    var iri := o + "/" + rest;
    assert iri[..|o| + 1] == o + "/" && iri[|o| + 1..] == rest;
    SchemeLetters(o);
    assert (o + "/")[SchemeEnd(o)] == ':';
    LacksCharacter(rest, o + "/", SchemeEnd(o));
  }

  /** For a minted run it is the artifact alone that decides: after the move a claim is recognised exactly unless
      the artifact is the old base or holds it further in, as an IRI of another registry may. */
  lemma ClaimKeptIff(id: string, artifact: string, role: Ledger.Role, o: string, n: string)
    requires CheckBases(o, n) && TrimSlashes(o) == o && TrimSlashes(n) == n && '|' !in o && '|' !in n
    requires id != "" && '/' !in id && ':' !in id && '|' !in id
    ensures var run := IriFor(o, Kind.Run, id);
            RenamedKey(run, artifact, role, o, n) == Some(Ledger.IdemKey(Rename(run, o, n), Rename(artifact, o, n), role))
            <==> InStep(artifact, o)
  {
    MintedInStep(o, Kind.Run, id);
    MintedIsLocal(o, Kind.Run, id);
    NoColonInSegment(Kind.Run);
    RenamedKeyIff(IriFor(o, Kind.Run, id), artifact, role, o, n);
  }

  /** A retry whose body is translated on the way in is recognised whatever its artifact is. */
  lemma TranslatedRetryRecognised(id: string, artifact: string, role: Ledger.Role, o: string, n: string)
    requires CheckBases(o, n) && TrimSlashes(o) == o && TrimSlashes(n) == n && '|' !in o
    requires id != "" && '/' !in id && ':' !in id
    ensures var run := IriFor(o, Kind.Run, id);
            RenamedKey(run, artifact, role, o, n) == Some(Ledger.IdemKey(Rename(run, o, n), TranslateText(artifact, [o], n), role))
  {
    var run := IriFor(o, Kind.Run, id);
    KeyInParts(run, artifact, role, o, n);
    MintedInStep(o, Kind.Run, id);
    InStepIff(run, o, n);
    assert [o][..0] == [];
  }

  /** An artifact of another registry that holds an IRI of the old base: its key moves and its columns do not. */
  lemma ForeignArtifactOutOfStep(prefix: string, rest: string, o: string, n: string)
    requires CheckBases(o, n) && TrimSlashes(o) == o && TrimSlashes(n) == n
    requires !Starts(prefix + o + "/" + rest, o + "/")
    ensures var artifact := prefix + o + "/" + rest;
            !InStep(artifact, o) && Rename(artifact, o, n) == artifact
  {
    var artifact := prefix + o + "/" + rest;
    RenamedIff(artifact, o, n);
    assert |artifact| > |o|;
    forall i | 0 <= i < |o + "/"| ensures artifact[|prefix| + i] == (o + "/")[i] {
    }
    assert OccursAt(artifact, o + "/", |prefix|);
  }
}
