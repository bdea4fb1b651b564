/** Replacing one base by another inside a longer text (src/rebase.rs): when the replacement can
    bring an old base back across the seams it makes, and when it cannot. */
module Rewriting {
  import opened Options
  import opened Bases

  predicate OccursAt(text: string, p: string, k: nat) {
    k + |p| <= |text| && forall i | 0 <= i < |p| :: text[k + i] == p[i]
  }

  ghost predicate Occurs(text: string, p: string) {
    exists k: nat :: OccursAt(text, p, k)
  }

  /** Leftmost, non-overlapping replacement. */
  function Replace(text: string, from: string, to: string): string
    requires from != ""
  {
    if |text| < |from| then text
    else if OccursAt(text, from, 0) then to + Replace(text[|from|..], from, to)
    else [text[0]] + Replace(text[1..], from, to)
  }

  function RewriteText(text: string, old_: string, new_: string): string {
    Replace(text, old_ + "/", new_ + "/")
  }

  // ------------------------------------------------------------------------------- seams

  /** `y`, laid on `x` at offset `d` inside it, agrees with it as far as both go. */
  predicate Overlaps(x: string, y: string, d: nat) {
    d < |x| && forall i | 0 <= i < |y| && d + i < |x| :: x[d + i] == y[i]
  }

  /** An occurrence of `from` could start inside a copy of `to`. */
  ghost predicate TailSeam(from: string, to: string) {
    exists d: nat :: 0 < d && Overlaps(to, from, d)
  }

  /** An occurrence of `p` could run into a copy of `to` that replaced a `from`: the text before the
      replaced `from` completes it, and no earlier `from` would have been taken first. */
  ghost predicate HeadSeam(p: string, from: string, to: string) {
    exists d: nat :: 0 < d && Overlaps(p, to, d) && forall e: nat | e < d :: !OccursAt(p[..d] + from, from, e)
  }

  /** Replacing `from` by `to` never brings `p` back. */
  ghost predicate SeamFree(p: string, from: string, to: string) {
    p != "" && from != "" && !Overlaps(to, p, 0) && !TailSeam(p, to) && !HeadSeam(p, from, to)
  }

  /** Where the first replacement happens, or `|text|` if there is none. */
  function FirstHit(text: string, from: string): (k: nat)
    requires from != ""
    ensures k + |from| <= |text| || k == |text|
  {
    if |text| < |from| then |text|
    else if OccursAt(text, from, 0) then 0
    else 1 + FirstHit(text[1..], from)
  }

  lemma OccursShift(text: string, p: string, d: nat, k: nat)
    requires d <= |text|
    ensures OccursAt(text[d..], p, k) <==> OccursAt(text, p, d + k)
  {
    if OccursAt(text[d..], p, k) {
      forall i | 0 <= i < |p|
        ensures text[d + k + i] == p[i]
      {
        assert text[d..][k + i] == p[i];
      }
    }
  }

  lemma {:induction false} FirstHitIsFirst(text: string, from: string)
    requires from != ""
    ensures forall e: nat | e < FirstHit(text, from) :: !OccursAt(text, from, e)
    ensures FirstHit(text, from) < |text| ==> OccursAt(text, from, FirstHit(text, from))
    decreases |text|
  {
    if |text| >= |from| && !OccursAt(text, from, 0) {
      FirstHitIsFirst(text[1..], from);
      forall e: nat | 0 < e
        ensures OccursAt(text, from, e) <==> OccursAt(text[1..], from, e - 1)
      {
        OccursShift(text, from, 1, e - 1);
      }
    }
  }

  lemma {:induction false} ReplaceWithoutHit(text: string, from: string, to: string)
    requires from != "" && FirstHit(text, from) == |text|
    ensures Replace(text, from, to) == text
    decreases |text|
  {
    if |text| >= |from| && !OccursAt(text, from, 0) {
      ReplaceWithoutHit(text[1..], from, to);
      assert text == [text[0]] + text[1..];
    }
  }

  lemma OneOn(text: string, from: string, to: string)
    requires from != "" && |text| >= |from| && !OccursAt(text, from, 0)
    ensures FirstHit(text, from) == 1 + FirstHit(text[1..], from)
    ensures Replace(text, from, to) == [text[0]] + Replace(text[1..], from, to)
  {
  }

  /** Characters at which nothing starts are copied. */
  lemma {:induction false} ReplaceCopies(text: string, from: string, to: string, k: nat)
    requires from != "" && k + |from| <= |text| && forall e: nat | e < k :: !OccursAt(text, from, e)
    ensures Replace(text, from, to) == text[..k] + Replace(text[k..], from, to)
    decreases k
  {
    if k == 0 {
      assert text[..0] + text[0..] == text;
    } else {
      ReplaceCopies(text, from, to, k - 1);
      CopiesOne(text, from, to, k - 1);
      OneMore(text, k - 1, Replace(text[k..], from, to));
    }
  }

  lemma CopiesOne(text: string, from: string, to: string, k: nat)
    requires from != "" && k + |from| < |text| && !OccursAt(text, from, k)
    ensures Replace(text[k..], from, to) == [text[k]] + Replace(text[k + 1..], from, to)
  {
    OccursShift(text, from, k, 0);
    OneOn(text[k..], from, to);
    assert text[k..][1..] == text[k + 1..];
  }

  lemma OneMore(text: string, k: nat, rest: string)
    requires k < |text|
    ensures text[..k] + ([text[k]] + rest) == text[..k + 1] + rest
  {
  }

  lemma ReplaceAtFirstHit(text: string, from: string, to: string)
    requires from != "" && FirstHit(text, from) < |text|
    ensures FirstHit(text, from) + |from| <= |text|
    ensures var k := FirstHit(text, from);
            Replace(text, from, to) == text[..k] + to + Replace(text[k + |from|..], from, to)
  {
    var k := FirstHit(text, from);
    FirstHitIsFirst(text, from);
    ReplaceCopies(text, from, to, k);
    OccursShift(text, from, k, 0);
    assert text[k..][|from|..] == text[k + |from|..];
    assert text[..k] + (to + Replace(text[k + |from|..], from, to)) == text[..k] + to + Replace(text[k + |from|..], from, to);
  }

  /** An occurrence that starts inside the first of two pieces. */
  lemma OccurrenceInPieces(a: string, b: string, p: string, k: nat)
    requires OccursAt(a + b, p, k)
    ensures k < |a| ==> Overlaps(a, p, k)
    ensures k >= |a| ==> OccursAt(b, p, k - |a|)
  {
    forall i | 0 <= i < |p|
      ensures k + i < |a| ==> a[k + i] == p[i]
      ensures k + i >= |a| ==> b[k + i - |a|] == p[i]
    {
      assert (a + b)[k + i] == p[i];
    }
  }

  /** An occurrence at the start that runs past the text before the first replacement. */
  lemma OccurrenceAtStart(a: string, to: string, rest: string, p: string)
    requires OccursAt(a + to + rest, p, 0) && |a| < |p| && to != ""
    ensures Overlaps(p, to, |a|) && p[..|a|] == a
  {
    var r := a + to + rest;
    forall i | 0 <= i < |p|
      ensures i < |a| ==> a[i] == p[i]
      ensures |a| <= i < |a| + |to| ==> to[i - |a|] == p[i]
    {
      assert r[0 + i] == p[i];
    }
    forall i | 0 <= i < |to| && |a| + i < |p|
      ensures p[|a| + i] == to[i]
    {
      assert to[(|a| + i) - |a|] == p[|a| + i];
    }
  }

  /** Text cut at its first hit and completed with `from` has no earlier hit. */
  lemma NoEarlierHit(text: string, from: string, k: nat)
    requires from != "" && k == FirstHit(text, from) < |text|
    ensures forall e: nat | e < k :: !OccursAt(text[..k] + from, from, e)
  {
    FirstHitIsFirst(text, from);
    assert k + |from| <= |text|;
    forall e: nat | e < k && OccursAt(text[..k] + from, from, e)
      ensures OccursAt(text, from, e)
    {
      forall i | 0 <= i < |from|
        ensures text[e + i] == from[i]
      {
        assert (text[..k] + from)[e + i] == from[i];
        if e + i >= k {
          assert text[k + (e + i - k)] == from[e + i - k];
        }
      }
    }
  }

  lemma StartKept(a: string, b: string, c: string, p: string)
    requires OccursAt(a + b, p, 0) && |p| <= |a|
    ensures OccursAt(a + c, p, 0)
  {
    forall i | 0 <= i < |p|
      ensures (a + c)[0 + i] == p[i]
    {
      assert (a + b)[0 + i] == p[i];
    }
  }

  /** An occurrence at the very start of the result was at the start of the text. */
  lemma NoneAtStart(text: string, p: string, from: string, to: string)
    requires SeamFree(p, from, to) && to != "" && !OccursAt(text, from, 0)
    requires OccursAt(Replace(text, from, to), p, 0)
    ensures OccursAt(text, p, 0)
  {
    var k := FirstHit(text, from);
    FirstHitIsFirst(text, from);
    if k < |text| {
      ReplaceAtFirstHit(text, from, to);
      var rest := Replace(text[k + |from|..], from, to);
      if k < |p| {
        OccurrenceAtStart(text[..k], to, rest, p);
        NoEarlierHit(text, from, k);
      } else {
        assert text[..k] + to + rest == text[..k] + (to + rest);
        StartKept(text[..k], to + rest, text[k..], p);
        assert text == text[..k] + text[k..];
      }
    } else {
      ReplaceWithoutHit(text, from, to);
    }
  }

  /** If the seams are safe for `p` and the text is free of it, or it is what is being replaced, so is
      the result. */
  lemma {:induction false} ReplaceKeepsOut(text: string, p: string, from: string, to: string)
    requires SeamFree(p, from, to) && to != "" && (p == from || !Occurs(text, p))
    ensures !Occurs(Replace(text, from, to), p)
    decreases |text|
  {
    var r := Replace(text, from, to);
    if |text| < |from| {
    } else if OccursAt(text, from, 0) {
      var t := text[|from|..];
      forall k: nat
        ensures OccursAt(t, p, k) <==> OccursAt(text, p, |from| + k)
      {
        OccursShift(text, p, |from|, k);
      }
      ReplaceKeepsOut(t, p, from, to);
      forall k: nat | OccursAt(r, p, k)
        ensures (k < |to| && Overlaps(to, p, k)) || (k >= |to| && OccursAt(Replace(t, from, to), p, k - |to|))
      {
        OccurrenceInPieces(to, Replace(t, from, to), p, k);
      }
    } else {
      var t := text[1..];
      forall k: nat
        ensures OccursAt(t, p, k) <==> OccursAt(text, p, 1 + k)
      {
        OccursShift(text, p, 1, k);
      }
      ReplaceKeepsOut(t, p, from, to);
      if OccursAt(r, p, 0) {
        NoneAtStart(text, p, from, to);
      }
      forall k: nat | OccursAt(r, p, k) && k > 0
        ensures OccursAt(Replace(t, from, to), p, k - 1)
      {
        OccurrenceInPieces([text[0]], Replace(t, from, to), p, k);
      }
    }
  }

  /** Text without the old base is left alone. */
  lemma {:induction false} NothingToReplace(text: string, from: string, to: string)
    requires from != "" && !Occurs(text, from)
    ensures Replace(text, from, to) == text
  {
    FirstHitIsFirst(text, from);
    ReplaceWithoutHit(text, from, to);
  }

  // ---------------------------------------------------------------------- bases with one scheme

  predicate ColonSlashAt(s: string, i: nat) {
    i + 1 < |s| && s[i] == ':' && s[i + 1] == '/'
  }

  /** Where the scheme of an http(s) URL ends. */
  function SchemeEnd(s: string): nat {
    if Starts(s, "http://") then 4 else 5
  }

  /** A base with its slash in which `:/` occurs once, in the scheme. */
  ghost predicate OneScheme(b: string) {
    IsHttp(b) && b[|b| - 1] == '/' && forall i: nat :: ColonSlashAt(b, i) ==> i == SchemeEnd(b)
  }

  lemma SchemeLetters(b: string)
    requires IsHttp(b)
    ensures |b| >= 7 && b[0] == 'h' && b[1] == 't' && ColonSlashAt(b, SchemeEnd(b))
    ensures SchemeEnd(b) + 2 <= |b| && forall i | 0 <= i <= SchemeEnd(b) :: b[i] != '/'
  {
    var s := if Starts(b, "http://") then "http://" else "https://";
    assert forall i | 0 <= i < |s| :: b[i] == b[..|s|][i] == s[i];
  }

  /** Where a URL laid on a text leaves its mark: its `:/` if that fits, and else, at the end of the
      text, a letter of its scheme. */
  lemma OverlapMark(x: string, y: string, d: nat)
    requires IsHttp(y) && Overlaps(x, y, d)
    ensures x[d] == 'h'
    ensures if d + SchemeEnd(y) + 1 < |x| then ColonSlashAt(x, d + SchemeEnd(y)) else x[|x| - 1] != '/'
  {
    SchemeLetters(y);
    var c := SchemeEnd(y);
    assert x[d + 0] == y[0];
    if d + c + 1 < |x| {
      assert x[d + c] == y[c] && x[d + (c + 1)] == y[c + 1];
    } else {
      assert x[d + (|x| - 1 - d)] == y[|x| - 1 - d];
    }
  }

  /** Two such bases meet nowhere but at their starts: further in, either the second `:/` shows, or a
      slash meets the letters of a scheme. */
  lemma SchemesDoNotOverlap(x: string, y: string, d: nat)
    requires OneScheme(x) && OneScheme(y) && 0 < d
    ensures !Overlaps(x, y, d)
  {
    SchemeLetters(x);
    if Overlaps(x, y, d) {
      OverlapMark(x, y, d);
    }
  }

  lemma OverlapAtStart(x: string, y: string)
    requires Overlaps(x, y, 0)
    ensures Starts(x, y) || Starts(y, x)
  {
    forall i | 0 <= i < |x| && i < |y|
      ensures x[i] == y[i]
    {
      assert x[0 + i] == y[i];
    }
  }

  lemma SchemesSeamFree(p: string, from: string, to: string)
    requires OneScheme(p) && OneScheme(from) && OneScheme(to) && !Starts(to, p) && !Starts(p, to)
    ensures SeamFree(p, from, to)
  {
    forall d: nat | 0 < d
      ensures !Overlaps(to, p, d) && !Overlaps(p, to, d)
    {
      SchemesDoNotOverlap(to, p, d);
      SchemesDoNotOverlap(p, to, d);
    }
    if Overlaps(to, p, 0) {
      OverlapAtStart(to, p);
    }
  }

  /** Old base after old base, as the middleware translates a body or a query value. */
  function TranslateText(text: string, olds: seq<string>, new_: string): string {
    if olds == [] then text
    else RewriteText(TranslateText(text, olds[..|olds| - 1], new_), olds[|olds| - 1], new_)
  }

  ghost predicate PreviousBase(o: string, n: string) {
    && CheckBases(o, n) && TrimSlashes(o) == o && TrimSlashes(n) == n
    && OneScheme(o + "/") && OneScheme(n + "/")
  }

  /** After the fold no `<old>/` is left anywhere in the text, not even across the seams of the
      replacements. */
  lemma {:induction false} TranslationLeavesNoOldBase(text: string, olds: seq<string>, new_: string)
    requires forall o | o in olds :: PreviousBase(o, new_)
    ensures forall o | o in olds :: !Occurs(TranslateText(text, olds, new_), o + "/")
  {
    if olds != [] {
      var rest, last := olds[..|olds| - 1], olds[|olds| - 1];
      assert olds == rest + [last];
      TranslationLeavesNoOldBase(text, rest, new_);
      assert PreviousBase(last, new_);
      forall o | o in olds
        ensures !Occurs(TranslateText(text, olds, new_), o + "/")
      {
        assert PreviousBase(o, new_);
        AcceptedBasesApart(o, new_);
        SchemesSeamFree(o + "/", last + "/", new_ + "/");
        if o in rest {
          ReplaceKeepsOut(TranslateText(text, rest, new_), o + "/", last + "/", new_ + "/");
        } else {
          ReplaceKeepsOut(TranslateText(text, rest, new_), last + "/", last + "/", new_ + "/");
        }
      }
    }
  }

  lemma {:induction false} NothingToTranslate(text: string, olds: seq<string>, new_: string)
    requires forall o | o in olds :: !Occurs(text, o + "/")
    ensures TranslateText(text, olds, new_) == text
  {
    if olds != [] {
      NothingToTranslate(text, olds[..|olds| - 1], new_);
      NothingToReplace(text, olds[|olds| - 1] + "/", new_ + "/");
    }
  }

  /** Translating twice is translating once. */
  lemma TranslationIdempotent(text: string, olds: seq<string>, new_: string)
    requires forall o | o in olds :: PreviousBase(o, new_)
    ensures TranslateText(TranslateText(text, olds, new_), olds, new_) == TranslateText(text, olds, new_)
  {
    TranslationLeavesNoOldBase(text, olds, new_);
    NothingToTranslate(TranslateText(text, olds, new_), olds, new_);
  }

  // ------------------------------------------------------- exactly when a second pass is idle

  /** Replacing `from` by `to` a second time changes nothing, whatever the text. */
  ghost predicate SecondPassIdle(from: string, to: string)
    requires from != ""
  {
    forall text :: !Occurs(Replace(text, from, to), from)
  }

  lemma {:induction false} ShortUntouched(text: string, from: string, to: string)
    requires |text| < |from|
    ensures Replace(text, from, to) == text
  {
  }

  /** A seam at the end of a copy shows in `from` followed by what completes it. */
  lemma TailSeamShows(from: string, to: string, d: nat)
    requires from != "" && 0 < d && Overlaps(to, from, d)
    ensures !SecondPassIdle(from, to)
  {
    var m := Min(|to| - d, |from|);
    var tail := from[m..];
    var text := from + tail;
    assert OccursAt(text, from, 0);
    assert text[|from|..] == tail;
    ShortUntouched(tail, from, to);
    var r := to + tail;
    assert Replace(text, from, to) == r;
    forall i | 0 <= i < |from|
      ensures r[d + i] == from[i]
    {
      if i < m {
        assert to[d + i] == from[i];
      }
    }
    assert OccursAt(r, from, d);
    assert Occurs(Replace(text, from, to), from);
  }

  lemma ReplacedOnce(head: string, from: string, tail: string, to: string)
    requires from != "" && |tail| < |from|
    requires forall e: nat | e < |head| :: !OccursAt(head + from, from, e)
    ensures Replace(head + from + tail, from, to) == head + to + tail
  {
    var text, d := head + from + tail, |head|;
    assert text[..d] == head && text[d + |from|..] == tail;
    assert OccursAt(text, from, d);
    FirstHitAt(text, from, d);
    ReplaceAtFirstHit(text, from, to);
    ShortUntouched(tail, from, to);
  }

  lemma CompletedOccurs(from: string, to: string, d: nat, m: nat)
    requires m <= |to| && d + m <= |from| && Overlaps(from, to, d) && (m == |to| || d + m == |from|)
    ensures OccursAt(from[..d] + to + from[d + m..], from, 0)
  {
    var r := from[..d] + to + from[d + m..];
    forall i | 0 <= i < |from|
      ensures r[0 + i] == from[i]
    {
      if d <= i < d + m {
        assert from[d + (i - d)] == to[i - d];
      }
    }
  }

  /** A seam at the start of a copy shows in the text before it followed by `from`. */
  lemma HeadSeamShows(from: string, to: string, d: nat)
    requires from != "" && 0 < d && Overlaps(from, to, d) && to != ""
    requires forall e: nat | e < d :: !OccursAt(from[..d] + from, from, e)
    ensures !SecondPassIdle(from, to)
  {
    var m := Min(|from| - d, |to|);
    ReplacedOnce(from[..d], from, from[d + m..], to);
    CompletedOccurs(from, to, d, m);
    assert Occurs(Replace(from[..d] + from + from[d + m..], from, to), from);
  }

  lemma OccursInCut(text: string, from: string, d: nat, k: nat)
    requires k < d && d + |from| <= |text| && OccursAt(text, from, d) && OccursAt(text, from, k)
    ensures OccursAt(text[..d] + from, from, k)
  {
    forall i | 0 <= i < |from|
      ensures (text[..d] + from)[k + i] == from[i]
    {
      assert text[k + i] == from[i];
      if k + i >= d {
        assert text[d + (k + i - d)] == from[k + i - d];
      }
    }
  }

  lemma FirstHitAt(text: string, from: string, d: nat)
    requires from != "" && OccursAt(text, from, d)
    requires forall e: nat | e < d :: !OccursAt(text[..d] + from, from, e)
    ensures FirstHit(text, from) == d
  {
    FirstHitIsFirst(text, from);
    var k := FirstHit(text, from);
    if k < d {
      OccursInCut(text, from, d, k);
    }
  }

  /** A second pass is idle on every text exactly when the two strings have no seam. */
  lemma SecondPassIdleIff(from: string, to: string)
    requires from != "" && to != "" && !Overlaps(to, from, 0)
    ensures SecondPassIdle(from, to) <==> SeamFree(from, from, to)
  {
    if SeamFree(from, from, to) {
      forall text
        ensures !Occurs(Replace(text, from, to), from)
      {
        ReplaceKeepsOut(text, from, from, to);
      }
    } else if TailSeam(from, to) {
      var d: nat :| 0 < d && Overlaps(to, from, d);
      TailSeamShows(from, to, d);
    } else {
      var d: nat :| 0 < d && Overlaps(from, to, d) && forall e: nat | e < d :: !OccursAt(from[..d] + from, from, e);
      HeadSeamShows(from, to, d);
    }
  }
}
