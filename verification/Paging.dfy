/** Keyset paging over a set of records that changes between pages (src/api/mod.rs 225-320). */
module Paging {
  import opened Options
  import opened Text

  const DEFAULT_LIMIT: nat := 25
  const MAX_LIMIT: nat := 200

  datatype Request = Request(cursor: Option<string>, limit: Option<string>)
  datatype Page = Page(iris: seq<string>, next: Option<string>)

  /** Whatever was asked for, a page holds between 1 and 200 records; what is not a number means 25. */
  function Limit(r: Request): (n: nat)
    ensures 1 <= n <= MAX_LIMIT
  {
    var asked := if r.limit.None? then DEFAULT_LIMIT else ParseNumber(r.limit.value, 0xFFFF_FFFF_FFFF_FFFF).GetOr(DEFAULT_LIMIT);
    Max(1, Min(asked, MAX_LIMIT))
  }

  /** The limit asked for is the limit, from 1 to 200; 0 means 1, more means 200, and what is no number, or too large
      for one, 25. */
  lemma LimitExactly(r: Request)
    ensures Limit(r) == match r.limit
              case None => 25
              case Some(text) =>
                (match ParseNumber(text, 0xFFFF_FFFF_FFFF_FFFF)
                 case None => 25
                 case Some(n) => if 1 <= n <= 200 then n else if n == 0 then 1 else 200)
  {
  }

  /** An empty cursor is no cursor. */
  predicate After(cursor: Option<string>, iri: string) {
    cursor.None? || cursor.value == "" || Less(iri, cursor.value)
  }

  function Matching(s: set<string>, cursor: Option<string>): set<string> {
    set x | x in s && After(cursor, x)
  }

  /** A cursor that is given and not empty leaves what is less than it. */
  lemma MatchingExactly(s: set<string>, cursor: Option<string>, x: string)
    ensures x in Matching(s, cursor) <==> x in s && (cursor.None? || cursor.value == "" || Less(x, cursor.value))
  {
  }

  /** The first `n` of a set in descending order. */
  ghost predicate IsTop(rows: seq<string>, s: set<string>, n: nat) {
    && Descending(rows)
    && |rows| == Min(n, |s|)
    && (forall x | x in rows :: x in s)
    && forall x, i | x in s && x !in rows && 0 <= i < |rows| :: Less(x, rows[i])
  }

  /** A page of what matches: all of it, or its `limit` greatest and a cursor naming the last of them. */
  ghost predicate IsPage(page: Page, matching: set<string>, limit: nat) {
    && Descending(page.iris)
    && (forall x | x in page.iris :: x in matching)
    && (page.next == None ==> forall x | x in matching :: x in page.iris)
    && (page.next != None ==>
          && |page.iris| == limit > 0 && page.next == Some(page.iris[limit - 1])
          && (exists x :: x in matching && x !in page.iris)
          && forall x | x in matching && x !in page.iris :: Less(x, page.next.value))
  }

  method Greatest(s: set<string>) returns (m: string)
    requires s != {}
    ensures m in s && forall x | x in s && x != m :: Less(x, m)
  {
    m :| m in s;
    var left := s - {m};
    while left != {}
      invariant left <= s && m in s && m !in left
      invariant forall x | x in s - left && x != m :: Less(x, m)
    {
      var x :| x in left;
      left := left - {x};
      LessTotal(x, m);
      if Less(m, x) {
        forall y | y in s - left && y != x ensures Less(y, x) {
          if y != m {
            LessTransitive(y, m, x);
          }
        }
        m := x;
      }
    }
  }

  /** `ORDER BY DESC(STR(?s)) LIMIT n`. */
  method Select(s: set<string>, n: nat) returns (rows: seq<string>)
    ensures IsTop(rows, s, n)
  {
    rows := [];
    var left := s;
    while left != {} && |rows| < n
      invariant left <= s && |rows| <= n && |rows| + |left| == |s|
      invariant forall x | x in s :: x in left <==> x !in rows
      invariant forall x | x in rows :: x in s
      invariant Descending(rows)
      invariant forall x, i | x in left && 0 <= i < |rows| :: Less(x, rows[i])
    {
      var m := Greatest(left);
      left := left - {m};
      rows := rows + [m];
    }
  }

  /** One row more than the page is fetched, to learn whether another page exists. */
  method PageIris(s: set<string>, r: Request) returns (page: Page)
    ensures IsPage(page, Matching(s, r.cursor), Limit(r))
  {
    var limit, matching := Limit(r), Matching(s, r.cursor);
    var rows := Select(matching, limit + 1);
    AllRowsIff(rows, matching, limit + 1);
    if |rows| > limit {
      var iris := rows[..limit];
      page := Page(iris, Some(iris[limit - 1]));
      LessIrreflexive(rows[limit]);
      assert rows[limit] !in iris;
      forall x | x in matching && x !in iris ensures Less(x, iris[limit - 1]) {
        if x in rows {
          var i :| 0 <= i < |rows| && rows[i] == x;
        }
      }
    } else {
      page := Page(rows, None);
    }
  }

  lemma AllRowsIff(rows: seq<string>, s: set<string>, n: nat)
    requires IsTop(rows, s, n)
    ensures |rows| < n ==> forall x | x in s :: x in rows
  {
    var listed := set x | x in rows;
    Distinct(rows);
    if |rows| < n && exists x :: x in s && x !in rows {
      var x :| x in s && x !in rows;
      assert listed + {x} <= s;
      SubsetSize(listed + {x}, s);
    }
  }

  lemma {:induction false} Distinct(rows: seq<string>)
    requires Descending(rows)
    ensures |set x | x in rows| == |rows|
  {
    if rows != [] {
      var front, last := rows[..|rows| - 1], rows[|rows| - 1];
      Distinct(front);
      assert rows == front + [last];
      LessIrreflexive(last);
      assert (set x | x in rows) == (set x | x in front) + {last};
    }
  }

  // ------------------------------------------------------------------------------ whole walks

  /** A walk: each page follows the cursor of the one before, over whatever matches by then and with
      whatever limit is asked for by then. The first is asked for without a cursor. */
  ghost predicate Walk(sets: seq<set<string>>, limits: seq<nat>, pages: seq<Page>) {
    && |sets| == |limits| == |pages| > 0
    && (forall k | 0 <= k < |sets| :: "" !in sets[k])
    && (forall k | 0 <= k < |pages| - 1 :: pages[k].next.Some?)
    && forall k | 0 <= k < |pages| :: PageAt(sets, limits, pages, k)
  }

  ghost predicate PageAt(sets: seq<set<string>>, limits: seq<nat>, pages: seq<Page>, k: nat)
    requires |sets| == |limits| == |pages| && k < |pages|
  {
    IsPage(pages[k], Matching(sets[k], CursorOf(pages, k)), limits[k])
  }

  function CursorOf(pages: seq<Page>, k: nat): Option<string>
    requires k <= |pages|
  {
    if k == 0 then None else pages[k - 1].next
  }

  function Returned(pages: seq<Page>): seq<string> {
    if pages == [] then [] else Returned(pages[..|pages| - 1]) + pages[|pages| - 1].iris
  }

  lemma WalkPrefix(sets: seq<set<string>>, limits: seq<nat>, pages: seq<Page>)
    requires Walk(sets, limits, pages) && |pages| > 1
    ensures Walk(sets[..|sets| - 1], limits[..|limits| - 1], pages[..|pages| - 1])
  {
    var n := |pages| - 1;
    forall k | 0 <= k < n
      ensures PageAt(sets[..n], limits[..n], pages[..n], k)
    {
      assert PageAt(sets, limits, pages, k);
      assert CursorOf(pages[..n], k) == CursorOf(pages, k);
    }
  }

  lemma CursorIsListed(sets: seq<set<string>>, limits: seq<nat>, pages: seq<Page>, k: nat)
    requires Walk(sets, limits, pages) && k < |pages| && pages[k].next.Some?
    ensures pages[k].next.value in pages[k].iris && pages[k].next.value != ""
  {
    assert PageAt(sets, limits, pages, k);
    assert pages[k].next.value == pages[k].iris[limits[k] - 1];
  }

  /** All pages together run strictly downwards, and end at the last cursor if there is one. */
  lemma {:induction false} WalkDescends(sets: seq<set<string>>, limits: seq<nat>, pages: seq<Page>)
    requires Walk(sets, limits, pages)
    ensures Descending(Returned(pages)) && AboveLast(pages)
    decreases |pages|
  {
    var n := |pages| - 1;
    var page := pages[n];
    assert PageAt(sets, limits, pages, n);
    if n == 0 {
      assert Returned(pages[..0]) == [];
      assert Returned(pages) == page.iris;
    } else {
      WalkPrefix(sets, limits, pages);
      WalkDescends(sets[..n], limits[..n], pages[..n]);
      CursorIsListed(sets, limits, pages, n - 1);
      Lower(Returned(pages[..n]), page.iris, pages[n - 1].next.value);
    }
    if page.next.Some? {
      LastCursorIsLeast(sets, limits, pages);
    }
  }

  ghost predicate AboveLast(pages: seq<Page>)
    requires pages != []
  {
    var last := pages[|pages| - 1].next;
    last.Some? ==> forall x | x in Returned(pages) && x != last.value :: Less(last.value, x)
  }

  lemma LastCursorIsLeast(sets: seq<set<string>>, limits: seq<nat>, pages: seq<Page>)
    requires Walk(sets, limits, pages) && pages[|pages| - 1].next.Some? && Descending(Returned(pages))
    ensures AboveLast(pages)
  {
    var n := |pages| - 1;
    assert PageAt(sets, limits, pages, n);
    var all := Returned(pages);
    assert all[|all| - 1] == pages[n].next.value;
    forall x | x in all && x != pages[n].next.value ensures Less(pages[n].next.value, x) {
      LastIsLeast(all, x);
    }
  }

  lemma LastIsLeast(s: seq<string>, x: string)
    requires Descending(s) && x in s && x != s[|s| - 1]
    ensures Less(s[|s| - 1], x)
  {
    var i :| 0 <= i < |s| && s[i] == x;
  }

  lemma Lower(a: seq<string>, b: seq<string>, c: string)
    requires Descending(a) && Descending(b)
    requires forall x | x in a && x != c :: Less(c, x)
    requires forall x | x in b :: Less(x, c)
    ensures Descending(a + b)
  {
    var s := a + b;
    forall i, j | 0 <= i < j < |s| ensures Less(s[j], s[i]) {
      if i < |a| <= j {
        assert s[i] in a && s[j] in b;
        if s[i] != c {
          LessTransitive(s[j], c, s[i]);
        }
      }
    }
  }

  /** The page a walk would show this IRI on: below the cursor it was asked with, not below its own. */
  predicate Covers(pages: seq<Page>, k: nat, x: string)
    requires k < |pages|
  {
    (k == 0 || CursorOf(pages, k).None? || Less(x, CursorOf(pages, k).value))
    && (pages[k].next.None? || !Less(x, pages[k].next.value))
  }

  /** An IRI is on a page exactly if that page covers it and it matched when the page was fetched. */
  lemma OnPageIff(sets: seq<set<string>>, limits: seq<nat>, pages: seq<Page>, k: nat, x: string)
    requires Walk(sets, limits, pages) && k < |pages|
    ensures x in pages[k].iris <==> Covers(pages, k, x) && x in sets[k]
  {
    var page, matching := pages[k], Matching(sets[k], CursorOf(pages, k));
    assert PageAt(sets, limits, pages, k);
    if k > 0 {
      CursorIsListed(sets, limits, pages, k - 1);
    }
    if x in page.iris && page.next.Some? {
      LessIrreflexive(x);
      if x != page.next.value {
        LastIsLeast(page.iris, x);
        Asymmetric(page.next.value, x);
      }
    }
  }

  lemma Asymmetric(a: string, b: string)
    requires Less(a, b)
    ensures !Less(b, a)
  {
    LessIrreflexive(a);
    if Less(b, a) {
      LessTransitive(a, b, a);
    }
  }

  lemma {:induction false} ReturnedIsSomePage(pages: seq<Page>, x: string)
    ensures x in Returned(pages) <==> exists k :: 0 <= k < |pages| && x in pages[k].iris
  {
    if pages != [] {
      var n := |pages| - 1;
      ReturnedIsSomePage(pages[..n], x);
      if k :| 0 <= k < n && x in pages[k].iris {
        assert x in pages[..n][k].iris;
      }
    }
  }

  /** In a walk that has ended, some page covers every IRI. */
  lemma {:induction false} SomePageCovers(sets: seq<set<string>>, limits: seq<nat>, pages: seq<Page>, x: string, from_: nat)
    requires Walk(sets, limits, pages) && pages[|pages| - 1].next.None? && from_ < |pages|
    requires from_ == 0 || Less(x, pages[from_ - 1].next.GetOr(""))
    ensures exists k :: 0 <= k < |pages| && Covers(pages, k, x)
    decreases |pages| - from_
  {
    if !Covers(pages, from_, x) {
      SomePageCovers(sets, limits, pages, x, from_ + 1);
    }
  }

  /** Following the cursors to the end while records come and go: nothing is returned twice, the order is
      strictly descending across pages, an IRI is returned exactly if it matched when the page covering it
      was fetched, and so every IRI that matched throughout is returned, exactly once. */
  lemma WalkIsExact(sets: seq<set<string>>, limits: seq<nat>, pages: seq<Page>, x: string)
    requires Walk(sets, limits, pages) && pages[|pages| - 1].next.None?
    ensures Descending(Returned(pages)) && multiset(Returned(pages))[x] <= 1
    ensures x in Returned(pages) <==> exists k :: 0 <= k < |pages| && Covers(pages, k, x) && x in sets[k]
    ensures (forall s | s in sets :: x in s) ==> multiset(Returned(pages))[x] == 1
  {
    WalkDescends(sets, limits, pages);
    OnceIn(Returned(pages), x);
    ReturnedIsSomePage(pages, x);
    forall k | 0 <= k < |pages| ensures x in pages[k].iris <==> Covers(pages, k, x) && x in sets[k] {
      OnPageIff(sets, limits, pages, k, x);
    }
    SomePageCovers(sets, limits, pages, x, 0);
  }

  lemma {:induction false} OnceIn(s: seq<string>, x: string)
    requires Descending(s)
    ensures multiset(s)[x] == if x in s then 1 else 0
  {
    if s != [] {
      var n := |s| - 1;
      OnceIn(s[..n], x);
      assert s == s[..n] + [s[n]];
      LessIrreflexive(s[n]);
    }
  }
}
