/** Search hits on their way back to the registry that asked, and the merge of several copies of
    one record that the origin does (src/ops/federation.rs). */
module Copies {
  import opened Options
  import opened Text

  /** `mine` says the record's origin kind is `local`, `live` that its resolve status is `live`. */
  datatype Hit = Hit(iri: string, score: int, mine: bool, live: bool, cachedAt: Option<int>,
                     hops: nat, via: Option<string>, alsoFrom: seq<string>)

  /** A hit that arrived in the response of `peer`, seen from here. */
  function Relayed(h: Hit, peer: string): (r: Hit)
    ensures r.iri == h.iri && r.score == h.score && r.hops == h.hops + 1 && r.via == Some(peer) && !r.mine
  {
    if h.hops == 0 && h.mine then
      h.(hops := h.hops + 1, via := Some(peer), mine := false, live := true, cachedAt := None)
    else
      h.(hops := h.hops + 1, via := Some(peer), mine := false)
  }

  /** A hit that comes straight from the registry whose record it is counts as live, and as cached nowhere; any other
      keeps what it says of that. Each crossing is one hop more. */
  lemma RelayedExactly(h: Hit, peer: string)
    ensures var r := Relayed(h, peer);
            && r.iri == h.iri && r.score == h.score && r.alsoFrom == h.alsoFrom
            && !r.mine && r.hops == h.hops + 1 && r.via == Some(peer)
            && (h.mine && h.hops == 0 ==> r.live && r.cachedAt == None)
            && (!h.mine || h.hops > 0 ==> r.live == h.live && r.cachedAt == h.cachedAt)
  {
  }

  predicate CachedBefore(a: Option<int>, b: Option<int>) {
    b.Some? && (a.None? || a.value < b.value)
  }

  predicate Home(h: Hit) {
    h.mine || h.live
  }

  /** `a` is a worse copy than `b`: the home registry's copy first, then the fresher, then the
      one that crossed fewer hops. */
  predicate Worse(a: Hit, b: Hit) {
    if Home(a) != Home(b) then Home(b)
    else if a.cachedAt != b.cachedAt then CachedBefore(a.cachedAt, b.cachedAt)
    else b.hops < a.hops
  }

  /** The index of the last copy no other copy beats. */
  function Best(group: seq<Hit>): (b: nat)
    requires group != []
    ensures b < |group|
    ensures forall j | 0 <= j < |group| :: !Worse(group[b], group[j])
    ensures forall j | b < j < |group| :: Worse(group[j], group[b])
  {
    var n := |group| - 1;
    if n == 0 then 0
    else
      var b := Best(group[..n]);
      if Worse(group[n], group[b]) then b else n
  }

  function Source(h: Hit, me: string): string {
    h.via.GetOr(me)
  }

  /** The sources of the beaten copies, other than the winner's own. */
  function OtherSources(group: seq<Hit>, mine: string, me: string): seq<string> {
    if group == [] then []
    else
      var rest := OtherSources(group[1..], mine, me);
      if Source(group[0], me) == mine then rest else [Source(group[0], me)] + rest
  }

  lemma {:induction false} OtherSourcesMembers(group: seq<Hit>, mine: string, me: string)
    ensures forall h | h in group && Source(h, me) != mine :: Source(h, me) in OtherSources(group, mine, me)
    ensures forall y | y in OtherSources(group, mine, me) :: y != mine && exists h :: h in group && Source(h, me) == y
  {
    if group != [] {
      OtherSourcesMembers(group[1..], mine, me);
      forall y | y in OtherSources(group, mine, me)
        ensures y != mine && exists h :: h in group && Source(h, me) == y
      {
        if y in OtherSources(group[1..], mine, me) {
          var h :| h in group[1..] && Source(h, me) == y;
          assert h in group;
        } else {
          assert group[0] in group;
        }
      }
    }
  }

  /** The one row a record gets: its best copy, naming where the beaten copies came from. */
  function Row(group: seq<Hit>, me: string): Hit
    requires group != []
  {
    var b := Best(group);
    group[b].(alsoFrom := SortDedup(OtherSources(group[..b] + group[b + 1..], Source(group[b], me), me)))
  }

  function Group(hits: seq<Hit>, iri: string): seq<Hit> {
    if hits == [] then []
    else
      var n := |hits| - 1;
      if hits[n].iri == iri then Group(hits[..n], iri) + [hits[n]] else Group(hits[..n], iri)
  }

  /** The records in the order they first arrived. */
  function FirstArrivals(hits: seq<Hit>): seq<string> {
    if hits == [] then []
    else
      var n := |hits| - 1;
      var r := FirstArrivals(hits[..n]);
      if hits[n].iri in r then r else r + [hits[n].iri]
  }

  lemma {:induction false} GroupMembers(hits: seq<Hit>, iri: string)
    ensures forall h :: h in Group(hits, iri) <==> h in hits && h.iri == iri
  {
    if hits != [] {
      var n := |hits| - 1;
      GroupMembers(hits[..n], iri);
      assert hits == hits[..n] + [hits[n]];
    }
  }

  lemma {:induction false} ArrivalsMembers(hits: seq<Hit>)
    ensures forall h | h in hits :: h.iri in FirstArrivals(hits)
    ensures forall i | i in FirstArrivals(hits) :: Group(hits, i) != []
    ensures forall i | i !in FirstArrivals(hits) :: Group(hits, i) == []
    ensures forall i, j | 0 <= i < j < |FirstArrivals(hits)| :: FirstArrivals(hits)[i] != FirstArrivals(hits)[j]
  {
    if hits != [] {
      var n := |hits| - 1;
      ArrivalsMembers(hits[..n]);
      assert hits == hits[..n] + [hits[n]];
    }
  }

  function Rows(hits: seq<Hit>, order: seq<string>, me: string): (r: seq<Hit>)
    requires forall i | i in order :: Group(hits, i) != []
    ensures |r| == |order|
    ensures forall k | 0 <= k < |r| :: r[k] == Row(Group(hits, order[k]), me)
  {
    seq(|order|, k requires 0 <= k < |order| => Row(Group(hits, order[k]), me))
  }

  function Merged(hits: seq<Hit>, me: string): seq<Hit> {
    ArrivalsMembers(hits);
    Rows(hits, FirstArrivals(hits), me)
  }

  /** What the grouping pass holds after `n` hits. */
  ghost predicate Grouped(hits: seq<Hit>, n: nat, order: seq<string>, copies: map<string, seq<Hit>>)
    requires n <= |hits|
  {
    && order == FirstArrivals(hits[..n])
    && copies.Keys == (set i | i in order)
    && forall i | i in copies.Keys :: copies[i] == Group(hits[..n], i)
  }

  lemma GroupedStep(hits: seq<Hit>, n: nat, order: seq<string>, copies: map<string, seq<Hit>>)
    requires n < |hits| && Grouped(hits, n, order, copies)
    ensures var i := hits[n].iri;
            if i in copies.Keys then copies[i] != [] && Grouped(hits, n + 1, order, copies[i := copies[i] + [hits[n]]])
            else Grouped(hits, n + 1, order + [i], copies[i := [hits[n]]])
  {
    var i := hits[n].iri;
    assert hits[..n + 1][..n] == hits[..n];
    ArrivalsMembers(hits[..n]);
  }

  method GroupByRecord(hits: seq<Hit>) returns (order: seq<string>, copies: map<string, seq<Hit>>)
    ensures Grouped(hits, |hits|, order, copies)
  {
    order, copies := [], map[];
    for n := 0 to |hits|
      invariant Grouped(hits, n, order, copies)
    {
      var i := hits[n].iri;
      GroupedStep(hits, n, order, copies);
      var group := if i in copies.Keys then copies[i] else [];
      if group == [] {
        order := order + [i];
      }
      copies := copies[i := group + [hits[n]]];
    }
  }

  lemma GroupedRows(hits: seq<Hit>, order: seq<string>, copies: map<string, seq<Hit>>, me: string)
    requires Grouped(hits, |hits|, order, copies)
    ensures |Merged(hits, me)| == |order|
    ensures forall k | 0 <= k < |order| ::
              && order[k] in copies.Keys && copies[order[k]] != []
              && Merged(hits, me)[k] == Row(copies[order[k]], me)
  {
    assert hits[..|hits|] == hits;
    ArrivalsMembers(hits);
  }

  /** The two passes of `merge_copies`: group the hits by record in order of arrival, then emit one
      row per group. */
  method MergeCopies(hits: seq<Hit>, me: string) returns (rows: seq<Hit>)
    ensures rows == Merged(hits, me)
  {
    var order, copies := GroupByRecord(hits);
    GroupedRows(hits, order, copies, me);
    ghost var m := Merged(hits, me);
    rows := EmitRows(order, copies, me, m);
  }

  method EmitRows(order: seq<string>, copies: map<string, seq<Hit>>, me: string, ghost m: seq<Hit>)
    returns (rows: seq<Hit>)
    requires |m| == |order|
    requires forall k | 0 <= k < |order| ::
               order[k] in copies.Keys && copies[order[k]] != [] && m[k] == Row(copies[order[k]], me)
    ensures rows == m
  {
    rows := [];
    for k := 0 to |order|
      invariant rows == m[..k]
    {
      rows := rows + [Row(copies[order[k]], me)];
    }
  }

  lemma RowOfRecord(hits: seq<Hit>, me: string, k: nat)
    requires k < |Merged(hits, me)|
    ensures |Merged(hits, me)| == |FirstArrivals(hits)|
    ensures Group(hits, FirstArrivals(hits)[k]) != []
    ensures Merged(hits, me)[k] == Row(Group(hits, FirstArrivals(hits)[k]), me)
    ensures Merged(hits, me)[k].iri == FirstArrivals(hits)[k]
  {
    ArrivalsMembers(hits);
    var i := FirstArrivals(hits)[k];
    GroupMembers(hits, i);
    var g := Group(hits, i);
    assert g[Best(g)] in g;
  }

  /** One row per record, and every record that arrived has one. */
  lemma OneRowPerRecord(hits: seq<Hit>, me: string)
    ensures forall i, j | 0 <= i < j < |Merged(hits, me)| :: Merged(hits, me)[i].iri != Merged(hits, me)[j].iri
    ensures forall h | h in hits :: exists r :: r in Merged(hits, me) && r.iri == h.iri
  {
    ArrivalsMembers(hits);
    var order := FirstArrivals(hits);
    var rows := Merged(hits, me);
    forall k | 0 <= k < |rows|
      ensures rows[k].iri == order[k]
    {
      RowOfRecord(hits, me, k);
    }
    forall h | h in hits
      ensures exists r :: r in rows && r.iri == h.iri
    {
      var k :| 0 <= k < |order| && order[k] == h.iri;
      assert rows[k] in rows;
    }
  }

  /** The row of a non-empty group of copies: no copy is better than the one kept, and every copy's
      source is either the row's own or named on it, sorted and without repeats. */
  lemma RowKeepsBest(g: seq<Hit>, me: string)
    requires g != []
    ensures exists h :: h in g && Row(g, me) == h.(alsoFrom := Row(g, me).alsoFrom)
    ensures forall h | h in g :: !Worse(Row(g, me), h)
    ensures forall h | h in g :: Source(h, me) == Source(Row(g, me), me) || Source(h, me) in Row(g, me).alsoFrom
    ensures forall y | y in Row(g, me).alsoFrom ::
              y != Source(Row(g, me), me) && exists h :: h in g && Source(h, me) == y
    ensures Ascending(Row(g, me).alsoFrom)
  {
    var b := Best(g);
    var row := Row(g, me);
    var others := g[..b] + g[b + 1..];
    assert g == g[..b] + [g[b]] + g[b + 1..];
    assert g[b] in g && row == g[b].(alsoFrom := row.alsoFrom);
    SortDedupAscending(OtherSources(others, Source(g[b], me), me));
    OtherSourcesMembers(others, Source(g[b], me), me);
    forall h | h in g
      ensures !Worse(row, h)
      ensures Source(h, me) == Source(row, me) || Source(h, me) in row.alsoFrom
    {
      var j :| 0 <= j < |g| && g[j] == h;
      assert !Worse(g[b], g[j]);
    }
    forall y | y in row.alsoFrom
      ensures y != Source(row, me) && exists h :: h in g && Source(h, me) == y
    {
      var h :| h in others && Source(h, me) == y;
      assert h in g;
    }
  }

  /** What the best copy is, in its own terms: never a cached one while the home registry's is there, its own or its
      live answer; among copies alike in that none cached later, one that says when rather than one that does not;
      and among copies cached at one time none that crossed fewer hops. */
  lemma BestInItsOwnTerms(hits: seq<Hit>, me: string, row: Hit, h: Hit)
    requires row in Merged(hits, me) && h in hits && h.iri == row.iri
    ensures h.mine || h.live ==> row.mine || row.live
    ensures (h.mine || h.live) == (row.mine || row.live) ==>
              && (h.cachedAt.Some? ==> row.cachedAt.Some? && h.cachedAt.value <= row.cachedAt.value)
              && (h.cachedAt == row.cachedAt ==> row.hops <= h.hops)
  {
    BestCopyKeptOthersNamed(hits, me, row);
  }

  /** Merging loses nothing silently: the row of a record is one of the copies that arrived, none of
      them is better, and the sources of the others are exactly what the row names. */
  lemma BestCopyKeptOthersNamed(hits: seq<Hit>, me: string, row: Hit)
    requires row in Merged(hits, me)
    ensures exists h :: h in hits && row == h.(alsoFrom := row.alsoFrom)
    ensures forall h | h in hits && h.iri == row.iri :: !Worse(row, h)
    ensures forall y | y != Source(row, me) ::
              y in row.alsoFrom <==> exists h :: h in hits && h.iri == row.iri && Source(h, me) == y
    ensures Source(row, me) !in row.alsoFrom && Ascending(row.alsoFrom)
  {
    var k :| 0 <= k < |Merged(hits, me)| && Merged(hits, me)[k] == row;
    RowOfRecord(hits, me, k);
    var g := Group(hits, row.iri);
    GroupMembers(hits, row.iri);
    RowKeepsBest(g, me);
    forall y | y != Source(row, me)
      ensures y in row.alsoFrom <==> exists h :: h in hits && h.iri == row.iri && Source(h, me) == y
    {
      if y in row.alsoFrom {
        var h :| h in g && Source(h, me) == y;
        assert h in hits && h.iri == row.iri;
      }
      if h :| h in hits && h.iri == row.iri && Source(h, me) == y {
        assert h in g;
      }
    }
  }

  lemma {:induction false} AtMostOneRowEach(hits: seq<Hit>)
    ensures |FirstArrivals(hits)| <= |hits|
  {
    if hits != [] {
      AtMostOneRowEach(hits[..|hits| - 1]);
    }
  }

  lemma MergedIsNoLonger(hits: seq<Hit>, me: string)
    ensures |Merged(hits, me)| <= |hits|
  {
    AtMostOneRowEach(hits);
    ArrivalsMembers(hits);
  }
}
