/** `tar rebase`: the local graph and the ops tables renamed from an old base to the current one, each
    in one transaction, safe to interrupt between the two and to run again (src/rebase.rs). */
module Rebase {
  import opened Options
  import opened Bases
  import opened Rewriting

  datatype Term = Named(iri: string) | Other(text: string)

  /** A statement of the local graph. `Other` stands for a blank node or a literal. */
  datatype Quad = Quad(subj: Term, pred: string, obj: Term)

  datatype Holds = WholeIri | Json | Joined

  /** The ops columns that hold this registry's own IRIs, by how they hold them. */
  const OPS_COLUMNS: seq<Holds> := [
    WholeIri, // api_tokens.instance_iri
    WholeIri, // api_tokens.software_iri
    WholeIri, // subscriptions.instance_iri
    Json,     // subscriptions.filter
    WholeIri, // subscription_deliveries.artifact_iri
    WholeIri, // subscription_deliveries.run_iri
    Json,     // subscription_deliveries.payload
    WholeIri, // run_keys.instance_iri
    WholeIri, // run_keys.run_iri
    WholeIri, // artifact_keys.artifact_iri
    Joined,   // advertise_idem.idem_key
    WholeIri, // advertise_idem.run_iri
    WholeIri, // advertise_idem.artifact_iri
    WholeIri  // audit_log.target
  ]

  /** One column's cells in row order; `None` is NULL. */
  type Column = seq<Option<string>>

  datatype Stores = Stores(graph: set<Quad>, ops: seq<Column>)

  /** Statements with a renamed IRI, and the columns that had any such row with how many. */
  datatype Report = Report(statements: nat, rows: seq<(int, nat)>)

  // ---------------------------------------------------------------------------- one value

  function RewriteTerm(t: Term, o: string, n: string): Term {
    if t.Named? then Named(Rename(t.iri, o, n)) else t
  }

  predicate TermRenamed(t: Term, o: string, n: string) {
    t.Named? && RewriteIri(t.iri, o, n).Some?
  }

  function RewriteQuad(q: Quad, o: string, n: string): (Quad, bool) {
    (Quad(RewriteTerm(q.subj, o, n), Rename(q.pred, o, n), RewriteTerm(q.obj, o, n)),
     TermRenamed(q.subj, o, n) || RewriteIri(q.pred, o, n).Some? || TermRenamed(q.obj, o, n))
  }

  function From(h: Holds, o: string): (r: string)
    ensures r != ""
  {
    if h.Json? then "\"" + o + "/" else o + "/"
  }

  /** The rows an UPDATE selects. */
  predicate Selected(h: Holds, cell: Option<string>, o: string) {
    cell.Some? &&
    if h.WholeIri? then Starts(cell.value, From(h, o)) else FirstHit(cell.value, From(h, o)) < |cell.value|
  }

  function RewriteCell(h: Holds, cell: Option<string>, o: string, n: string): Option<string> {
    if !Selected(h, cell, o) then cell
    else if h.WholeIri? then Some(From(h, n) + cell.value[|From(h, o)|..])
    else Some(Replace(cell.value, From(h, o), From(h, n)))
  }

  // --------------------------------------------------------------------------- the phases

  ghost function RenamedGraph(g: set<Quad>, o: string, n: string): set<Quad> {
    set q | q in g :: RewriteQuad(q, o, n).0
  }

  ghost function ChangedStatements(g: set<Quad>, o: string, n: string): set<Quad> {
    set q | q in g && RewriteQuad(q, o, n).1
  }

  function RenamedColumn(h: Holds, c: Column, o: string, n: string): (r: Column)
    ensures |r| == |c| && forall k | 0 <= k < |c| :: r[k] == RewriteCell(h, c[k], o, n)
  {
    seq(|c|, k requires 0 <= k < |c| => RewriteCell(h, c[k], o, n))
  }

  function SelectedRows(h: Holds, c: Column, o: string): nat {
    if c == [] then 0 else SelectedRows(h, c[..|c| - 1], o) + if Selected(h, c[|c| - 1], o) then 1 else 0
  }

  function RenamedOps(ops: seq<Column>, o: string, n: string): (r: seq<Column>)
    requires |ops| == |OPS_COLUMNS|
    ensures |r| == |ops| && forall i | 0 <= i < |ops| :: r[i] == RenamedColumn(OPS_COLUMNS[i], ops[i], o, n)
  {
    seq(|ops|, i requires 0 <= i < |ops| => RenamedColumn(OPS_COLUMNS[i], ops[i], o, n))
  }

  /** The ops tables when the first `i` columns have been dealt with. */
  function RenamedUpTo(ops: seq<Column>, o: string, n: string, i: nat): (r: seq<Column>)
    requires i <= |ops| == |OPS_COLUMNS|
    ensures |r| == |ops|
  {
    RenamedOps(ops, o, n)[..i] + ops[i..]
  }

  lemma NextColumn(ops: seq<Column>, o: string, n: string, i: nat)
    requires i < |ops| == |OPS_COLUMNS|
    ensures RenamedUpTo(ops, o, n, i)[i] == ops[i]
    ensures RenamedUpTo(ops, o, n, i + 1) == RenamedUpTo(ops, o, n, i)[i := RenamedColumn(OPS_COLUMNS[i], ops[i], o, n)]
  {
    SpliceNext(RenamedOps(ops, o, n), ops, i);
  }

  lemma SpliceNext(all: seq<Column>, ops: seq<Column>, i: nat)
    requires i < |ops| == |all|
    ensures (all[..i] + ops[i..])[i] == ops[i]
    ensures all[..i + 1] + ops[i + 1..] == (all[..i] + ops[i..])[i := all[i]]
  {
  }

  lemma QuietColumn(ops: seq<Column>, o: string, n: string, i: nat)
    requires i < |ops| == |OPS_COLUMNS| && SelectedRows(OPS_COLUMNS[i], ops[i], o) == 0
    ensures RenamedUpTo(ops, o, n, i + 1) == RenamedUpTo(ops, o, n, i)
  {
    NextColumn(ops, o, n, i);
    NoRowsRenamed(OPS_COLUMNS[i], ops[i], o, n);
  }

  lemma AllColumns(ops: seq<Column>, o: string, n: string)
    requires |ops| == |OPS_COLUMNS|
    ensures RenamedUpTo(ops, o, n, 0) == ops && RenamedUpTo(ops, o, n, |ops|) == RenamedOps(ops, o, n)
  {
  }

  /** The report on the first `i` columns. */
  function RowsReport(ops: seq<Column>, o: string, i: nat): seq<(int, nat)>
    requires i <= |ops| == |OPS_COLUMNS|
  {
    if i == 0 then []
    else
      var k := SelectedRows(OPS_COLUMNS[i - 1], ops[i - 1], o);
      RowsReport(ops, o, i - 1) + if k == 0 then [] else [(i - 1, k)]
  }

  /** The ops tables when the first `i` columns have been dealt with, if this run writes them. */
  function OpsAfter(ops: seq<Column>, o: string, n: string, dryRun: bool, i: nat): (r: seq<Column>)
    requires i <= |ops| == |OPS_COLUMNS|
    ensures |r| == |ops|
  {
    if dryRun then ops else RenamedUpTo(ops, o, n, i)
  }

  lemma OneColumn(ops: seq<Column>, o: string, n: string, dryRun: bool, i: nat)
    requires i < |ops| == |OPS_COLUMNS|
    ensures var db, k := OpsAfter(ops, o, n, dryRun, i), SelectedRows(OPS_COLUMNS[i], ops[i], o);
            && db[i] == ops[i]
            && OpsAfter(ops, o, n, dryRun, i + 1)
               == (if k == 0 || dryRun then db else db[i := RenamedColumn(OPS_COLUMNS[i], ops[i], o, n)])
            && RowsReport(ops, o, i + 1) == RowsReport(ops, o, i) + (if k == 0 then [] else [(i, k)])
  {
    NextColumn(ops, o, n, i);
    if SelectedRows(OPS_COLUMNS[i], ops[i], o) == 0 {
      QuietColumn(ops, o, n, i);
    }
  }

  ghost function GraphPhase(st: Stores, o: string, n: string): Stores {
    st.(graph := RenamedGraph(st.graph, o, n))
  }

  ghost function OpsPhase(st: Stores, o: string, n: string): Stores
    requires |st.ops| == |OPS_COLUMNS|
  {
    st.(ops := RenamedOps(st.ops, o, n))
  }

  ghost function Completed(st: Stores, o: string, n: string): Stores
    requires |st.ops| == |OPS_COLUMNS|
  {
    OpsPhase(GraphPhase(st, o, n), o, n)
  }

  ghost function ReportOf(st: Stores, o: string, n: string): Report
    requires |st.ops| == |OPS_COLUMNS|
  {
    Report(|ChangedStatements(st.graph, o, n)|, RowsReport(st.ops, o, |st.ops|))
  }

  /** The two stores. A run may be stopped after the graph transaction. */
  class Registry {
    var graph: set<Quad>
    var ops: seq<Column>

    ghost predicate Valid()
      reads this
    {
      |ops| == |OPS_COLUMNS|
    }

    ghost function Contents(): Stores
      reads this
    {
      Stores(graph, ops)
    }

    constructor (graph: set<Quad>, ops: seq<Column>)
      requires |ops| == |OPS_COLUMNS|
      ensures Valid() && Contents() == Stores(graph, ops)
    {
      this.graph, this.ops := graph, ops;
    }

    /** Read whole, rewrite in memory, write back by clearing and inserting in one transaction. */
    method RenameGraph(o: string, n: string, dryRun: bool) returns (statements: nat)
      modifies this`graph
      ensures graph == if dryRun then old(graph) else RenamedGraph(old(graph), o, n)
      ensures statements == |ChangedStatements(old(graph), o, n)|
    {
      var rest, quads: set<Quad> := graph, {};
      statements := 0;
      ghost var done: set<Quad> := {};
      while rest != {}
        invariant done + rest == graph && done !! rest && graph == old(graph)
        invariant quads == RenamedGraph(done, o, n)
        invariant statements == |ChangedStatements(done, o, n)|
        decreases rest
      {
        var q :| q in rest;
        var (rewritten, changed) := RewriteQuad(q, o, n);
        assert RenamedGraph(done + {q}, o, n) == RenamedGraph(done, o, n) + {rewritten};
        if changed {
          statements := statements + 1;
          assert ChangedStatements(done + {q}, o, n) == ChangedStatements(done, o, n) + {q};
        } else {
          assert ChangedStatements(done + {q}, o, n) == ChangedStatements(done, o, n);
        }
        quads := quads + {rewritten};
        rest, done := rest - {q}, done + {q};
      }
      assert done == graph;
      if statements > 0 && !dryRun {
        graph := quads;
      } else if !dryRun {
        NothingRenamed(graph, o, n);
      }
    }

    static method CountRows(h: Holds, c: Column, o: string) returns (k: nat)
      ensures k == SelectedRows(h, c, o)
    {
      k := 0;
      for i := 0 to |c|
        invariant k == SelectedRows(h, c[..i], o)
      {
        assert c[..i + 1][..i] == c[..i];
        if Selected(h, c[i], o) {
          k := k + 1;
        }
      }
      assert c[..|c|] == c;
    }

    /** Column by column, counting before updating. */
    static method RenameColumns(ops: seq<Column>, o: string, n: string, dryRun: bool) returns (db: seq<Column>, rows: seq<(int, nat)>)
      requires |ops| == |OPS_COLUMNS|
      ensures db == if dryRun then ops else RenamedOps(ops, o, n)
      ensures rows == RowsReport(ops, o, |ops|)
    {
      rows, db := [], ops;
      AllColumns(ops, o, n);
      for i := 0 to |ops|
        invariant rows == RowsReport(ops, o, i)
        invariant db == OpsAfter(ops, o, n, dryRun, i)
      {
        OneColumn(ops, o, n, dryRun, i);
        var k := CountRows(OPS_COLUMNS[i], db[i], o);
        if k != 0 {
          if !dryRun {
            db := db[i := RenamedColumn(OPS_COLUMNS[i], db[i], o, n)];
          }
          rows := rows + [(i, k)];
        }
      }
    }

    /** All in one transaction. */
    method RenameOps(o: string, n: string, dryRun: bool) returns (rows: seq<(int, nat)>)
      requires Valid()
      modifies this`ops
      ensures Valid()
      ensures ops == if dryRun then old(ops) else RenamedOps(old(ops), o, n)
      ensures rows == RowsReport(old(ops), o, |old(ops)|)
    {
      var db;
      db, rows := RenameColumns(ops, o, n, dryRun);
      if !dryRun {
        ops := db;
      }
    }

    /** One run. Refused for bases that cannot be rebased; `stopped` is a run that ends after the graph
        transaction. */
    method Run(old_: string, new_: string, dryRun: bool, stopped: bool) returns (report: Option<Report>)
      requires Valid()
      modifies this
      ensures Valid()
      ensures report.Some? ==> CheckBases(old_, new_) && !stopped
      ensures !CheckBases(old_, new_) ==> report == None && Contents() == old(Contents())
      ensures CheckBases(old_, new_) ==>
                var o, n := TrimSlashes(old_), TrimSlashes(new_);
                && (!stopped ==> report == Some(ReportOf(old(Contents()), o, n)))
                && Contents() == if dryRun then old(Contents())
                                 else if stopped then GraphPhase(old(Contents()), o, n)
                                 else Completed(old(Contents()), o, n)
    {
      if !CheckBases(old_, new_) {
        return None;
      }
      var o, n := TrimSlashes(old_), TrimSlashes(new_);
      var statements := RenameGraph(o, n, dryRun);
      if stopped {
        return None;
      }
      var rows := RenameOps(o, n, dryRun);
      report := Some(Report(statements, rows));
    }
  }

  // ------------------------------------------------------------------------- reruns

  lemma QuadUnchanged(q: Quad, o: string, n: string)
    requires !RewriteQuad(q, o, n).1
    ensures RewriteQuad(q, o, n).0 == q
  {
  }

  lemma NothingRenamed(g: set<Quad>, o: string, n: string)
    requires ChangedStatements(g, o, n) == {}
    ensures RenamedGraph(g, o, n) == g
  {
    forall q | q in g
      ensures RewriteQuad(q, o, n).0 == q
    {
      assert q !in ChangedStatements(g, o, n);
      QuadUnchanged(q, o, n);
    }
    assert forall q | q in g :: RewriteQuad(q, o, n).0 in RenamedGraph(g, o, n);
  }

  lemma {:induction false} NoRowsRenamed(h: Holds, c: Column, o: string, n: string)
    ensures SelectedRows(h, c, o) == 0 <==> forall k | 0 <= k < |c| :: !Selected(h, c[k], o)
    ensures SelectedRows(h, c, o) == 0 ==> RenamedColumn(h, c, o, n) == c
  {
    if c != [] {
      NoRowsRenamed(h, c[..|c| - 1], o, n);
      assert forall k | 0 <= k < |c| - 1 :: c[..|c| - 1][k] == c[k];
    }
  }

  ghost predicate Rebasable(o: string, n: string) {
    CheckBases(o, n) && TrimSlashes(o) == o && TrimSlashes(n) == n
  }

  /** The graph phase changes nothing the second time. */
  lemma GraphPhaseIdempotent(g: set<Quad>, o: string, n: string)
    requires Rebasable(o, n)
    ensures ChangedStatements(RenamedGraph(g, o, n), o, n) == {}
    ensures RenamedGraph(RenamedGraph(g, o, n), o, n) == RenamedGraph(g, o, n)
  {
    forall q | q in RenamedGraph(g, o, n)
      ensures !RewriteQuad(q, o, n).1
    {
      var p :| p in g && RewriteQuad(p, o, n).0 == q;
      forall iri | RewriteIri(iri, o, n).Some?
        ensures RewriteIri(RewriteIri(iri, o, n).value, o, n) == None
      {
        RenameOnce(iri, o, n);
      }
    }
    NothingRenamed(RenamedGraph(g, o, n), o, n);
  }

  /** The base itself, or something under it. */
  predicate UnderBase(iri: string, base: string) {
    iri == base || Starts(iri, base + "/")
  }

  /** `y` is `x` where it now stands: what was the old base is the new one, what was under it is under the new one
      by the same path, and anything else is what it was. */
  predicate MovedTo(x: string, y: string, o: string, n: string) {
    if x == o then y == n
    else if Starts(x, o + "/") then y == n + "/" + x[|o| + 1..]
    else y == x
  }

  predicate TermMovedTo(x: Term, y: Term, o: string, n: string) {
    match x
    case Named(iri) => y.Named? && MovedTo(iri, y.iri, o, n)
    case Other(text) => y == Other(text)
  }

  /** Subject, predicate and object, each where it now stands. */
  predicate QuadMovedTo(q: Quad, r: Quad, o: string, n: string) {
    TermMovedTo(q.subj, r.subj, o, n) && MovedTo(q.pred, r.pred, o, n) && TermMovedTo(q.obj, r.obj, o, n)
  }

  /** An IRI in any of the three positions is under the base. */
  predicate MentionsBase(q: Quad, base: string) {
    || (q.subj.Named? && UnderBase(q.subj.iri, base))
    || UnderBase(q.pred, base)
    || (q.obj.Named? && UnderBase(q.obj.iri, base))
  }

  lemma RenameMoves(iri: string, o: string, n: string)
    ensures MovedTo(iri, Rename(iri, o, n), o, n)
    ensures RewriteIri(iri, o, n).Some? <==> UnderBase(iri, o)
  {
    RenamedIff(iri, o, n);
  }

  lemma QuadMoves(q: Quad, o: string, n: string)
    ensures QuadMovedTo(q, RewriteQuad(q, o, n).0, o, n)
    ensures RewriteQuad(q, o, n).1 <==> MentionsBase(q, o)
    ensures forall r | QuadMovedTo(q, r, o, n) :: r == RewriteQuad(q, o, n).0
  {
    RenameMoves(q.pred, o, n);
    if q.subj.Named? {
      RenameMoves(q.subj.iri, o, n);
    }
    if q.obj.Named? {
      RenameMoves(q.obj.iri, o, n);
    }
  }

  /** The graph transaction moves every statement, literals and blank nodes as they were, to exactly one statement,
      and makes no other; it counts exactly the statements that mention the old base anywhere. */
  lemma GraphMoves(g: set<Quad>, o: string, n: string)
    ensures forall r :: r in RenamedGraph(g, o, n) <==> exists q :: q in g && QuadMovedTo(q, r, o, n)
    ensures forall q | q in g :: exists r :: r in RenamedGraph(g, o, n) && QuadMovedTo(q, r, o, n)
    ensures ChangedStatements(g, o, n) == set q | q in g && MentionsBase(q, o)
  {
    forall q | q in g
      ensures QuadMovedTo(q, RewriteQuad(q, o, n).0, o, n) && (RewriteQuad(q, o, n).1 <==> MentionsBase(q, o))
      ensures forall r | QuadMovedTo(q, r, o, n) :: r == RewriteQuad(q, o, n).0
    {
      QuadMoves(q, o, n);
    }
    forall r ensures r in RenamedGraph(g, o, n) <==> exists q :: q in g && QuadMovedTo(q, r, o, n) {
      if q :| q in g && QuadMovedTo(q, r, o, n) {
        assert r == RewriteQuad(q, o, n).0;
      }
    }
  }

  /** Afterwards no statement mentions the old base. */
  lemma NothingUnderOldBase(g: set<Quad>, o: string, n: string, q: Quad)
    requires Rebasable(o, n) && q in RenamedGraph(g, o, n)
    ensures !MentionsBase(q, o)
  {
    GraphPhaseIdempotent(g, o, n);
    QuadMoves(q, o, n);
    assert q !in ChangedStatements(RenamedGraph(g, o, n), o, n);
  }

  /** An identifier of this registry keeps its kind and id. */
  lemma MovedKeepsLocalId(x: string, y: string, o: string, n: string)
    requires Rebasable(o, n) && MovedTo(x, y, o, n) && UnderBase(x, o)
    ensures LocalId(n, y) == LocalId(o, x)
  {
    RenameMoves(x, o, n);
    RenamedIff(x, o, n);
    RenameKeepsLocalId(x, o, n);
  }

  /** A cell that holds one IRI moves if it is under the old base, and a NULL stays one. Text is rewritten at every
      `<old>/`, or in JSON at every one that starts a string. */
  lemma CellMoves(cell: Option<string>, o: string, n: string)
    ensures RewriteCell(WholeIri, cell, o, n) == match cell
              case None => None
              case Some(x) => Some(if Starts(x, o + "/") then n + "/" + x[|o| + 1..] else x)
    ensures RewriteCell(Joined, cell, o, n) == match cell
              case None => None
              case Some(x) => Some(Replace(x, o + "/", n + "/"))
    ensures RewriteCell(Json, cell, o, n) == match cell
              case None => None
              case Some(x) => Some(Replace(x, "\"" + o + "/", "\"" + n + "/"))
  {
    if cell.Some? {
      FirstHitIffOccurs(cell.value, o + "/");
      FirstHitIffOccurs(cell.value, "\"" + o + "/");
      if !Occurs(cell.value, o + "/") {
        NothingToReplace(cell.value, o + "/", n + "/");
      }
      if !Occurs(cell.value, "\"" + o + "/") {
        NothingToReplace(cell.value, "\"" + o + "/", "\"" + n + "/");
      }
    }
  }

  /** A cell that mentions the old base, as its column holds IRIs. */
  ghost predicate CellMentions(h: Holds, cell: Option<string>, o: string) {
    cell.Some? && match h
                  case WholeIri => Starts(cell.value, o + "/")
                  case Joined => Occurs(cell.value, o + "/")
                  case Json => Occurs(cell.value, "\"" + o + "/")
  }

  ghost function Mentioning(h: Holds, c: Column, o: string): set<nat> {
    set r: nat | r < |c| && CellMentions(h, c[r], o)
  }

  lemma SelectedMentions(h: Holds, cell: Option<string>, o: string)
    ensures Selected(h, cell, o) <==> CellMentions(h, cell, o)
  {
    if cell.Some? {
      FirstHitIffOccurs(cell.value, From(h, o));
    }
  }

  lemma OneMoreRow(h: Holds, c: Column, o: string, n: nat)
    requires n + 1 == |c|
    ensures Mentioning(h, c, o) == if CellMentions(h, c[n], o) then Mentioning(h, c[..n], o) + {n} else Mentioning(h, c[..n], o)
    ensures n !in Mentioning(h, c[..n], o)
  {
    assert forall r | 0 <= r < n :: c[..n][r] == c[r];
  }

  lemma {:induction false} RowsCounted(h: Holds, c: Column, o: string)
    ensures SelectedRows(h, c, o) == |Mentioning(h, c, o)|
  {
    if c != [] {
      var n := |c| - 1;
      RowsCounted(h, c[..n], o);
      SelectedMentions(h, c[n], o);
      OneMoreRow(h, c, o, n);
    }
  }

  lemma OneMoreReported(ops: seq<Column>, o: string, i: nat, x: int, k: nat)
    requires i < |ops| == |OPS_COLUMNS|
    ensures var rows := SelectedRows(OPS_COLUMNS[i], ops[i], o);
            (x, k) in RowsReport(ops, o, i + 1) <==> (x, k) in RowsReport(ops, o, i) || (x == i && k == rows && rows > 0)
  {
    var rows := SelectedRows(OPS_COLUMNS[i], ops[i], o);
    assert RowsReport(ops, o, i + 1) == RowsReport(ops, o, i) + if rows == 0 then [] else [(i, rows)];
  }

  /** The report names exactly the columns with such a row, each with how many there are. */
  lemma {:induction false} ReportedExactly(ops: seq<Column>, o: string, i: nat, x: int, k: nat)
    requires i <= |ops| == |OPS_COLUMNS|
    ensures (x, k) in RowsReport(ops, o, i) <==> 0 <= x < i && k == |Mentioning(OPS_COLUMNS[x], ops[x], o)| && k > 0
  {
    if i > 0 {
      ReportedExactly(ops, o, i - 1, x, k);
      OneMoreReported(ops, o, i - 1, x, k);
      RowsCounted(OPS_COLUMNS[i - 1], ops[i - 1], o);
    }
  }

  /** Which columns hold IRIs otherwise than whole. */
  lemma ColumnsByName(x: nat)
    requires x < |OPS_COLUMNS|
    ensures |OPS_COLUMNS| == 14
    ensures OPS_COLUMNS[x].Json? <==> x == 3 || x == 6
    ensures OPS_COLUMNS[x].Joined? <==> x == 10
  {
  }

  /** The graph after runs stopped between the two transactions. */
  ghost function StoppedGraph(g: set<Quad>, o: string, n: string, times: nat): set<Quad> {
    if times == 0 then g else RenamedGraph(StoppedGraph(g, o, n, times - 1), o, n)
  }

  lemma {:induction false} StoppedRuns(g: set<Quad>, o: string, n: string, times: nat)
    requires Rebasable(o, n)
    ensures StoppedGraph(g, o, n, times) == if times == 0 then g else RenamedGraph(g, o, n)
  {
    if times > 1 {
      StoppedRuns(g, o, n, times - 1);
      GraphPhaseIdempotent(g, o, n);
    }
  }

  /** Any number of runs stopped between the two transactions and then one completed run leave both
      stores as a single completed run does. */
  lemma RestartIsSafe(st: Stores, o: string, n: string, times: nat)
    requires Rebasable(o, n) && |st.ops| == |OPS_COLUMNS|
    ensures Completed(Stores(StoppedGraph(st.graph, o, n, times), st.ops), o, n) == Completed(st, o, n)
  {
    StoppedRuns(st.graph, o, n, times);
    GraphPhaseIdempotent(st.graph, o, n);
  }

  /** No row of the column is selected again, whatever it holds. */
  ghost predicate RerunIdle(h: Holds, o: string, n: string) {
    forall cell :: !Selected(h, RewriteCell(h, cell, o, n), o)
  }

  lemma FirstHitIffOccurs(text: string, from: string)
    requires from != ""
    ensures FirstHit(text, from) < |text| <==> Occurs(text, from)
  {
    FirstHitIsFirst(text, from);
    if Occurs(text, from) {
      var k: nat :| OccursAt(text, from, k);
      assert !(k < FirstHit(text, from));
    }
  }

  /** Whole-IRI columns are never renamed twice. */
  lemma WholeIriRerunIdle(o: string, n: string)
    requires Rebasable(o, n)
    ensures RerunIdle(WholeIri, o, n)
  {
    AcceptedBasesApart(o, n);
    forall cell
      ensures !Selected(WholeIri, RewriteCell(WholeIri, cell, o, n), o)
    {
      if Selected(WholeIri, cell, o) {
        var r := RewriteCell(WholeIri, cell, o, n).value;
        assert Starts(r, n + "/");
        if Starts(r, o + "/") {
          BothPrefixes(r, n + "/", o + "/");
        }
      }
    }
  }

  lemma QuotedStarts(a: string, b: string)
    requires Starts("\"" + a, "\"" + b)
    ensures Starts(a, b)
  {
    assert a[..|b|] == ("\"" + a)[..|b| + 1][1..] == ("\"" + b)[1..];
  }

  lemma OpsNotOverlapping(h: Holds, o: string, n: string)
    requires Rebasable(o, n)
    ensures !Overlaps(From(h, n), From(h, o), 0)
  {
    AcceptedBasesApart(o, n);
    assert From(Json, n) == "\"" + (n + "/") && From(Json, o) == "\"" + (o + "/");
    if Overlaps(From(h, n), From(h, o), 0) {
      OverlapAtStart(From(h, n), From(h, o));
      if h.Json? {
        if Starts(From(h, n), From(h, o)) {
          QuotedStarts(n + "/", o + "/");
        } else {
          QuotedStarts(o + "/", n + "/");
        }
      }
    }
  }

  /** A text column is idle on a second run for every content exactly when old and new have no seam,
      which can be read off the two bases before the run. */
  lemma TextRerunIdleIff(h: Holds, o: string, n: string)
    requires Rebasable(o, n) && !h.WholeIri?
    ensures RerunIdle(h, o, n) <==> SeamFree(From(h, o), From(h, o), From(h, n))
  {
    var from, to := From(h, o), From(h, n);
    OpsNotOverlapping(h, o, n);
    SecondPassIdleIff(from, to);
    forall text
      ensures Selected(h, RewriteCell(h, Some(text), o, n), o) <==> Occurs(Replace(text, from, to), from)
    {
      FirstHitIffOccurs(text, from);
      FirstHitIffOccurs(Replace(text, from, to), from);
      if !Occurs(text, from) {
        NothingToReplace(text, from, to);
      }
    }
    if RerunIdle(h, o, n) {
      forall text
        ensures !Occurs(Replace(text, from, to), from)
      {
        assert !Selected(h, RewriteCell(h, Some(text), o, n), o);
      }
      assert SecondPassIdle(from, to);
    } else {
      var cell :| Selected(h, RewriteCell(h, cell, o, n), o);
      assert Occurs(Replace(cell.value, from, to), from);
    }
  }

  /** A run after a completed one reports nothing and changes nothing, for every store, exactly when
      no column kind can select a row again. */
  ghost predicate RerunReportsNothing(o: string, n: string) {
    forall st: Stores | |st.ops| == |OPS_COLUMNS| :: IdleAfter(st, o, n)
  }

  ghost predicate IdleAfter(st: Stores, o: string, n: string)
    requires |st.ops| == |OPS_COLUMNS|
  {
    var done := Completed(st, o, n);
    ReportOf(done, o, n) == Report(0, []) && Completed(done, o, n) == done
  }

  lemma RerunReportsNothingIff(o: string, n: string)
    requires Rebasable(o, n)
    ensures RerunReportsNothing(o, n) <==>
              SeamFree(From(Json, o), From(Json, o), From(Json, n)) && SeamFree(From(Joined, o), From(Joined, o), From(Joined, n))
  {
    TextRerunIdleIff(Json, o, n);
    TextRerunIdleIff(Joined, o, n);
    WholeIriRerunIdle(o, n);
    if RerunReportsNothing(o, n) {
      BusyKindReports(3, o, n);
      BusyKindReports(10, o, n);
    } else if RerunIdle(Json, o, n) && RerunIdle(Joined, o, n) {
      var st: Stores :| |st.ops| == |OPS_COLUMNS| && !IdleAfter(st, o, n);
      IdleEverywhere(st, o, n);
    }
  }

  lemma IdleColumn(h: Holds, c: Column, o: string, n: string)
    requires RerunIdle(h, o, n)
    ensures var r := RenamedColumn(h, c, o, n);
            SelectedRows(h, r, o) == 0 && RenamedColumn(h, r, o, n) == r
  {
    var r := RenamedColumn(h, c, o, n);
    forall k | 0 <= k < |r|
      ensures !Selected(h, r[k], o)
    {
      assert r[k] == RewriteCell(h, c[k], o, n);
    }
    NoRowsRenamed(h, r, o, n);
  }

  lemma {:induction false} QuietReport(ops: seq<Column>, o: string, i: nat)
    requires i <= |ops| == |OPS_COLUMNS|
    requires forall j | 0 <= j < i :: SelectedRows(OPS_COLUMNS[j], ops[j], o) == 0
    ensures RowsReport(ops, o, i) == []
  {
    if i > 0 {
      QuietReport(ops, o, i - 1);
    }
  }

  lemma OpsIdle(ops: seq<Column>, o: string, n: string)
    requires |ops| == |OPS_COLUMNS| && forall h :: RerunIdle(h, o, n)
    ensures var r := RenamedOps(ops, o, n);
            RowsReport(r, o, |r|) == [] && RenamedOps(r, o, n) == r
  {
    var r := RenamedOps(ops, o, n);
    forall j | 0 <= j < |r|
      ensures SelectedRows(OPS_COLUMNS[j], r[j], o) == 0
      ensures RenamedColumn(OPS_COLUMNS[j], r[j], o, n) == r[j]
    {
      IdleColumn(OPS_COLUMNS[j], ops[j], o, n);
    }
    QuietReport(r, o, |r|);
  }

  lemma IdleEverywhere(st: Stores, o: string, n: string)
    requires Rebasable(o, n) && |st.ops| == |OPS_COLUMNS|
    requires RerunIdle(WholeIri, o, n) && RerunIdle(Json, o, n) && RerunIdle(Joined, o, n)
    ensures IdleAfter(st, o, n)
  {
    GraphPhaseIdempotent(st.graph, o, n);
    assert forall h :: RerunIdle(h, o, n) by {
      forall h
        ensures RerunIdle(h, o, n)
      {
        match h case WholeIri => case Json => case Joined =>
      }
    }
    OpsIdle(st.ops, o, n);
  }

  /** A column kind that can select a row again shows in a store with that row alone. */
  lemma BusyKindReports(i: nat, o: string, n: string)
    requires i < |OPS_COLUMNS| && RerunReportsNothing(o, n)
    ensures RerunIdle(OPS_COLUMNS[i], o, n)
  {
    var h := OPS_COLUMNS[i];
    forall cell
      ensures !Selected(h, RewriteCell(h, cell, o, n), o)
    {
      var ops: seq<Column> := seq(|OPS_COLUMNS|, j => if j == i then [cell] else []);
      var st := Stores({}, ops);
      assert IdleAfter(st, o, n);
      if Selected(h, RewriteCell(h, cell, o, n), o) {
        BusyColumn(RenamedOps(ops, o, n), o, i, |OPS_COLUMNS|);
      }
    }
  }

  lemma {:induction false} BusyColumn(ops: seq<Column>, o: string, i: nat, upTo: nat)
    requires |ops| == |OPS_COLUMNS| && i < upTo <= |OPS_COLUMNS|
    requires |ops[i]| == 1 && Selected(OPS_COLUMNS[i], ops[i][0], o)
    ensures RowsReport(ops, o, upTo) != []
    decreases upTo
  {
    if upTo > i + 1 {
      BusyColumn(ops, o, i, upTo - 1);
    } else {
      NoRowsRenamed(OPS_COLUMNS[i], ops[i], o, o);
    }
  }

  /** Bases whose only `:/` is in the scheme and that hold no quote have no seam: for them a further
      run reports nothing. */
  lemma OrdinaryBasesRerunIdle(o: string, n: string)
    requires Rebasable(o, n) && OneScheme(o + "/") && OneScheme(n + "/") && '"' !in o && '"' !in n
    ensures RerunReportsNothing(o, n)
  {
    AcceptedBasesApart(o, n);
    SchemesSeamFree(o + "/", o + "/", n + "/");
    OpsNotOverlapping(Json, o, n);
    var from, to := From(Json, o), From(Json, n);
    forall d: nat | 0 < d
      ensures !Overlaps(to, from, d) && !Overlaps(from, to, d)
    {
      QuoteOnlyFirst(to, from, d, n);
      QuoteOnlyFirst(from, to, d, o);
    }
    RerunReportsNothingIff(o, n);
  }

  lemma QuoteOnlyFirst(x: string, y: string, d: nat, base: string)
    requires x == "\"" + base + "/" && '"' !in base && y != "" && y[0] == '"' && 0 < d
    ensures !Overlaps(x, y, d)
  {
    if d < |x| {
      assert x[d + 0] != '"' by {
        if d <= |base| {
          assert x[d] == base[d - 1];
        }
      }
    }
  }

  /** The check accepts bases outside that family, and for them a further run can rename again: with a
      second scheme inside the old base, an idempotency key is renamed into one that holds it again. */
  lemma AcceptedBasesCanRenameAgain()
    ensures Rebasable("http://a/https:", "https://b")
    ensures !RerunReportsNothing("http://a/https:", "https://b")
  {
    var o, n := "http://a/https:", "https://b";
    assert o[..7] == "http://" && o[..1] != n[..1] + "x";
    assert o[4] == ':' && n[4] == 's';
    var from, to := From(Joined, o), From(Joined, n);
    assert from == "http://a/https:/" && to == "https://b/";
    assert Overlaps(from, to, 9);
    forall e: nat | e < 9
      ensures !OccursAt(from[..9] + from, from, e)
    {
      var text := from[..9] + from;
      assert text[0 + 13] == ':' && from[13] == 's';
      assert e > 0 ==> text[e + 0] != 'h';
    }
    assert HeadSeam(from, from, to);
    RerunReportsNothingIff(o, n);
  }
}
