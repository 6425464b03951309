/**
 * `procesar_datos`: load both tables, check the join key, merge, keep the five report columns,
 * compute the audit rows with no inventory match, and decide which result files are written.
 */
module Reconciler {
  import opened Tables
  import opened Headers
  import opened Join

  /** The join column. */
  const JoinKey: string := "Agent ID"

  /** The columns of `resultado.csv`, in order ("IP Adress" is the column's own spelling). */
  const OutputColumns: seq<string> := ["Hostname", "IP Adress", "Operating System", "Last Seen", "Log"]

  /** What the exception caught at the end of `procesar_datos` was about. */
  datatype Cause =
    | KeyNotUnique    // the merge found the key labelling more than one column of a table
    | ColumnNotFound  // the projection asked for a column the merged frame does not have

  datatype Failure =
    | LoadFailed
    | MissingKey(auditColumns: seq<string>, inventoryColumns: seq<string>)
    | ProcessingError(cause: Cause)

  /**
   * The two result files: `resultado.csv` always, and `sin_coincidencia.csv` only when some
   * audit row is unmatched (None stands for "every agent has a match").
   */
  datatype Report = Report(matched: Table, unmatched: Option<Table>)

  datatype Outcome = Written(report: Report) | Stopped(failure: Failure)

  /** The key labels exactly one column of `h`. */
  predicate UniqueKey(h: seq<string>) {
    JoinKey in h && Count(h, JoinKey) == 1
  }

  /** The raw header has a column whose name, once stripped, is `c`. */
  predicate HasStrippedColumn(t: Table, c: string) {
    exists k :: 0 <= k < |t.header| && Strip(t.header[k]) == c
  }

  /** An audit row whose key no inventory row carries. */
  predicate HasUnmatched(audit: Table, ka: nat, inv: Table, ki: nat)
    requires HasCell(audit.rows, ka) && HasCell(inv.rows, ki)
  {
    exists i :: 0 <= i < |audit.rows| && audit.rows[i][ka] !in KeyValues(inv.rows, ki)
  }

  /**
   * Everything after loading. The failures come in the source's order: key missing from a
   * table, then the merge's and the projection's exceptions; otherwise both results.
   */
  function ReconcileTables(audit: Table, inv: Table): (r: Outcome)
    requires WellFormed(audit) && WellFormed(inv)
    ensures r.Stopped? && r.failure.MissingKey? <==> JoinKey !in audit.header || JoinKey !in inv.header
    ensures r.Stopped? && r.failure.MissingKey? ==> r.failure == MissingKey(audit.header, inv.header)
    ensures r == Stopped(ProcessingError(KeyNotUnique)) <==>
              JoinKey in audit.header && JoinKey in inv.header && !(UniqueKey(audit.header) && UniqueKey(inv.header))
    ensures r != Stopped(LoadFailed)
    ensures r == Stopped(ProcessingError(ColumnNotFound)) <==>
              UniqueKey(audit.header) && UniqueKey(inv.header) &&
              exists c :: c in OutputColumns && c !in MergedHeader(audit.header, inv.header, IndexOf(inv.header, JoinKey))
    ensures r.Written? ==>
              UniqueKey(audit.header) && UniqueKey(inv.header) &&
              var ka, ki := IndexOf(audit.header, JoinKey), IndexOf(inv.header, JoinKey);
              var m := r.report.matched;
              && WellFormed(m)
              && |m.rows| == |Pairs(audit.rows, ka, inv.rows, ki)|
              && (forall n :: 0 <= n < |m.header| ==> m.header[n] in OutputColumns)
              && (r.report.unmatched.Some? <==> HasUnmatched(audit, ka, inv, ki))
              && (r.report.unmatched.Some? ==> r.report.unmatched.value.rows != [])
              && (r.report.unmatched.Some? ==>
                    r.report.unmatched.value == Table(audit.header, AntiJoin(audit.rows, ka, KeyValues(inv.rows, ki))))
  {
    if JoinKey !in audit.header || JoinKey !in inv.header then
      Stopped(MissingKey(audit.header, inv.header))
    else if !(UniqueKey(audit.header) && UniqueKey(inv.header)) then
      Stopped(ProcessingError(KeyNotUnique))
    else
      var ka, ki := IndexOf(audit.header, JoinKey), IndexOf(inv.header, JoinKey);
      var joined := InnerJoin(audit, inv, ka, ki);
      match Project(joined, OutputColumns)
      case None => Stopped(ProcessingError(ColumnNotFound))
      case Some(matched) =>
        var keys := KeyValues(inv.rows, ki);
        var unmatched := AntiJoin(audit.rows, ka, keys);
        AntiJoinEmpty(audit.rows, ka, keys);
        Written(Report(matched, if |unmatched| > 0 then Some(Table(audit.header, unmatched)) else None))
  }

  /**
   * `procesar_datos` from the two read results: a failed read (either one) stops the run
   * before anything else; otherwise the header-trimmed tables are reconciled.
   */
  function Reconcile(auditFile: ReadResult, inventoryFile: ReadResult): (r: Outcome)
    requires auditFile.Parsed? ==> WellFormed(auditFile.table)
    requires inventoryFile.Parsed? ==> WellFormed(inventoryFile.table)
    ensures r == Stopped(LoadFailed) <==> auditFile.ReadFailed? || inventoryFile.ReadFailed?
    ensures r.Stopped? && r.failure.MissingKey? <==>
              auditFile.Parsed? && inventoryFile.Parsed? &&
              (!HasStrippedColumn(auditFile.table, JoinKey) || !HasStrippedColumn(inventoryFile.table, JoinKey))
  {
    var a := Load(auditFile);
    var b := Load(inventoryFile);
    if a.None? || b.None? then Stopped(LoadFailed)
    else
      assert JoinKey in a.value.header <==> HasStrippedColumn(auditFile.table, JoinKey);
      assert JoinKey in b.value.header <==> HasStrippedColumn(inventoryFile.table, JoinKey);
      ReconcileTables(a.value, b.value)
  }

  /** Whitespace around the column names of the input files does not change the run. */
  lemma HeaderPaddingIrrelevant(a: Table, b: Table)
    requires WellFormed(a) && WellFormed(b)
    ensures Reconcile(Parsed(a), Parsed(b)) == Reconcile(Parsed(TrimHeaders(a)), Parsed(TrimHeaders(b)))
  {
    TrimHeadersIdempotent(a);
    TrimHeadersIdempotent(b);
  }

  /** With an empty inventory nothing matches: `resultado.csv` has no rows and every audit row is unmatched. */
  lemma EmptyInventory(audit: Table, inv: Table)
    requires WellFormed(audit) && WellFormed(inv) && inv.rows == []
    ensures ReconcileTables(audit, inv).Written? ==>
              ReconcileTables(audit, inv).report.matched.rows == [] &&
              ReconcileTables(audit, inv).report.unmatched == if audit.rows == [] then None else Some(audit)
  {
    var r := ReconcileTables(audit, inv);
    if r.Written? {
      var ka, ki := IndexOf(audit.header, JoinKey), IndexOf(inv.header, JoinKey);
      assert Pairs(audit.rows, ka, inv.rows, ki) == {};
      assert KeyValues(inv.rows, ki) == {};
      AntiJoinNoKeys(audit.rows, ka);
      if audit.rows != [] {
        assert audit.rows[0][ka] !in KeyValues(inv.rows, ki);
      }
    }
  }

  /** Each audit row is either unmatched or merged, so the counts add up to the audit row count. */
  lemma ReconcilePartition(audit: Table, inv: Table)
    requires WellFormed(audit) && WellFormed(inv)
    requires ReconcileTables(audit, inv).Written?
    ensures var r := ReconcileTables(audit, inv).report;
            var ka, ki := IndexOf(audit.header, JoinKey), IndexOf(inv.header, JoinKey);
            (if r.unmatched.Some? then |r.unmatched.value.rows| else 0)
              + |JoinedAuditRows(audit.rows, ka, inv.rows, ki)| == |audit.rows|
  {
    var ka, ki := IndexOf(audit.header, JoinKey), IndexOf(inv.header, JoinKey);
    Partition(audit.rows, ka, inv.rows, ki);
  }

  /** None of the report columns is the key or could be produced by suffixing another name. */
  lemma OutputColumnsArePlain()
    ensures forall c :: c in OutputColumns ==> c != JoinKey && !EndsWith(c, "_x") && !EndsWith(c, "_y")
  {
    forall c | c in OutputColumns
      ensures c != JoinKey && !EndsWith(c, "_x") && !EndsWith(c, "_y")
    {
      assert c[|c| - 2] != '_';
      assert |c| != |JoinKey| || c[0] != JoinKey[0];
    }
  }

  /** A report column that both tables define is suffixed on both sides, so the projection fails. */
  lemma SharedColumnFails(audit: Table, inv: Table, c: string)
    requires WellFormed(audit) && WellFormed(inv)
    requires UniqueKey(audit.header) && UniqueKey(inv.header)
    requires c in OutputColumns && c in audit.header && c in inv.header
    ensures ReconcileTables(audit, inv) == Stopped(ProcessingError(ColumnNotFound))
  {
    var ki := IndexOf(inv.header, JoinKey);
    OutputColumnsArePlain();
    MergedHeaderCount(audit.header, inv.header, ki, c);
    CountPositive(MergedHeader(audit.header, inv.header, ki), c);
  }

  /** The value a report column takes for the pair (audit row i, inventory row j): from whichever table defines it. */
  function SourceCell(audit: Table, inv: Table, i: nat, j: nat, c: string): string
    requires WellFormed(audit) && WellFormed(inv) && i < |audit.rows| && j < |inv.rows|
    requires c in audit.header || c in inv.header
  {
    if c in audit.header then audit.rows[i][IndexOf(audit.header, c)]
    else inv.rows[j][IndexOf(inv.header, c)]
  }

  /** Each report column is defined by exactly one of the two tables, exactly once. */
  predicate ColumnsFromOneSide(audit: Table, inv: Table) {
    forall m :: 0 <= m < |OutputColumns| ==> Count(audit.header, OutputColumns[m]) + Count(inv.header, OutputColumns[m]) == 1
  }

  /** The merged column a report column is read from: its audit position, or its inventory position shifted past the audit columns and the dropped key. */
  function MergedIndex(audit: Table, inv: Table, ki: nat, c: string): nat
    requires c in audit.header || c in inv.header
    requires ki < |inv.header| && inv.header[ki] != c
  {
    if c in audit.header then IndexOf(audit.header, c)
    else
      var q := IndexOf(inv.header, c);
      |audit.header| + (if q < ki then q else q - 1)
  }

  lemma MergedPosition(audit: Table, inv: Table, ki: nat, c: string)
    requires WellFormed(audit) && WellFormed(inv) && ki < |inv.header| && inv.header[ki] != c
    requires !EndsWith(c, "_x") && !EndsWith(c, "_y")
    requires Count(audit.header, c) + Count(inv.header, c) == 1
    ensures c in audit.header || c in inv.header
    ensures Count(MergedHeader(audit.header, inv.header, ki), c) == 1
    ensures var p := MergedIndex(audit, inv, ki, c);
            p < |MergedHeader(audit.header, inv.header, ki)| && MergedHeader(audit.header, inv.header, ki)[p] == c
    ensures forall i, j :: 0 <= i < |audit.rows| && 0 <= j < |inv.rows| ==>
              JoinRow(audit.rows[i], inv.rows[j], ki)[MergedIndex(audit, inv, ki, c)] == SourceCell(audit, inv, i, j, c)
  {
    CountPositive(audit.header, c);
    CountPositive(inv.header, c);
    MergedHeaderCount(audit.header, inv.header, ki, c);
    if c in audit.header {
      MergedFromAudit(audit, inv, ki, c);
    } else {
      MergedFromInventory(audit, inv, ki, c);
    }
  }

  /**
   * When every report column comes from exactly one table, `resultado.csv` has exactly the five
   * report columns, in order.
   */
  lemma ProjectedColumns(audit: Table, inv: Table)
    requires WellFormed(audit) && WellFormed(inv)
    requires UniqueKey(audit.header) && UniqueKey(inv.header)
    requires ColumnsFromOneSide(audit, inv)
    ensures ReconcileTables(audit, inv).Written?
    ensures ReconcileTables(audit, inv).report.matched.header == OutputColumns
  {
    var ka, ki := IndexOf(audit.header, JoinKey), IndexOf(inv.header, JoinKey);
    var joined := InnerJoin(audit, inv, ka, ki);
    OutputColumnsArePlain();
    forall n | 0 <= n < |OutputColumns| ensures Count(joined.header, OutputColumns[n]) == 1 {
      MergedPosition(audit, inv, ki, OutputColumns[n]);
    }
    ProjectExact(joined, OutputColumns);
  }

  /** Under that condition, where each report column is found in the merged frame. */
  lemma ReportPositions(audit: Table, inv: Table, ki: nat)
    requires WellFormed(audit) && WellFormed(inv)
    requires UniqueKey(inv.header) && ki == IndexOf(inv.header, JoinKey)
    requires ColumnsFromOneSide(audit, inv)
    ensures forall n :: 0 <= n < |OutputColumns| ==>
              var c := OutputColumns[n];
              && Count(MergedHeader(audit.header, inv.header, ki), c) == 1
              && (c in audit.header || c in inv.header)
              && c != inv.header[ki]
              && MergedIndex(audit, inv, ki, c) < |MergedHeader(audit.header, inv.header, ki)|
              && MergedHeader(audit.header, inv.header, ki)[MergedIndex(audit, inv, ki, c)] == c
              && forall i, j :: 0 <= i < |audit.rows| && 0 <= j < |inv.rows| ==>
                   JoinRow(audit.rows[i], inv.rows[j], ki)[MergedIndex(audit, inv, ki, c)] == SourceCell(audit, inv, i, j, c)
  {
    OutputColumnsArePlain();
    forall n | 0 <= n < |OutputColumns|
      ensures var c := OutputColumns[n];
              && Count(MergedHeader(audit.header, inv.header, ki), c) == 1
              && (c in audit.header || c in inv.header)
              && c != inv.header[ki]
              && MergedIndex(audit, inv, ki, c) < |MergedHeader(audit.header, inv.header, ki)|
              && MergedHeader(audit.header, inv.header, ki)[MergedIndex(audit, inv, ki, c)] == c
              && forall i, j :: 0 <= i < |audit.rows| && 0 <= j < |inv.rows| ==>
                   JoinRow(audit.rows[i], inv.rows[j], ki)[MergedIndex(audit, inv, ki, c)] == SourceCell(audit, inv, i, j, c)
    {
      MergedPosition(audit, inv, ki, OutputColumns[n]);
    }
  }

  /** `row` holds the five report columns of the pair (audit row i, inventory row j), each read from the table that defines it. */
  predicate CellsFrom(audit: Table, inv: Table, row: Row, i: nat, j: nat)
    requires WellFormed(audit) && WellFormed(inv) && i < |audit.rows| && j < |inv.rows|
  {
    |row| == |OutputColumns| &&
    forall n :: 0 <= n < |OutputColumns| ==>
      (OutputColumns[n] in audit.header || OutputColumns[n] in inv.header) &&
      row[n] == SourceCell(audit, inv, i, j, OutputColumns[n])
  }

  /**
   * Row k of `m` holds the report columns of the k-th matching pair, in the merge's order:
   * one row per pair and no other rows.
   */
  predicate RowsFromPairs(audit: Table, inv: Table, m: Table)
    requires WellFormed(audit) && WellFormed(inv) && JoinKey in audit.header && JoinKey in inv.header
  {
    var ka, ki := IndexOf(audit.header, JoinKey), IndexOf(inv.header, JoinKey);
    var ps := MatchingPairs(audit.rows, ka, inv.rows, ki);
    |m.rows| == |ps| &&
    forall k :: 0 <= k < |ps| ==>
      IsMatch(audit.rows, ka, inv.rows, ki, ps[k].0, ps[k].1) && CellsFrom(audit, inv, m.rows[k], ps[k].0, ps[k].1)
  }

  /** The pair a row of `resultado.csv` comes from: the k-th matching pair. */
  lemma ProjectedRow(audit: Table, inv: Table, k: nat) returns (i: nat, j: nat)
    requires WellFormed(audit) && WellFormed(inv)
    requires UniqueKey(audit.header) && UniqueKey(inv.header)
    requires ColumnsFromOneSide(audit, inv)
    requires ReconcileTables(audit, inv).Written? && k < |ReconcileTables(audit, inv).report.matched.rows|
    ensures var ps := MatchingPairs(audit.rows, IndexOf(audit.header, JoinKey), inv.rows, IndexOf(inv.header, JoinKey));
            k < |ps| && (i, j) == ps[k]
    ensures IsMatch(audit.rows, IndexOf(audit.header, JoinKey), inv.rows, IndexOf(inv.header, JoinKey), i, j)
    ensures CellsFrom(audit, inv, ReconcileTables(audit, inv).report.matched.rows[k], i, j)
  {
    var ka, ki := IndexOf(audit.header, JoinKey), IndexOf(inv.header, JoinKey);
    var joined := InnerJoin(audit, inv, ka, ki);
    var m := Project(joined, OutputColumns).value;
    assert m == ReconcileTables(audit, inv).report.matched;
    var ps := MatchingPairs(audit.rows, ka, inv.rows, ki);
    assert ps[k] in ps;
    i, j := ps[k].0, ps[k].1;
    JoinedRowCells(audit, inv, ki, joined, k, i, j);
  }

  /** The projection of one merged row holds the report cells of the pair it was merged from. */
  lemma JoinedRowCells(audit: Table, inv: Table, ki: nat, joined: Table, k: nat, i: nat, j: nat)
    requires WellFormed(audit) && WellFormed(inv)
    requires UniqueKey(inv.header) && ki == IndexOf(inv.header, JoinKey)
    requires ColumnsFromOneSide(audit, inv)
    requires WellFormed(joined) && joined.header == MergedHeader(audit.header, inv.header, ki)
    requires i < |audit.rows| && j < |inv.rows| && k < |joined.rows|
    requires joined.rows[k] == JoinRow(audit.rows[i], inv.rows[j], ki)
    ensures Project(joined, OutputColumns).Some?
    ensures CellsFrom(audit, inv, Project(joined, OutputColumns).value.rows[k], i, j)
  {
    ReportPositions(audit, inv, ki);
    ProjectExact(joined, OutputColumns);
    var m := Project(joined, OutputColumns).value;
    forall n | 0 <= n < |OutputColumns|
      ensures m.rows[k][n] == SourceCell(audit, inv, i, j, OutputColumns[n])
    {
      assert m.rows[k][n] == joined.rows[k][MergedIndex(audit, inv, ki, OutputColumns[n])];
    }
  }

  /**
   * Under the same condition, `resultado.csv` has one row per matching pair, in the merge's order,
   * every column read from the table that defines it (`Log` from the audit row, the others from
   * the inventory row when the inventory defines them).
   */
  lemma ProjectedCells(audit: Table, inv: Table)
    requires WellFormed(audit) && WellFormed(inv)
    requires UniqueKey(audit.header) && UniqueKey(inv.header)
    requires ColumnsFromOneSide(audit, inv)
    ensures ReconcileTables(audit, inv).Written?
    ensures RowsFromPairs(audit, inv, ReconcileTables(audit, inv).report.matched)
  {
    ProjectedColumns(audit, inv);
    var ka, ki := IndexOf(audit.header, JoinKey), IndexOf(inv.header, JoinKey);
    var m := ReconcileTables(audit, inv).report.matched;
    var ps := MatchingPairs(audit.rows, ka, inv.rows, ki);
    MatchCount(audit.rows, ka, inv.rows, ki);
    forall k | 0 <= k < |ps|
      ensures IsMatch(audit.rows, ka, inv.rows, ki, ps[k].0, ps[k].1) && CellsFrom(audit, inv, m.rows[k], ps[k].0, ps[k].1)
    {
      var i, j := ProjectedRow(audit, inv, k);
    }
  }
}
