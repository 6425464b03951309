/**
 * The relational core of `procesar_datos`: `pd.merge(audit, inventory, on=key)` (an inner join),
 * the columns of the merged frame, and `audit[~audit[key].isin(inventory[key])]` (an anti-join).
 */
module Join {
  import opened Tables

  /**
   * Audit row `ar` merged with inventory row `ir`: the audit cells keep their positions, and each
   * inventory cell other than the key follows them, one place earlier if it comes after the key.
   */
  function JoinRow(ar: Row, ir: Row, ki: nat): (r: Row)
    requires ki < |ir|
    ensures |r| == |ar| + |ir| - 1
    ensures forall p :: 0 <= p < |ar| ==> r[p] == ar[p]
    ensures forall q :: 0 <= q < |ir| && q != ki ==> r[|ar| + (if q < ki then q else q - 1)] == ir[q]
  {
    var r := ar + ir[..ki] + ir[ki + 1..];
    assert forall q :: 0 <= q < |ir| && q != ki ==> (ir[..ki] + ir[ki + 1..])[if q < ki then q else q - 1] == ir[q];
    r
  }

  /** `s` without the element at position `k`. */
  function Without(s: seq<string>, k: nat): (r: seq<string>)
    requires k < |s|
    ensures |r| == |s| - 1
  {
    s[..k] + s[k + 1..]
  }

  predicate EndsWith(s: string, suffix: string) {
    |suffix| <= |s| && s[|s| - |suffix|..] == suffix
  }

  /** A column name, suffixed when the other side of the merge also has a column of that name. */
  function Suffixed(c: string, other: seq<string>, suffix: string): string {
    if c in other then c + suffix else c
  }

  function Rename(h: seq<string>, other: seq<string>, suffix: string): (r: seq<string>)
    ensures |r| == |h|
  {
    if h == [] then [] else Rename(h[..|h| - 1], other, suffix) + [Suffixed(h[|h| - 1], other, suffix)]
  }

  lemma RenameAt(h: seq<string>, other: seq<string>, suffix: string, p: nat)
    requires p < |h|
    ensures Rename(h, other, suffix)[p] == Suffixed(h[p], other, suffix)
  {
    if p < |h| - 1 {
      RenameAt(h[..|h| - 1], other, suffix, p);
    }
  }

  /**
   * The merged frame's column names: the audit columns, then the inventory columns without its key;
   * a non-key name present on both sides becomes `name_x` on the audit side and `name_y` on the other.
   */
  function MergedHeader(ah: seq<string>, ih: seq<string>, ki: nat): (r: seq<string>)
    requires ki < |ih|
    ensures |r| == |ah| + |ih| - 1
  {
    var rest := Without(ih, ki);
    Rename(ah, rest, "_x") + Rename(rest, ah, "_y")
  }

  /** Names the other side does not share are left alone. */
  lemma {:induction false} RenameDisjoint(h: seq<string>, other: seq<string>, suffix: string)
    requires forall k :: 0 <= k < |h| ==> h[k] !in other
    ensures Rename(h, other, suffix) == h
  {
    if h != [] {
      var n := |h| - 1;
      RenameDisjoint(h[..n], other, suffix);
      assert h == h[..n] + [h[n]];
    }
  }

  /** The audit columns come first in the merged frame, suffixed `_x` when the inventory shares the name. */
  lemma MergedHeaderLeft(ah: seq<string>, ih: seq<string>, ki: nat, p: nat)
    requires ki < |ih| && p < |ah|
    ensures MergedHeader(ah, ih, ki)[p] == Suffixed(ah[p], Without(ih, ki), "_x")
  {
    RenameAt(ah, Without(ih, ki), "_x", p);
  }

  /** The inventory columns other than the key follow, suffixed `_y` when the audit table shares the name. */
  lemma MergedHeaderRight(ah: seq<string>, ih: seq<string>, ki: nat, q: nat)
    requires ki < |ih| && q < |ih| && q != ki
    ensures var q' := if q < ki then q else q - 1;
            MergedHeader(ah, ih, ki)[|ah| + q'] == Suffixed(ih[q], ah, "_y")
  {
    var rest := Without(ih, ki);
    var q' := if q < ki then q else q - 1;
    assert rest[q'] == ih[q];
    RenameAt(rest, ah, "_y", q');
  }

  lemma {:induction false} RenameCount(h: seq<string>, other: seq<string>, suffix: string, c: string)
    requires !EndsWith(c, suffix)
    ensures Count(Rename(h, other, suffix), c) == if c in other then 0 else Count(h, c)
  {
    if h != [] {
      var n := |h| - 1;
      var x := h[n];
      RenameCount(h[..n], other, suffix, c);
      var r := Rename(h, other, suffix);
      assert r[..n] == Rename(h[..n], other, suffix);
      if x in other {
        assert (x + suffix)[|x|..] == suffix;
      }
    }
  }

  lemma CountWithout(s: seq<string>, k: nat, c: string)
    requires k < |s| && s[k] != c
    ensures Count(Without(s, k), c) == Count(s, c)
    ensures c in Without(s, k) <==> c in s
  {
    assert s == s[..k] + [s[k]] + s[k + 1..];
    CountAppend(s[..k] + [s[k]], s[k + 1..], c);
    CountAppend(s[..k], [s[k]], c);
    CountAppend(s[..k], s[k + 1..], c);
    assert Count([s[k]], c) == 0 by {
      assert [s[k]][..0] == [];
    }
    CountPositive(s, c);
    CountPositive(Without(s, k), c);
  }

  /**
   * How often a plain name (not the key, not ending in a suffix) labels a merged column: a name
   * used on both sides disappears (both copies are suffixed); otherwise it keeps its own count.
   */
  lemma MergedHeaderCount(ah: seq<string>, ih: seq<string>, ki: nat, c: string)
    requires ki < |ih| && ih[ki] != c
    requires !EndsWith(c, "_x") && !EndsWith(c, "_y")
    ensures Count(MergedHeader(ah, ih, ki), c)
         == (if c in ih then 0 else Count(ah, c)) + (if c in ah then 0 else Count(ih, c))
  {
    var rest := Without(ih, ki);
    CountWithout(ih, ki, c);
    RenameCount(ah, rest, "_x", c);
    RenameCount(rest, ah, "_y", c);
    CountAppend(Rename(ah, rest, "_x"), Rename(rest, ah, "_y"), c);
  }

  /** Audit row `i` and inventory row `j` exist and agree on the key. */
  predicate IsMatch(audit: seq<Row>, ka: nat, inv: seq<Row>, ki: nat, i: int, j: int)
    requires HasCell(audit, ka) && HasCell(inv, ki)
  {
    0 <= i < |audit| && 0 <= j < |inv| && audit[i][ka] == inv[j][ki]
  }

  /** Every (audit row, inventory row) pair that agrees on the key. */
  ghost function Pairs(audit: seq<Row>, ka: nat, inv: seq<Row>, ki: nat): set<(int, int)>
    requires HasCell(audit, ka) && HasCell(inv, ki)
  {
    set i, j | 0 <= i < |audit| && 0 <= j < |inv| && IsMatch(audit, ka, inv, ki, i, j) :: (i, j)
  }

  /** Audit row first, then inventory row: the order the merge emits pairs in. */
  predicate Before(p: (int, int), q: (int, int)) {
    p.0 < q.0 || (p.0 == q.0 && p.1 < q.1)
  }

  predicate Ascending(ps: seq<(int, int)>) {
    forall a, b :: 0 <= a < b < |ps| ==> Before(ps[a], ps[b])
  }

  /** The pairs audit row `i`, with key value `v`, forms: one per inventory row carrying `v`. */
  function RowMatches(i: int, v: string, inv: seq<Row>, ki: nat): (ps: seq<(int, int)>)
    requires HasCell(inv, ki)
    ensures forall p :: p in ps <==> p.0 == i && 0 <= p.1 < |inv| && inv[p.1][ki] == v
    ensures Ascending(ps)
  {
    if inv == [] then []
    else
      var m := |inv| - 1;
      var ps := RowMatches(i, v, inv[..m], ki);
      assert forall p :: p in ps ==> p.1 < m;
      ps + (if inv[m][ki] == v then [(i, m)] else [])
  }

  /**
   * The row indexers of the inner merge: the matching pairs, audit row by audit row and,
   * within one audit row, in inventory order.
   */
  function MatchingPairs(audit: seq<Row>, ka: nat, inv: seq<Row>, ki: nat): (ps: seq<(int, int)>)
    requires HasCell(audit, ka) && HasCell(inv, ki)
    ensures forall p :: p in ps <==> IsMatch(audit, ka, inv, ki, p.0, p.1)
    ensures Ascending(ps)
  {
    if audit == [] then []
    else
      var n := |audit| - 1;
      var ps := MatchingPairs(audit[..n], ka, inv, ki);
      var qs := RowMatches(n, audit[n][ka], inv, ki);
      assert forall p :: p in ps ==> p.0 < n;
      AscendingAppend(ps, qs, n);
      ps + qs
  }

  /** Pairs of earlier audit rows, followed by pairs of audit row `n`, stay in order. */
  lemma AscendingAppend(ps: seq<(int, int)>, qs: seq<(int, int)>, n: int)
    requires Ascending(ps) && Ascending(qs)
    requires forall p :: p in ps ==> p.0 < n
    requires forall q :: q in qs ==> q.0 == n
    ensures Ascending(ps + qs)
  {
    forall a, b | 0 <= a < b < |ps + qs| ensures Before((ps + qs)[a], (ps + qs)[b]) {
      if b < |ps| {
        assert (ps + qs)[a] == ps[a] && (ps + qs)[b] == ps[b];
      } else if a >= |ps| {
        assert (ps + qs)[a] == qs[a - |ps|] && (ps + qs)[b] == qs[b - |ps|];
      } else {
        assert ps[a] in ps && qs[b - |ps|] in qs;
      }
    }
  }

  /** The merge emits each matching pair exactly once. */
  lemma MatchCount(audit: seq<Row>, ka: nat, inv: seq<Row>, ki: nat)
    requires HasCell(audit, ka) && HasCell(inv, ki)
    ensures |MatchingPairs(audit, ka, inv, ki)| == |Pairs(audit, ka, inv, ki)|
  {
    var ps := MatchingPairs(audit, ka, inv, ki);
    assert Pairs(audit, ka, inv, ki) == set p | p in ps;
    DistinctCard(ps);
  }

  /**
   * `pd.merge(audit, inv, on=key)`: the merged row of each matching pair, in the order
   * `MatchingPairs` lists them, and no other rows. `ka` and `ki` are the key columns of the two tables.
   */
  function InnerJoin(audit: Table, inv: Table, ka: nat, ki: nat): (r: Table)
    requires WellFormed(audit) && WellFormed(inv)
    requires ka < |audit.header| && ki < |inv.header|
    ensures WellFormed(r) && r.header == MergedHeader(audit.header, inv.header, ki)
    ensures |r.rows| == |Pairs(audit.rows, ka, inv.rows, ki)|
    ensures var ps := MatchingPairs(audit.rows, ka, inv.rows, ki);
            |r.rows| == |ps| &&
            forall k :: 0 <= k < |ps| ==> r.rows[k] == JoinRow(audit.rows[ps[k].0], inv.rows[ps[k].1], ki)
    ensures forall k :: 0 <= k < |r.rows| ==>
              exists i, j :: IsMatch(audit.rows, ka, inv.rows, ki, i, j)
                             && r.rows[k] == JoinRow(audit.rows[i], inv.rows[j], ki)
  {
    var ps := MatchingPairs(audit.rows, ka, inv.rows, ki);
    MatchCount(audit.rows, ka, inv.rows, ki);
    assert forall k :: 0 <= k < |ps| ==> ps[k] in ps;
    assert forall k :: 0 <= k < |ps| ==> IsMatch(audit.rows, ka, inv.rows, ki, ps[k].0, ps[k].1);
    Table(MergedHeader(audit.header, inv.header, ki), JoinRows(audit, inv, ki, ps))
  }

  /** The merged row of each pair in `ps`, in that order. */
  function JoinRows(audit: Table, inv: Table, ki: nat, ps: seq<(int, int)>): (r: seq<Row>)
    requires WellFormed(audit) && WellFormed(inv) && ki < |inv.header|
    requires forall k :: 0 <= k < |ps| ==> 0 <= ps[k].0 < |audit.rows| && 0 <= ps[k].1 < |inv.rows|
    ensures |r| == |ps|
    ensures forall k :: 0 <= k < |ps| ==>
              r[k] == JoinRow(audit.rows[ps[k].0], inv.rows[ps[k].1], ki) && |r[k]| == |audit.header| + |inv.header| - 1
  {
    seq(|ps|, k requires 0 <= k < |ps| => JoinRow(audit.rows[ps[k].0], inv.rows[ps[k].1], ki))
  }

  /** Every matching pair contributes its merged row. */
  lemma InnerJoinComplete(audit: Table, inv: Table, ka: nat, ki: nat)
    requires WellFormed(audit) && WellFormed(inv)
    requires ka < |audit.header| && ki < |inv.header|
    ensures forall i, j :: IsMatch(audit.rows, ka, inv.rows, ki, i, j) ==>
              JoinRow(audit.rows[i], inv.rows[j], ki) in InnerJoin(audit, inv, ka, ki).rows
  {
    var ps := MatchingPairs(audit.rows, ka, inv.rows, ki);
    var rows := InnerJoin(audit, inv, ka, ki).rows;
    forall i, j | IsMatch(audit.rows, ka, inv.rows, ki, i, j)
      ensures JoinRow(audit.rows[i], inv.rows[j], ki) in rows
    {
      assert (i, j) in ps;
      var k :| 0 <= k < |ps| && ps[k] == (i, j);
      assert rows[k] == JoinRow(audit.rows[i], inv.rows[j], ki);
    }
  }

  /** The values `isin` tests against: every inventory key value. */
  function KeyValues(rows: seq<Row>, col: nat): (keys: set<string>)
    requires HasCell(rows, col)
    ensures forall v :: v in keys <==> exists j :: 0 <= j < |rows| && rows[j][col] == v
  {
    set j | 0 <= j < |rows| :: rows[j][col]
  }

  /** Positions of the rows whose key is not among `keys`. */
  ghost function UnmatchedRows(rows: seq<Row>, col: nat, keys: set<string>): set<int>
    requires HasCell(rows, col)
  {
    set i | 0 <= i < |rows| && rows[i][col] !in keys
  }

  /** Positions of the rows whose key is among `keys`. */
  ghost function MatchedRows(rows: seq<Row>, col: nat, keys: set<string>): set<int>
    requires HasCell(rows, col)
  {
    set i | 0 <= i < |rows| && rows[i][col] in keys
  }

  /**
   * `rows[~rows[key].isin(keys)]`: the rows whose key is not among `keys`, every one of them,
   * unchanged and in their original order.
   */
  function AntiJoin(rows: seq<Row>, col: nat, keys: set<string>): (r: seq<Row>)
    requires HasCell(rows, col)
    ensures HasCell(r, col)
    ensures forall k :: 0 <= k < |r| ==> r[k][col] !in keys
    ensures |r| == |UnmatchedRows(rows, col, keys)|
  {
    if rows == [] then []
    else
      var n := |rows| - 1;
      var r := AntiJoin(rows[..n], col, keys);
      UnmatchedLast(rows, col, keys);
      if rows[n][col] !in keys then r + [rows[n]] else r
  }

  /** The anti-join keeps every row whose key is not among `keys`. */
  lemma {:induction false} AntiJoinComplete(rows: seq<Row>, col: nat, keys: set<string>)
    requires HasCell(rows, col)
    ensures forall i :: 0 <= i < |rows| && rows[i][col] !in keys ==> rows[i] in AntiJoin(rows, col, keys)
  {
    if rows != [] {
      var n := |rows| - 1;
      var front := rows[..n];
      AntiJoinComplete(front, col, keys);
      forall i | 0 <= i < |rows| && rows[i][col] !in keys ensures rows[i] in AntiJoin(rows, col, keys) {
        if i < n {
          assert front[i] == rows[i];
        }
      }
    }
  }

  /** The anti-join keeps some row exactly when some row's key is outside `keys`: what `.empty` tests. */
  lemma AntiJoinEmpty(rows: seq<Row>, col: nat, keys: set<string>)
    requires HasCell(rows, col)
    ensures |AntiJoin(rows, col, keys)| > 0 <==> exists i :: 0 <= i < |rows| && rows[i][col] !in keys
  {
    if |AntiJoin(rows, col, keys)| > 0 {
      var i :| i in UnmatchedRows(rows, col, keys);
    } else {
      AntiJoinComplete(rows, col, keys);
    }
  }

  /** The anti-join keeps rows in their original order, each unchanged. */
  lemma {:induction false} AntiJoinSubsequence(rows: seq<Row>, col: nat, keys: set<string>)
    requires HasCell(rows, col)
    ensures IsSubsequence(AntiJoin(rows, col, keys), rows)
  {
    if rows != [] {
      var n := |rows| - 1;
      var r := AntiJoin(rows[..n], col, keys);
      AntiJoinSubsequence(rows[..n], col, keys);
      if rows[n][col] !in keys {
        assert (r + [rows[n]])[..|r|] == r;
      }
    }
  }

  lemma UnmatchedLast(rows: seq<Row>, col: nat, keys: set<string>)
    requires HasCell(rows, col) && rows != []
    ensures |UnmatchedRows(rows, col, keys)|
         == |UnmatchedRows(rows[..|rows| - 1], col, keys)| + (if rows[|rows| - 1][col] !in keys then 1 else 0)
  {
    var n := |rows| - 1;
    var extra: set<int> := if rows[n][col] !in keys then {n} else {};
    UnmatchedLastSet(rows, col, keys);
    assert UnmatchedRows(rows[..n], col, keys) !! extra;
    assert |UnmatchedRows(rows[..n], col, keys) + extra| == |UnmatchedRows(rows[..n], col, keys)| + |extra|;
  }

  lemma UnmatchedLastSet(rows: seq<Row>, col: nat, keys: set<string>)
    requires HasCell(rows, col) && rows != []
    ensures UnmatchedRows(rows, col, keys)
         == UnmatchedRows(rows[..|rows| - 1], col, keys) + (if rows[|rows| - 1][col] !in keys then {|rows| - 1} else {})
  {
    var n := |rows| - 1;
    var front := rows[..n];
    assert forall i :: 0 <= i < n ==> front[i] == rows[i];
  }

  lemma MatchedLast(rows: seq<Row>, col: nat, keys: set<string>)
    requires HasCell(rows, col) && rows != []
    ensures |MatchedRows(rows, col, keys)|
         == |MatchedRows(rows[..|rows| - 1], col, keys)| + (if rows[|rows| - 1][col] in keys then 1 else 0)
  {
    var n := |rows| - 1;
    var extra: set<int> := if rows[n][col] in keys then {n} else {};
    MatchedLastSet(rows, col, keys);
    assert MatchedRows(rows[..n], col, keys) !! extra;
    assert |MatchedRows(rows[..n], col, keys) + extra| == |MatchedRows(rows[..n], col, keys)| + |extra|;
  }

  lemma MatchedLastSet(rows: seq<Row>, col: nat, keys: set<string>)
    requires HasCell(rows, col) && rows != []
    ensures MatchedRows(rows, col, keys)
         == MatchedRows(rows[..|rows| - 1], col, keys) + (if rows[|rows| - 1][col] in keys then {|rows| - 1} else {})
  {
    var n := |rows| - 1;
    var front := rows[..n];
    assert forall i :: 0 <= i < n ==> front[i] == rows[i];
  }

  /** Every row is matched or unmatched, never both. */
  lemma {:induction false} SplitCount(rows: seq<Row>, col: nat, keys: set<string>)
    requires HasCell(rows, col)
    ensures |UnmatchedRows(rows, col, keys)| + |MatchedRows(rows, col, keys)| == |rows|
  {
    if rows != [] {
      var n := |rows| - 1;
      SplitCount(rows[..n], col, keys);
      UnmatchedLast(rows, col, keys);
      MatchedLast(rows, col, keys);
    }
  }

  /** Audit rows that contribute at least one merged row. */
  ghost function JoinedAuditRows(audit: seq<Row>, ka: nat, inv: seq<Row>, ki: nat): set<int>
    requires HasCell(audit, ka) && HasCell(inv, ki)
  {
    set p | p in Pairs(audit, ka, inv, ki) :: p.0
  }

  /** One audit row: it contributes to the merge exactly when the anti-join drops it. */
  lemma PartitionRow(audit: seq<Row>, ka: nat, inv: seq<Row>, ki: nat, i: int)
    requires HasCell(audit, ka) && HasCell(inv, ki) && 0 <= i < |audit|
    ensures (exists j :: IsMatch(audit, ka, inv, ki, i, j)) <==> audit[i] !in AntiJoin(audit, ka, KeyValues(inv, ki))
  {
    var keys := KeyValues(inv, ki);
    var r := AntiJoin(audit, ka, keys);
    if exists j :: IsMatch(audit, ka, inv, ki, i, j) {
      var j :| IsMatch(audit, ka, inv, ki, i, j);
      assert audit[i][ka] in keys;
      assert forall k :: 0 <= k < |r| ==> r[k] != audit[i];
    } else {
      forall j | 0 <= j < |inv| ensures inv[j][ki] != audit[i][ka] {
        assert !IsMatch(audit, ka, inv, ki, i, j);
      }
      assert audit[i][ka] !in keys;
      AntiJoinComplete(audit, ka, keys);
    }
  }

  /**
   * Each audit row either contributes to the merge or is kept by the anti-join, never both,
   * so the two counts add up to the number of audit rows.
   */
  lemma Partition(audit: seq<Row>, ka: nat, inv: seq<Row>, ki: nat)
    requires HasCell(audit, ka) && HasCell(inv, ki)
    ensures forall i :: 0 <= i < |audit| ==>
              ((exists j :: IsMatch(audit, ka, inv, ki, i, j)) <==> audit[i] !in AntiJoin(audit, ka, KeyValues(inv, ki)))
    ensures |AntiJoin(audit, ka, KeyValues(inv, ki))| + |JoinedAuditRows(audit, ka, inv, ki)| == |audit|
  {
    forall i | 0 <= i < |audit|
      ensures (exists j :: IsMatch(audit, ka, inv, ki, i, j)) <==> audit[i] !in AntiJoin(audit, ka, KeyValues(inv, ki))
    {
      PartitionRow(audit, ka, inv, ki, i);
    }
    JoinedRowsAreMatched(audit, ka, inv, ki);
    SplitCount(audit, ka, KeyValues(inv, ki));
  }

  lemma JoinedRowsAreMatched(audit: seq<Row>, ka: nat, inv: seq<Row>, ki: nat)
    requires HasCell(audit, ka) && HasCell(inv, ki)
    ensures JoinedAuditRows(audit, ka, inv, ki) == MatchedRows(audit, ka, KeyValues(inv, ki))
  {
    var keys := KeyValues(inv, ki);
    forall i | i in MatchedRows(audit, ka, keys) ensures i in JoinedAuditRows(audit, ka, inv, ki) {
      var j :| 0 <= j < |inv| && inv[j][ki] == audit[i][ka];
      assert (i, j) in Pairs(audit, ka, inv, ki);
    }
  }

  /** With no inventory keys, the anti-join keeps the whole audit table. */
  lemma {:induction false} AntiJoinNoKeys(rows: seq<Row>, col: nat)
    requires HasCell(rows, col)
    ensures AntiJoin(rows, col, {}) == rows
  {
    if rows != [] {
      var n := |rows| - 1;
      AntiJoinNoKeys(rows[..n], col);
      assert AntiJoin(rows, col, {}) == AntiJoin(rows[..n], col, {}) + [rows[n]];
      assert rows == rows[..n] + [rows[n]];
    }
  }

  /** A name only the audit table has keeps its audit position in the merged frame. */
  lemma MergedFromAudit(audit: Table, inv: Table, ki: nat, c: string)
    requires WellFormed(audit) && WellFormed(inv) && ki < |inv.header|
    requires c in audit.header && c !in inv.header
    ensures var p := IndexOf(audit.header, c);
            && p < |MergedHeader(audit.header, inv.header, ki)|
            && MergedHeader(audit.header, inv.header, ki)[p] == c
            && forall i, j :: 0 <= i < |audit.rows| && 0 <= j < |inv.rows| ==>
                 JoinRow(audit.rows[i], inv.rows[j], ki)[p] == audit.rows[i][p]
  {
    var ah, ih := audit.header, inv.header;
    var p := IndexOf(ah, c);
    assert c !in Without(ih, ki);
    MergedHeaderLeft(ah, ih, ki, p);
  }

  /** A non-key name only the inventory has sits past the audit columns, one place earlier if it followed the key. */
  lemma MergedFromInventory(audit: Table, inv: Table, ki: nat, c: string)
    requires WellFormed(audit) && WellFormed(inv) && ki < |inv.header| && inv.header[ki] != c
    requires c !in audit.header && c in inv.header
    ensures var q := IndexOf(inv.header, c);
            var p := |audit.header| + (if q < ki then q else q - 1);
            && p < |MergedHeader(audit.header, inv.header, ki)|
            && MergedHeader(audit.header, inv.header, ki)[p] == c
            && forall i, j :: 0 <= i < |audit.rows| && 0 <= j < |inv.rows| ==>
                 JoinRow(audit.rows[i], inv.rows[j], ki)[p] == inv.rows[j][q]
  {
    var ah, ih := audit.header, inv.header;
    var q := IndexOf(ih, c);
    var q' := if q < ki then q else q - 1;
    MergedHeaderRight(ah, ih, ki, q);
  }
}
