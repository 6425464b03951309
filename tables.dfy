/** Tables as the reconciliation step sees them once a CSV file has been parsed. */
module Tables {

  datatype Option<T> = None | Some(value: T)

  /** One data row: a cell per column, in header order. */
  type Row = seq<string>

  /** A parsed CSV file: the header row and the data rows; every cell is a string. */
  datatype Table = Table(header: seq<string>, rows: seq<Row>)

  /** Every row has exactly one cell per column, as in any data frame. */
  predicate WellFormed(t: Table) {
    forall k :: 0 <= k < |t.rows| ==> |t.rows[k]| == |t.header|
  }

  /** Every row has a cell at position `col`. */
  predicate HasCell(rows: seq<Row>, col: nat) {
    forall k :: 0 <= k < |rows| ==> col < |rows[k]|
  }

  /** How many columns of `h` are named `c`. */
  function Count(h: seq<string>, c: string): nat {
    if h == [] then 0 else Count(h[..|h| - 1], c) + (if h[|h| - 1] == c then 1 else 0)
  }

  lemma {:induction false} CountPositive(h: seq<string>, c: string)
    ensures Count(h, c) > 0 <==> c in h
  {
    if h != [] {
      CountPositive(h[..|h| - 1], c);
      assert h == h[..|h| - 1] + [h[|h| - 1]];
    }
  }

  lemma {:induction false} CountAppend(a: seq<string>, b: seq<string>, c: string)
    ensures Count(a + b, c) == Count(a, c) + Count(b, c)
  {
    if b == [] {
      assert a + b == a;
    } else {
      assert (a + b)[..|a + b| - 1] == a + b[..|b| - 1];
      CountAppend(a, b[..|b| - 1], c);
    }
  }

  /** The position of the first column of `h` named `c`. */
  function IndexOf(h: seq<string>, c: string): (i: nat)
    requires c in h
    ensures i < |h| && h[i] == c
    ensures forall k :: 0 <= k < i ==> h[k] != c
  {
    if h[0] == c then 0 else 1 + IndexOf(h[1..], c)
  }

  /** The positions of the columns of `h` named `c`, left to right. */
  function Occurrences(h: seq<string>, c: string): (ix: seq<nat>)
    ensures forall k :: 0 <= k < |ix| ==> ix[k] < |h| && h[ix[k]] == c
  {
    if h == [] then []
    else Occurrences(h[..|h| - 1], c) + (if h[|h| - 1] == c then [|h| - 1] else [])
  }

  /** One position per column named `c`... */
  lemma {:induction false} OccurrencesCount(h: seq<string>, c: string)
    ensures |Occurrences(h, c)| == Count(h, c)
  {
    if h != [] {
      OccurrencesCount(h[..|h| - 1], c);
    }
  }

  /** ...every such column is listed... */
  lemma {:induction false} OccurrencesComplete(h: seq<string>, c: string, i: nat)
    requires i < |h| && h[i] == c
    ensures i in Occurrences(h, c)
  {
    if i < |h| - 1 {
      OccurrencesComplete(h[..|h| - 1], c, i);
    }
  }

  /** ...and listed left to right. */
  lemma {:induction false} OccurrencesAscending(h: seq<string>, c: string)
    ensures forall k, l :: 0 <= k < l < |Occurrences(h, c)| ==> Occurrences(h, c)[k] < Occurrences(h, c)[l]
  {
    if h != [] {
      OccurrencesAscending(h[..|h| - 1], c);
    }
  }

  /** A name that labels exactly one column is found at that column only. */
  lemma SingleOccurrence(h: seq<string>, c: string, p: nat)
    requires Count(h, c) == 1 && p < |h| && h[p] == c
    ensures Occurrences(h, c) == [p]
  {
    OccurrencesCount(h, c);
    OccurrencesComplete(h, c, p);
  }

  /** The column positions `df[cols]` selects: for each requested name in turn, every column carrying it. */
  function Positions(h: seq<string>, cols: seq<string>): (ix: seq<nat>)
    ensures forall k :: 0 <= k < |ix| ==> ix[k] < |h| && h[ix[k]] in cols
  {
    if cols == [] then []
    else
      var ix := Positions(h, cols[..|cols| - 1]) + Occurrences(h, cols[|cols| - 1]);
      assert forall k :: 0 <= k < |cols| - 1 ==> cols[..|cols| - 1][k] == cols[k];
      ix
  }

  /** The cells of `r` at positions `ix`, in that order. */
  function Pick(r: Row, ix: seq<nat>): (p: Row)
    requires forall k :: 0 <= k < |ix| ==> ix[k] < |r|
    ensures |p| == |ix|
    ensures forall k :: 0 <= k < |ix| ==> p[k] == r[ix[k]]
  {
    seq(|ix|, k requires 0 <= k < |ix| => r[ix[k]])
  }

  /** Column `m` of `r` is column `p` of `t`: same name, same cell in every row. */
  predicate SameColumn(t: Table, p: int, r: Table, m: int) {
    0 <= p < |t.header| && 0 <= m < |r.header| && t.header[p] == r.header[m] &&
    forall k :: 0 <= k < |t.rows| && k < |r.rows| && m < |r.rows[k]| && p < |t.rows[k]| ==> r.rows[k][m] == t.rows[k][p]
  }

  /**
   * What `df[cols]` promises of its result `r`: column m of `r` is, whole, the input column at the
   * m-th selected position; every column of `r` carries a requested name; every input column
   * carrying a requested name is copied; and each name labels as many columns of `r` as of `t`,
   * once for each time `cols` requests it.
   */
  ghost predicate SelectsColumns(t: Table, cols: seq<string>, r: Table) {
    && |r.rows| == |t.rows|
    && |r.header| == |Positions(t.header, cols)|
    && (forall m :: 0 <= m < |r.header| ==> SameColumn(t, Positions(t.header, cols)[m], r, m))
    && (forall m :: 0 <= m < |r.header| ==> r.header[m] in cols && exists p :: SameColumn(t, p, r, m))
    && (forall p :: 0 <= p < |t.header| && t.header[p] in cols ==> exists m :: SameColumn(t, p, r, m))
    && (forall c :: Count(r.header, c) == Count(cols, c) * Count(t.header, c))
  }

  /** Column selection `df[cols]`. A requested name the table does not have is a KeyError, modelled as None. */
  function Project(t: Table, cols: seq<string>): (r: Option<Table>)
    requires WellFormed(t)
    ensures r.None? <==> exists c :: c in cols && c !in t.header
    ensures r.Some? ==> WellFormed(r.value) && |r.value.rows| == |t.rows|
    ensures r.Some? ==> forall m :: 0 <= m < |r.value.header| ==> r.value.header[m] in cols
    ensures r.Some? ==> SelectsColumns(t, cols, r.value)
  {
    if exists c :: c in cols && c !in t.header then None
    else
      SelectionColumns(t, cols);
      Some(Selection(t, cols))
  }

  /** The columns at the positions `df[cols]` selects, in that order. */
  function Selection(t: Table, cols: seq<string>): (r: Table)
    requires WellFormed(t)
    ensures WellFormed(r) && |r.rows| == |t.rows|
    ensures forall m :: 0 <= m < |r.header| ==> r.header[m] in cols
  {
    var ix := Positions(t.header, cols);
    Table(Pick(t.header, ix), seq(|t.rows|, k requires 0 <= k < |t.rows| => Pick(t.rows[k], ix)))
  }

  lemma SelectionColumns(t: Table, cols: seq<string>)
    requires WellFormed(t)
    ensures SelectsColumns(t, cols, Selection(t, cols))
  {
    var ix := Positions(t.header, cols);
    var r := Selection(t, cols);
    forall m | 0 <= m < |r.header| ensures SameColumn(t, ix[m], r, m) {
    }
    forall p | 0 <= p < |t.header| && t.header[p] in cols ensures exists m :: SameColumn(t, p, r, m) {
      PositionsCover(t.header, cols, t.header[p], p);
      var m :| 0 <= m < |ix| && ix[m] == p;
      assert SameColumn(t, p, r, m);
    }
    forall c ensures Count(r.header, c) == Count(cols, c) * Count(t.header, c) {
      PositionsCount(t.header, cols, c);
    }
  }

  /** Every column carrying a requested name is among the selected positions. */
  lemma {:induction false} PositionsCover(h: seq<string>, cols: seq<string>, c: string, p: nat)
    requires c in cols && p < |h| && h[p] == c
    ensures p in Positions(h, cols)
  {
    var n := |cols| - 1;
    var front := Positions(h, cols[..n]);
    assert Positions(h, cols) == front + Occurrences(h, cols[n]);
    if cols[n] == c {
      OccurrencesComplete(h, c, p);
    } else {
      var i :| 0 <= i < |cols| && cols[i] == c;
      assert cols[..n][i] == c;
      PositionsCover(h, cols[..n], c, p);
      assert p in front;
    }
  }

  /** Picking positions `a` then positions `b` is picking `a + b`. */
  lemma PickAppend(r: Row, a: seq<nat>, b: seq<nat>)
    requires forall k :: 0 <= k < |a| ==> a[k] < |r|
    requires forall k :: 0 <= k < |b| ==> b[k] < |r|
    ensures Pick(r, a + b) == Pick(r, a) + Pick(r, b)
  {
  }

  /** In a sequence whose every element is `d`, `c` occurs all over or nowhere. */
  lemma {:induction false} CountUniform(s: seq<string>, d: string, c: string)
    requires forall k :: 0 <= k < |s| ==> s[k] == d
    ensures Count(s, c) == if d == c then |s| else 0
  {
    if s != [] {
      CountUniform(s[..|s| - 1], d, c);
    }
  }

  /** Picking the columns named `d` yields `d` once per such column. */
  lemma PickOccurrencesCount(h: seq<string>, d: string, c: string)
    ensures Count(Pick(h, Occurrences(h, d)), c) == if d == c then Count(h, c) else 0
  {
    OccurrencesCount(h, d);
    CountUniform(Pick(h, Occurrences(h, d)), d, c);
  }

  lemma MulStep(x: int, a: int, b: int, step: bool)
    requires x == a + (if step then 1 else 0)
    ensures x * b == a * b + (if step then b else 0)
  {
  }

  /** `df[cols]` labels a column `c` once per column named `c`, for each time `cols` requests `c`. */
  lemma {:induction false} PositionsCount(h: seq<string>, cols: seq<string>, c: string)
    ensures Count(Pick(h, Positions(h, cols)), c) == Count(cols, c) * Count(h, c)
  {
    if cols != [] {
      var n := |cols| - 1;
      var d := cols[n];
      var front := Positions(h, cols[..n]);
      var o := Occurrences(h, d);
      PositionsCount(h, cols[..n], c);
      assert Positions(h, cols) == front + o;
      PickAppend(h, front, o);
      CountAppend(Pick(h, front), Pick(h, o), c);
      PickOccurrencesCount(h, d, c);
      var a, b := Count(cols[..n], c), Count(h, c);
      assert Count(cols, c) == a + (if d == c then 1 else 0);
      MulStep(Count(cols, c), a, b, d == c);
    }
  }

  /** When each requested name labels exactly one column, `df[cols]` takes exactly that column for each name, in order. */
  lemma {:induction false} PositionsUnique(h: seq<string>, cols: seq<string>)
    requires forall m :: 0 <= m < |cols| ==> Count(h, cols[m]) == 1
    ensures |Positions(h, cols)| == |cols|
    ensures forall m, p :: 0 <= m < |cols| && 0 <= p < |h| && h[p] == cols[m] ==> Positions(h, cols)[m] == p
  {
    if cols != [] {
      var n := |cols| - 1;
      var init := cols[..n];
      assert forall m :: 0 <= m < n ==> init[m] == cols[m];
      PositionsUnique(h, init);
      var front := Positions(h, init);
      var o := Occurrences(h, cols[n]);
      OccurrencesCount(h, cols[n]);
      var ix := front + o;
      assert Positions(h, cols) == ix;
      forall m, p | 0 <= m < |cols| && 0 <= p < |h| && h[p] == cols[m]
        ensures ix[m] == p
      {
        if m == n {
          SingleOccurrence(h, cols[n], p);
        } else {
          assert ix[m] == front[m] && init[m] == cols[m];
        }
      }
    }
  }

  /** When each requested name labels exactly one column, the projection has exactly those columns, in that order, cell for cell. */
  lemma ProjectExact(t: Table, cols: seq<string>)
    requires WellFormed(t)
    requires forall m :: 0 <= m < |cols| ==> Count(t.header, cols[m]) == 1
    ensures Project(t, cols).Some?
    ensures Project(t, cols).value.header == cols
    ensures forall k, m, p :: 0 <= k < |t.rows| && 0 <= m < |cols| && 0 <= p < |t.header| && t.header[p] == cols[m]
              ==> Project(t, cols).value.rows[k][m] == t.rows[k][p]
  {
    forall m | 0 <= m < |cols| ensures cols[m] in t.header {
      CountPositive(t.header, cols[m]);
    }
    PositionsUnique(t.header, cols);
    ProjectHeader(t, cols);
    ProjectCells(t, cols);
  }

  lemma ProjectHeader(t: Table, cols: seq<string>)
    requires WellFormed(t)
    requires forall m :: 0 <= m < |cols| ==> cols[m] in t.header
    requires |Positions(t.header, cols)| == |cols|
    requires forall m, p :: 0 <= m < |cols| && 0 <= p < |t.header| && t.header[p] == cols[m] ==> Positions(t.header, cols)[m] == p
    ensures Project(t, cols).Some?
    ensures Project(t, cols).value.header == cols
  {
    var ix := Positions(t.header, cols);
    assert Project(t, cols) == Some(Selection(t, cols));
    assert Project(t, cols).value.header == Pick(t.header, ix);
    forall m | 0 <= m < |cols| ensures t.header[ix[m]] == cols[m] {
      var p := IndexOf(t.header, cols[m]);
    }
  }

  lemma ProjectCells(t: Table, cols: seq<string>)
    requires WellFormed(t)
    requires forall m :: 0 <= m < |cols| ==> cols[m] in t.header
    requires |Positions(t.header, cols)| == |cols|
    requires forall m, p :: 0 <= m < |cols| && 0 <= p < |t.header| && t.header[p] == cols[m] ==> Positions(t.header, cols)[m] == p
    ensures Project(t, cols).Some?
    ensures forall k, m, p :: 0 <= k < |t.rows| && 0 <= m < |cols| && 0 <= p < |t.header| && t.header[p] == cols[m]
              ==> |Project(t, cols).value.rows[k]| == |cols| && Project(t, cols).value.rows[k][m] == t.rows[k][p]
  {
    var ix := Positions(t.header, cols);
    assert Project(t, cols) == Some(Selection(t, cols));
    var r := Project(t, cols).value;
    forall k | 0 <= k < |t.rows| ensures r.rows[k] == Pick(t.rows[k], ix) { }
  }

  /** `s` keeps some of the elements of `t`, in their order in `t`. */
  ghost predicate IsSubsequence<T>(s: seq<T>, t: seq<T>)
    decreases |t|
  {
    if s == [] then true
    else if t == [] then false
    else (s[|s| - 1] == t[|t| - 1] && IsSubsequence(s[..|s| - 1], t[..|t| - 1]))
         || IsSubsequence(s, t[..|t| - 1])
  }

  /** A sequence without repeated elements has as many distinct elements as it is long. */
  lemma {:induction false} DistinctCard<T>(s: seq<T>)
    requires forall a, b :: 0 <= a < b < |s| ==> s[a] != s[b]
    ensures |set x | x in s| == |s|
  {
    if s != [] {
      var n := |s| - 1;
      DistinctCard(s[..n]);
      assert (set x | x in s) == (set x | x in s[..n]) + {s[n]};
      assert s[n] !in s[..n];
    }
  }
}
