/**
 * Loading a table (`leer_csv_limpio`): the parsed file arrives as a value, its column
 * names are stripped of surrounding whitespace, and any load failure becomes "no table".
 */
module Headers {
  import opened Tables

  /** The characters Python's `str.isspace` accepts, which `str.strip()` removes from both ends. */
  predicate IsSpace(c: char) {
    var n := c as int;
    (9 <= n <= 13) || (28 <= n <= 32) || n == 0x85 || n == 0xA0 || n == 0x1680
    || (0x2000 <= n <= 0x200A) || n == 0x2028 || n == 0x2029 || n == 0x202F
    || n == 0x205F || n == 0x3000
  }

  /** The characters of `s` at positions `i` up to `j` are all whitespace. */
  predicate SpaceBetween(s: string, i: nat, j: nat)
    requires i <= j <= |s|
  {
    forall k :: i <= k < j ==> IsSpace(s[k])
  }

  /** No whitespace at either end. */
  predicate IsStripped(s: string) {
    s == [] || (!IsSpace(s[0]) && !IsSpace(s[|s| - 1]))
  }

  /** `r` is `s` with a whitespace-only prefix and suffix cut off, and has no whitespace left at its ends. */
  ghost predicate StripsTo(s: string, r: string) {
    IsStripped(r) &&
    exists i, j :: 0 <= i <= j <= |s| && r == s[i..j] && SpaceBetween(s, 0, i) && SpaceBetween(s, j, |s|)
  }

  /** Length of the longest whitespace prefix. */
  function LeadingSpaces(s: string): (n: nat)
    ensures n <= |s| && SpaceBetween(s, 0, n)
    ensures n == |s| || !IsSpace(s[n])
  {
    if s != [] && IsSpace(s[0]) then
      var n := 1 + LeadingSpaces(s[1..]);
      assert forall k :: 1 <= k < n ==> s[k] == s[1..][k - 1];
      n
    else 0
  }

  /** Length of the longest whitespace suffix. */
  function TrailingSpaces(s: string): (n: nat)
    ensures n <= |s| && SpaceBetween(s, |s| - n, |s|)
    ensures n == |s| || !IsSpace(s[|s| - n - 1])
  {
    if s != [] && IsSpace(s[|s| - 1]) then
      var t := s[..|s| - 1];
      var n := 1 + TrailingSpaces(t);
      assert forall k :: |s| - n <= k < |s| - 1 ==> s[k] == t[k];
      n
    else 0
  }

  /** Python's `str.strip()` without arguments. */
  function Strip(s: string): (r: string)
    ensures StripsTo(s, r)
  {
    var i := LeadingSpaces(s);
    var n := TrailingSpaces(s);
    if i == |s| then
      assert StripsTo(s, s[i..i]);
      []
    else
      var j := |s| - n;
      assert i < j;
      assert StripsTo(s, s[i..j]);
      s[i..j]
  }

  /** Any whitespace prefix ending at a non-space character is the longest one. */
  lemma FirstNonSpace(s: string, i: nat)
    requires i <= |s| && SpaceBetween(s, 0, i) && (i == |s| || !IsSpace(s[i]))
    ensures LeadingSpaces(s) == i
  {
  }

  /** Any whitespace suffix starting after a non-space character is the longest one. */
  lemma LastNonSpace(s: string, j: nat)
    requires j <= |s| && SpaceBetween(s, j, |s|) && (j == 0 || !IsSpace(s[j - 1]))
    ensures TrailingSpaces(s) == |s| - j
  {
  }

  /** `Strip` is the only function meeting its contract: stripping is uniquely determined. */
  lemma StripUnique(s: string, r: string)
    requires StripsTo(s, r)
    ensures r == Strip(s)
  {
    var i, j :| 0 <= i <= j <= |s| && r == s[i..j] && SpaceBetween(s, 0, i) && SpaceBetween(s, j, |s|);
    if i == j {
      StripAllSpace(s, i);
    } else {
      StripAt(s, i, j);
    }
  }

  lemma StripAllSpace(s: string, i: nat)
    requires i <= |s| && SpaceBetween(s, 0, i) && SpaceBetween(s, i, |s|)
    ensures Strip(s) == []
  {
    FirstNonSpace(s, |s|);
  }

  lemma StripAt(s: string, i: nat, j: nat)
    requires i < j <= |s| && SpaceBetween(s, 0, i) && SpaceBetween(s, j, |s|)
    requires !IsSpace(s[i]) && !IsSpace(s[j - 1])
    ensures Strip(s) == s[i..j]
  {
    FirstNonSpace(s, i);
    LastNonSpace(s, j);
  }

  /** Stripping twice is stripping once. */
  lemma StripIdempotent(s: string)
    ensures Strip(Strip(s)) == Strip(s)
  {
    var r := Strip(s);
    assert StripsTo(r, r) by {
      assert r == r[0..|r|];
    }
    StripUnique(r, r);
  }

  /** A column name padded with whitespace on either side strips to the bare name. */
  lemma StripPadding(pre: string, name: string, post: string)
    requires SpaceBetween(pre, 0, |pre|) && SpaceBetween(post, 0, |post|) && IsStripped(name)
    ensures Strip(pre + name + post) == name
  {
    var s := pre + name + post;
    assert s[|pre|..|pre| + |name|] == name;
    assert forall k :: 0 <= k < |pre| ==> s[k] == pre[k];
    assert forall k :: |pre| + |name| <= k < |s| ==> s[k] == post[k - |pre| - |name|];
    StripUnique(s, name);
  }

  /** Whether the table is clean: no column name carries surrounding whitespace. */
  predicate HeadersStripped(t: Table) {
    forall k :: 0 <= k < |t.header| ==> IsStripped(t.header[k])
  }

  /** `df.columns = df.columns.str.strip()`: rename every column, leave every cell alone. */
  function TrimHeaders(t: Table): (r: Table)
    ensures r.rows == t.rows
    ensures |r.header| == |t.header|
    ensures forall k :: 0 <= k < |t.header| ==> StripsTo(t.header[k], r.header[k])
    ensures HeadersStripped(r)
    ensures WellFormed(t) ==> WellFormed(r)
  {
    Table(seq(|t.header|, k requires 0 <= k < |t.header| => Strip(t.header[k])), t.rows)
  }

  /** Trimming an already trimmed table changes nothing. */
  lemma TrimHeadersIdempotent(t: Table)
    ensures TrimHeaders(TrimHeaders(t)) == TrimHeaders(t)
  {
    var r := TrimHeaders(t);
    forall k | 0 <= k < |r.header| ensures Strip(r.header[k]) == r.header[k] {
      StripIdempotent(t.header[k]);
    }
  }

  /** Why `pd.read_csv` gave no data frame; only ever printed. */
  datatype LoadError = NotFound | ParseError | Unknown(cause: string)

  /** What reading a CSV file produced: a parsed table or the exception it raised. */
  datatype ReadResult = Parsed(table: Table) | ReadFailed(error: LoadError)

  /** `leer_csv_limpio`: the header-trimmed table, or None whatever the failure. */
  function Load(file: ReadResult): (r: Option<Table>)
    ensures r.None? <==> file.ReadFailed?
    ensures r.Some? ==> r.value.rows == file.table.rows && |r.value.header| == |file.table.header|
    ensures r.Some? ==> forall k :: 0 <= k < |r.value.header| ==> StripsTo(file.table.header[k], r.value.header[k])
  {
    match file
    case Parsed(t) => Some(TrimHeaders(t))
    case ReadFailed(_) => None
  }
}
