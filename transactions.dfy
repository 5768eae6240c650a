/** The per-row cleanup of `load_data` (app2.py:215-220): every cell of a
    spreadsheet row is normalised (a blank becomes the empty string, a
    string is stripped of surrounding whitespace, any other value is kept),
    the cells that ended up as the empty string are dropped, and what is
    left, in its original left-to-right order, is that row's transaction. */
module Transactions {
  import opened Subsequences

  /** The whitespace set of Python's `str.isspace`, which `str.strip()` removes. */
  predicate IsSpace(c: char) {
    || ('\t' <= c <= '\r')                  // tab, line feed, vertical tab, form feed, carriage return
    || ('\U{1C}' <= c <= '\U{1F}')          // file, group, record and unit separators
    || c == ' '
    || c == '\U{85}'                        // next line
    || c == '\U{A0}'                        // no-break space
    || c == '\U{1680}'                      // ogham space mark
    || ('\U{2000}' <= c <= '\U{200A}')      // en quad .. hair space
    || c == '\U{2028}' || c == '\U{2029}'   // line and paragraph separators
    || c == '\U{202F}' || c == '\U{205F}' || c == '\U{3000}'
  }

  ghost predicate AllSpace(s: string) {
    forall k :: 0 <= k < |s| ==> IsSpace(s[k])
  }

  /** Every character of `s` from position `lo` up to `hi` is whitespace. */
  ghost predicate SpaceBetween(s: string, lo: int, hi: int)
    requires 0 <= lo <= hi <= |s|
  {
    forall k :: lo <= k < hi ==> IsSpace(s[k])
  }

  /** Neither end of `s` is whitespace. */
  ghost predicate IsStripped(s: string) {
    s == [] || (!IsSpace(s[0]) && !IsSpace(s[|s| - 1]))
  }

  /** `r` is `s[i..j]` and everything outside that slice is whitespace. */
  ghost predicate CutAt(s: string, r: string, i: int, j: int) {
    && 0 <= i <= j <= |s|
    && r == s[i..j]
    && SpaceBetween(s, 0, i)
    && SpaceBetween(s, j, |s|)
  }

  /** The position of the first non-whitespace character at or after `i`
      (`|s|` when there is none): the left scan of `str.strip()`. */
  function SkipSpace(s: string, i: nat): (j: nat)
    requires i <= |s|
    ensures i <= j <= |s|
    ensures SpaceBetween(s, i, j)
    ensures j == |s| || !IsSpace(s[j])
    decreases |s| - i
  {
    if i < |s| && IsSpace(s[i]) then SkipSpace(s, i + 1) else i
  }

  /** The end of `s[lo..hi]` once its trailing whitespace is dropped: the
      right scan of `str.strip()`, which stops at `lo`. */
  function SkipSpaceBack(s: string, lo: nat, hi: nat): (j: nat)
    requires lo <= hi <= |s|
    ensures lo <= j <= hi
    ensures SpaceBetween(s, j, hi)
    ensures j == lo || !IsSpace(s[j - 1])
    decreases hi
  {
    if lo < hi && IsSpace(s[hi - 1]) then SkipSpaceBack(s, lo, hi - 1) else hi
  }

  /** Python's `str.strip()` with no argument. */
  function Strip(s: string): (r: string)
    ensures IsStripped(r)
    ensures exists i, j :: CutAt(s, r, i, j)
  {
    var i := SkipSpace(s, 0);
    var j := SkipSpaceBack(s, i, |s|);
    assert CutAt(s, s[i..j], i, j);
    s[i..j]
  }

  /** Cutting nothing out of `s` but whitespace leaves "" only if `s` is blank. */
  lemma EmptyCutIsBlank(s: string, i: int, j: int)
    requires CutAt(s, [], i, j)
    ensures AllSpace(s)
  {
  }

  /** A non-space character with only whitespace before it is the first one. */
  lemma FirstNonSpaceUnique(s: string, a: int, b: int)
    requires 0 <= a < |s| && 0 <= b < |s|
    requires SpaceBetween(s, 0, a) && !IsSpace(s[a])
    requires SpaceBetween(s, 0, b) && !IsSpace(s[b])
    ensures a == b
  {
  }

  /** A non-space character with only whitespace after it is the last one. */
  lemma LastNonSpaceUnique(s: string, a: int, b: int)
    requires 0 <= a < |s| && 0 <= b < |s|
    requires SpaceBetween(s, a + 1, |s|) && !IsSpace(s[a])
    requires SpaceBetween(s, b + 1, |s|) && !IsSpace(s[b])
    ensures a == b
  {
  }

  /** Two ways of cutting only whitespace off `s` that both leave no
      whitespace at either end give the same string. */
  lemma StrippedCutsAgree(s: string, r: string, i: int, j: int, r': string, i': int, j': int)
    requires CutAt(s, r, i, j) && IsStripped(r)
    requires CutAt(s, r', i', j') && IsStripped(r')
    ensures r == r'
  {
    if r == [] {
      EmptyCutIsBlank(s, i, j);
    } else if r' == [] {
      EmptyCutIsBlank(s, i', j');
    } else {
      assert s[i] == r[0] && s[i'] == r'[0];
      FirstNonSpaceUnique(s, i, i');
      assert s[j - 1] == r[|r| - 1] && s[j' - 1] == r'[|r'| - 1];
      LastNonSpaceUnique(s, j - 1, j' - 1);
    }
  }

  /** The two properties of `Strip` determine its result: removing only
      whitespace, and leaving no whitespace at either end. */
  lemma StripUnique(s: string, r: string, i: int, j: int)
    requires CutAt(s, r, i, j) && IsStripped(r)
    ensures r == Strip(s)
  {
    var r0 := Strip(s);
    var i0, j0 :| CutAt(s, r0, i0, j0);
    StrippedCutsAgree(s, r, i, j, r0, i0, j0);
  }

  /** Stripping twice is the same as stripping once. */
  lemma StripIdempotent(s: string)
    ensures Strip(Strip(s)) == Strip(s)
  {
    var r := Strip(s);
    assert CutAt(r, r, 0, |r|);
    StripUnique(r, r, 0, |r|);
  }

  /** A whitespace-only cut that leaves no whitespace at either end leaves
      "" exactly when the string is blank. */
  lemma StrippedCutEmptyIffBlank(s: string, r: string, i: int, j: int)
    requires CutAt(s, r, i, j) && IsStripped(r)
    ensures r == [] <==> AllSpace(s)
  {
    if r == [] {
      EmptyCutIsBlank(s, i, j);
    } else {
      assert r[0] == s[i];
    }
  }

  /** A string strips to "" exactly when it is all whitespace. */
  lemma StripEmptyIffBlank(s: string)
    ensures Strip(s) == [] <==> AllSpace(s)
  {
    var r := Strip(s);
    var i, j :| CutAt(s, r, i, j);
    StrippedCutEmptyIffBlank(s, r, i, j);
  }

  /** One spreadsheet cell as pandas reads it: a blank, a string, or any
      other value (a number, a date, a boolean), which the cleanup never
      changes. */
  datatype Cell = Empty | Text(text: string) | Other(value: real)

  /** A cell that survives the cleanup: not blank and not whitespace only. */
  ghost predicate Kept(c: Cell) {
    match c
    case Empty => false
    case Text(s) => !AllSpace(s)
    case Other(_) => true
  }

  /** A transaction item: a non-empty, stripped string or a non-string value. */
  ghost predicate IsItem(c: Cell) {
    c.Other? || (c.Text? && c.text != [] && IsStripped(c.text))
  }

  /** `fillna("")` followed by the strip applied to every cell. */
  function Normalize(c: Cell): (d: Cell)
    ensures d.Text? <==> !c.Other?
    ensures d.Text? ==> IsStripped(d.text)
    ensures c.Text? ==> exists i, j :: CutAt(c.text, d.text, i, j)
    ensures c.Text? ==> d == Text(Strip(c.text))
    ensures d.Other? ==> d == c
    ensures d == Text([]) <==> !Kept(c)
  {
    match c
    case Empty => Text([])
    case Text(s) => StripEmptyIffBlank(s); Text(Strip(s))
    case Other(_) => c
  }

  /** A row after `fillna("")` and the per-cell strip. */
  function NormalizeRow(row: seq<Cell>): seq<Cell> {
    seq(|row|, i requires 0 <= i < |row| => Normalize(row[i]))
  }

  /** The transaction of one row: the normalised cells other than "". */
  function CleanRow(row: seq<Cell>): (t: seq<Cell>)
    ensures |t| <= |row|
    ensures forall k :: 0 <= k < |t| ==> IsItem(t[k])
  {
    Filter(c => c != Text([]), NormalizeRow(row))
  }

  /** `t` holds the normalised cells of `row` at `idx`, which are exactly the
      positions of the cells that are neither blank nor whitespace only. */
  ghost predicate KeepsCellsAt(t: seq<Cell>, row: seq<Cell>, idx: seq<int>) {
    && Increasing(idx, |row|)
    && (forall i :: 0 <= i < |row| ==> (i in idx <==> Kept(row[i])))
    && |t| == |idx|
    && (forall k :: 0 <= k < |t| ==> t[k] == Normalize(row[idx[k]]))
  }

  /** A transaction keeps exactly the row's non-blank cells, left to right. */
  lemma CleanRowKeepsOrder(row: seq<Cell>)
    ensures exists idx :: KeepsCellsAt(CleanRow(row), row, idx)
  {
    var norm := NormalizeRow(row);
    var p := (c: Cell) => c != Text([]);
    FilterSelects(p, norm);
    var idx :| SelectedAt(Filter(p, norm), norm, p, idx);
    assert KeepsCellsAt(CleanRow(row), row, idx);
  }

  /** `load_data`: one transaction per row of the sheet. */
  function LoadData(rows: seq<seq<Cell>>): (ts: seq<seq<Cell>>)
    ensures |ts| == |rows|
    ensures forall i, k :: 0 <= i < |ts| && 0 <= k < |ts[i]| ==> IsItem(ts[i][k])
    ensures forall i :: 0 <= i < |ts| ==> |ts[i]| <= |rows[i]|
  {
    seq(|rows|, i requires 0 <= i < |rows| => CleanRow(rows[i]))
  }

  /** Transaction `i` holds row `i`'s non-blank cells in their original order. */
  lemma LoadDataKeepsRows(rows: seq<seq<Cell>>, i: int)
    requires 0 <= i < |rows|
    ensures exists idx :: KeepsCellsAt(LoadData(rows)[i], rows[i], idx)
  {
    CleanRowKeepsOrder(rows[i]);
    assert LoadData(rows)[i] == CleanRow(rows[i]);
  }
}
