/**
 * Grids of spreadsheet cells as the sheet service returns them (rows of text
 * cells, rows of differing lengths), and their normalisation by `clean_data`:
 * fully empty rows are dropped and every remaining row is right-padded with
 * empty cells to the length of the longest remaining row.
 */
module Sheet {

  /** A cell is text; an absent cell and an empty one are the same thing. */
  type Cell = string
  type Row = seq<Cell>
  type Grid = seq<Row>

  /** Python's `any(row)` on a row of strings: some cell is non-empty. */
  predicate AnyCell(row: Row)
  {
    exists j | 0 <= j < |row| :: row[j] != ""
  }

  /** The indices, in increasing order, of the rows among the first `n` that have a non-empty cell. */
  function KeptIndices(g: Grid, n: nat): (ix: seq<nat>)
    requires n <= |g|
    ensures forall k :: 0 <= k < |ix| ==> ix[k] < n && AnyCell(g[ix[k]])
    ensures forall k, l :: 0 <= k < l < |ix| ==> ix[k] < ix[l]
    ensures forall i :: 0 <= i < n && AnyCell(g[i]) ==> i in ix
  {
    if n == 0 then [] else KeptIndices(g, n - 1) + (if AnyCell(g[n - 1]) then [n - 1] else [])
  }

  /** The rows among the first `n` that have a non-empty cell, in their original order. */
  function KeptRows(g: Grid, n: nat): Grid
    requires n <= |g|
  {
    if n == 0 then [] else KeptRows(g, n - 1) + (if AnyCell(g[n - 1]) then [g[n - 1]] else [])
  }

  /** The kept rows are exactly the rows at the kept indices. */
  lemma {:induction false} KeptRowsAt(g: Grid, n: nat)
    requires n <= |g|
    ensures |KeptRows(g, n)| == |KeptIndices(g, n)|
    ensures forall k :: 0 <= k < |KeptIndices(g, n)| ==> KeptRows(g, n)[k] == g[KeptIndices(g, n)[k]]
  {
    if n > 0 {
      KeptRowsAt(g, n - 1);
    }
  }

  /** When every row has a non-empty cell, nothing is dropped. */
  lemma {:induction false} KeptRowsAll(g: Grid, n: nat)
    requires n <= |g|
    requires forall i :: 0 <= i < |g| ==> AnyCell(g[i])
    ensures KeptRows(g, n) == g[..n]
  {
    if n > 0 {
      KeptRowsAll(g, n - 1);
      assert g[..n] == g[..n - 1] + [g[n - 1]];
    }
  }

  /** Python's `max(len(row) for row in rows)`, taken as 0 for no rows. */
  function MaxLen(rows: Grid): (w: nat)
    ensures forall k :: 0 <= k < |rows| ==> |rows[k]| <= w
    ensures rows != [] ==> exists k :: 0 <= k < |rows| && |rows[k]| == w
    ensures rows == [] ==> w == 0
  {
    if rows == [] then 0
    else
      var m := MaxLen(rows[..|rows| - 1]);
      var last := |rows[|rows| - 1]|;
      if last > m then last else m
  }

  /** `n` empty cells. */
  function Blanks(n: nat): (r: Row)
    ensures |r| == n
    ensures forall j :: 0 <= j < n ==> r[j] == ""
  {
    seq(n, _ => "")
  }

  /** `row` extended with empty cells up to length `w`; a row already that long is unchanged. */
  function Pad(row: Row, w: nat): Row
  {
    if |row| < w then row + Blanks(w - |row|) else row
  }

  /** The grid `clean_data(values)` returns. */
  function Cleaned(values: Grid): Grid
  {
    var kept := KeptRows(values, |values|);
    var w := MaxLen(kept);
    seq(|kept|, k requires 0 <= k < |kept| => Pad(kept[k], w))
  }

  /**
   * `clean_data` (case-config.py): filters out the rows without a non-empty
   * cell, then pads every kept row, one appended empty cell at a time, to
   * the length of the longest kept row.
   */
  method CleanData(values: Grid) returns (cleaned: Grid)
    ensures cleaned == Cleaned(values)
  {
    var kept: Grid := [];
    var i := 0;
    while i < |values|
      invariant i <= |values|
      invariant kept == KeptRows(values, i)
    {
      if AnyCell(values[i]) {
        kept := kept + [values[i]];
      }
      i := i + 1;
    }
    if kept != [] {
      ghost var original := kept;
      var numCols := MaxLen(kept);
      var k := 0;
      while k < |kept|
        invariant 0 <= k <= |kept| == |original|
        invariant forall l :: 0 <= l < k ==> kept[l] == Pad(original[l], numCols)
        invariant forall l :: k <= l < |kept| ==> kept[l] == original[l]
      {
        var row := kept[k];
        while |row| < numCols
          invariant |kept[k]| <= |row| <= if |kept[k]| < numCols then numCols else |kept[k]|
          invariant row == kept[k] + Blanks(|row| - |kept[k]|)
        {
          assert Blanks(|row| + 1 - |kept[k]|) == Blanks(|row| - |kept[k]|) + [""];
          row := row + [""];
        }
        assert row == Pad(kept[k], numCols);
        kept := kept[k := row];
        k := k + 1;
      }
    }
    cleaned := kept;
  }

  /** A row with a non-empty cell still has one after padding. */
  lemma PadKeepsCells(row: Row, w: nat)
    ensures |Pad(row, w)| == if |row| < w then w else |row|
    ensures Pad(row, w)[..|row|] == row
    ensures forall j :: |row| <= j < |Pad(row, w)| ==> Pad(row, w)[j] == ""
    ensures AnyCell(row) ==> AnyCell(Pad(row, w))
  {
    if AnyCell(row) {
      var j :| 0 <= j < |row| && row[j] != "";
      assert Pad(row, w)[j] == row[j];
    }
  }

  /** The common width of the normalised grid: the length of the longest kept row. */
  function Width(values: Grid): nat
  {
    MaxLen(KeptRows(values, |values|))
  }

  /** `r` is `orig` with its cells in place, followed by empty cells, `w` cells in all. */
  predicate PaddedFrom(r: Row, orig: Row, w: nat)
  {
    && |orig| <= w
    && |r| == w
    && r[..|orig|] == orig
    && forall j :: |orig| <= j < w ==> r[j] == ""
  }

  /**
   * What `clean_data` guarantees: its rows are the non-empty input rows, in
   * their original order (row `k` comes from input row `KeptIndices(..)[k]`,
   * and these indices increase), each cell left where it was and each row
   * padded with empty cells to one common width, which is the length of the
   * longest kept row.
   */
  lemma {:induction false} CleanedShape(values: Grid)
    ensures |Cleaned(values)| == |KeptIndices(values, |values|)|
    ensures forall k :: 0 <= k < |Cleaned(values)| ==>
      PaddedFrom(Cleaned(values)[k], values[KeptIndices(values, |values|)[k]], Width(values))
    ensures Cleaned(values) != [] ==>
      exists k :: 0 <= k < |Cleaned(values)| && |values[KeptIndices(values, |values|)[k]]| == Width(values)
  {
    var ix, r := KeptIndices(values, |values|), Cleaned(values);
    var kept := KeptRows(values, |values|);
    var w := MaxLen(kept);
    KeptRowsAt(values, |values|);
    forall k | 0 <= k < |r|
      ensures PaddedFrom(r[k], kept[k], w)
    {
      PadKeepsCells(kept[k], w);
    }
  }

  /** With no row having a non-empty cell, nothing is kept. */
  lemma {:induction false} KeptRowsNone(g: Grid, n: nat)
    requires n <= |g|
    requires forall i :: 0 <= i < |g| ==> !AnyCell(g[i])
    ensures KeptRows(g, n) == []
  {
    if n > 0 {
      KeptRowsNone(g, n - 1);
    }
  }

  /** An input with no non-empty row normalises to the empty grid. */
  lemma {:induction false} CleanedAllEmpty(values: Grid)
    requires forall i :: 0 <= i < |values| ==> !AnyCell(values[i])
    ensures Cleaned(values) == []
  {
    KeptRowsNone(values, |values|);
  }

  /** Rows of one common length `w` have maximum length `w`. */
  lemma MaxLenUniform(rows: Grid, w: nat)
    requires rows != []
    requires forall k :: 0 <= k < |rows| ==> |rows[k]| == w
    ensures MaxLen(rows) == w
  {
  }

  /** Every normalised row has a non-empty cell and the common width. */
  lemma {:induction false} CleanedRows(values: Grid)
    ensures forall k :: 0 <= k < |Cleaned(values)| ==>
      |Cleaned(values)[k]| == Width(values) && AnyCell(Cleaned(values)[k])
  {
    var kept := KeptRows(values, |values|);
    KeptRowsAt(values, |values|);
    forall k | 0 <= k < |kept|
      ensures |Pad(kept[k], Width(values))| == Width(values) && AnyCell(Pad(kept[k], Width(values)))
    {
      PadKeepsCells(kept[k], Width(values));
    }
  }

  /** Normalising a normalised grid changes nothing. */
  lemma {:induction false} CleanedIdempotent(values: Grid)
    ensures Cleaned(Cleaned(values)) == Cleaned(values)
  {
    var r := Cleaned(values);
    CleanedRows(values);
    KeptRowsAll(r, |r|);
    assert r[..|r|] == r;
    if r != [] {
      MaxLenUniform(r, Width(values));
    }
  }
}
