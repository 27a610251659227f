/**
 * Full-row detection (`find_lines`) and the in-place two-cursor compaction
 * that removes the marked rows (`clear_lines`). A row marker is a byte:
 * 1 for a full row that will be removed, 0 for a row that stays.
 */
module Lines {
  import opened Grid

  /** Indices of the unmarked rows (marker 0), top to bottom. */
  function Kept(marks: seq<Byte>): (kept: seq<int>)
    ensures |kept| <= |marks|
    ensures forall i | 0 <= i < |kept| :: 0 <= kept[i] < |marks| && marks[kept[i]] == 0
    decreases |marks|
  {
    if marks == [] then []
    else
      var last := |marks| - 1;
      Kept(marks[..last]) + (if marks[last] == 0 then [last] else [])
  }

  /** The kept rows are listed in increasing order, and every unmarked row is listed. */
  lemma {:induction false} KeptOrderedAndComplete(marks: seq<Byte>)
    ensures forall i, j | 0 <= i < j < |Kept(marks)| :: Kept(marks)[i] < Kept(marks)[j]
    ensures forall r | 0 <= r < |marks| && marks[r] == 0 :: r in Kept(marks)
    decreases |marks|
  {
    if marks != [] {
      var last := |marks| - 1;
      KeptOrderedAndComplete(marks[..last]);
      assert forall r | 0 <= r < last :: marks[..last][r] == marks[r];
    }
  }

  /** The number of marked rows. */
  function MarkedCount(marks: seq<Byte>): int {
    |marks| - |Kept(marks)|
  }

  /** `marks` flags exactly the full rows of the board. */
  ghost predicate FullMarks(values: seq<Byte>, width: int, height: int, marks: seq<Byte>)
    requires |values| == width * height && 0 <= width
  {
    |marks| == height
    && forall row | 0 <= row < height :: marks[row] == if RowFilled(values, width, height, row) then 1 else 0
  }

  /** Looking one more row down adds that row to the kept rows when it is unmarked. */
  lemma KeptStep(marks: seq<Byte>, s: int)
    requires 0 <= s < |marks|
    ensures Kept(marks[..s + 1]) == Kept(marks[..s]) + (if marks[s] == 0 then [s] else [])
  {
    assert marks[..s + 1][..s] == marks[..s];
  }

  /** The kept rows of a prefix of the markers are a prefix of the kept rows. */
  lemma {:induction false} KeptPrefix(marks: seq<Byte>, j: int)
    requires 0 <= j <= |marks|
    ensures Kept(marks[..j]) <= Kept(marks)
    decreases |marks| - j
  {
    if j == |marks| {
      assert marks[..j] == marks;
    } else {
      KeptPrefix(marks, j + 1);
      KeptStep(marks, j);
    }
  }

  /** An unmarked row `s` is kept at position "number of unmarked rows above it". */
  lemma KeptAt(marks: seq<Byte>, s: int)
    requires 0 <= s < |marks| && marks[s] == 0
    ensures |Kept(marks[..s])| < |Kept(marks)|
    ensures Kept(marks)[|Kept(marks[..s])|] == s
  {
    KeptStep(marks, s);
    KeptPrefix(marks, s + 1);
  }

  /** With no row marked, every row is kept, in order. */
  lemma {:induction false} KeptAllUnmarked(marks: seq<Byte>)
    requires forall r | 0 <= r < |marks| :: marks[r] == 0
    ensures Kept(marks) == seq(|marks|, i => i)
    decreases |marks|
  {
    if marks != [] {
      var last := |marks| - 1;
      KeptAllUnmarked(marks[..last]);
    }
  }

  /** The marked count is never negative, and it is 0 exactly when no row is marked. */
  lemma {:induction false} CountZeroIffNoneMarked(marks: seq<Byte>)
    ensures MarkedCount(marks) >= 0
    ensures MarkedCount(marks) == 0 <==> forall r | 0 <= r < |marks| :: marks[r] == 0
    decreases |marks|
  {
    if marks != [] {
      var last := |marks| - 1;
      var prefix := marks[..last];
      CountZeroIffNoneMarked(prefix);
      assert MarkedCount(marks) == MarkedCount(prefix) + (if marks[last] == 0 then 0 else 1);
      assert forall r | 0 <= r < last :: prefix[r] == marks[r];
    }
  }

  /**
   * The rows after compaction: the unmarked rows in their original top-to-bottom
   * order, packed against the bottom, under as many empty rows as were removed.
   */
  function ClearedRows(rows: seq<seq<Byte>>, marks: seq<Byte>, width: nat): (cleared: seq<seq<Byte>>)
    requires |marks| == |rows|
    ensures |cleared| == |rows|
  {
    var kept := Kept(marks);
    seq(|rows| - |kept|, _ => EmptyRow(width)) + seq(|kept|, i requires 0 <= i < |kept| => rows[kept[i]])
  }

  /** Row `d` after compaction: empty above the kept rows, else the kept row that lands there. */
  lemma ClearedRowAt(rows: seq<seq<Byte>>, marks: seq<Byte>, width: nat, d: int)
    requires |marks| == |rows| && 0 <= d < |rows|
    ensures var kept := Kept(marks);
      ClearedRows(rows, marks, width)[d]
        == if d < |rows| - |kept| then EmptyRow(width) else rows[kept[d - (|rows| - |kept|)]]
  {
  }

  /** Clearing with no row marked leaves the board unchanged. */
  lemma ClearNothing(rows: seq<seq<Byte>>, marks: seq<Byte>, width: nat)
    requires |marks| == |rows|
    requires forall r | 0 <= r < |marks| :: marks[r] == 0
    ensures ClearedRows(rows, marks, width) == rows
  {
    KeptAllUnmarked(marks);
  }

  /** Clearing the rows marked as full leaves no full row behind. */
  lemma ClearedHasNoFullRow(rows: seq<seq<Byte>>, marks: seq<Byte>, width: nat)
    requires |marks| == |rows| && width > 0
    requires forall r | 0 <= r < |rows| :: |rows[r]| == width && marks[r] == if Full(rows[r]) then 1 else 0
    ensures forall r | 0 <= r < |rows| :: !Full(ClearedRows(rows, marks, width)[r])
  {
    var kept := Kept(marks);
    var cleared := ClearedRows(rows, marks, width);
    forall r | 0 <= r < |rows|
      ensures !Full(cleared[r])
    {
      if r < |rows| - |kept| {
        assert cleared[r] == EmptyRow(width);
        assert cleared[r][0] == 0;
      } else {
        var source := kept[r - (|rows| - |kept|)];
        assert cleared[r] == rows[source];
        assert marks[source] == 0;
      }
    }
  }

  /** Compaction only moves rows and adds empty ones, so a bound on every cell survives it. */
  lemma ClearedKeepsBound(rows: seq<seq<Byte>>, marks: seq<Byte>, width: nat, bound: int)
    requires |marks| == |rows| && 0 <= bound
    requires forall r, c | 0 <= r < |rows| && 0 <= c < |rows[r]| :: rows[r][c] <= bound
    ensures var cleared := ClearedRows(rows, marks, width);
      forall r, c | 0 <= r < |cleared| && 0 <= c < |cleared[r]| :: cleared[r][c] <= bound
  {
    var kept := Kept(marks);
    var cleared := ClearedRows(rows, marks, width);
    forall r, c | 0 <= r < |cleared| && 0 <= c < |cleared[r]|
      ensures cleared[r][c] <= bound
    {
      ClearedRowAt(rows, marks, width, r);
      if r >= |rows| - |kept| {
        var source := kept[r - (|rows| - |kept|)];
        assert cleared[r][c] == rows[source][c];
      }
    }
  }

  /** `find_lines`: marks every full row with 1 and every other row with 0, and counts the marks. */
  method FindLines(values: array<Byte>, width: int, height: int, linesOut: array<Byte>) returns (count: int)
    requires values.Length == width * height && 0 <= width && 0 <= height
    requires linesOut.Length == height && linesOut != values
    modifies linesOut
    ensures FullMarks(values[..], width, height, linesOut[..])
    ensures count == MarkedCount(linesOut[..])
  {
    count := 0;
    var row := 0;
    while row < height
      invariant 0 <= row <= height
      invariant forall r | 0 <= r < row :: linesOut[r] == if RowFilled(values[..], width, height, r) then 1 else 0
      invariant count == row - |Kept(linesOut[..row])|
    {
      var filled := CheckRowFilled(values, width, height, row);
      var flag: Byte := if filled then 1 else 0;
      linesOut[row] := flag;
      KeptStep(linesOut[..], row);
      assert linesOut[..row + 1][..row] == linesOut[..row];
      count := count + flag;
      row := row + 1;
    }
    assert linesOut[..row] == linesOut[..];
  }

  /** `memcpy` of one row: row `dst` becomes a copy of row `src`. */
  method CopyRow(values: array<Byte>, width: int, height: int, src: int, dst: int)
    requires values.Length == width * height && 0 <= width
    requires 0 <= src < height && 0 <= dst < height
    modifies values
    ensures Rows(values[..], width, height)
            == old(Rows(values[..], width, height))[dst := old(Row(values[..], width, height, src))]
  {
    ghost var before := values[..];
    for col := 0 to width
      invariant forall r, c | InGrid(width, height, r, c) ::
        MatrixGet(values[..], width, height, r, c)
          == if r == dst && c < col then MatrixGet(before, width, height, src, c) else MatrixGet(before, width, height, r, c)
    {
      var v := MatrixGet(values[..], width, height, src, col);
      MatrixSet(values, width, height, dst, col, v);
    }
    SameRowsFromCells(values[..], before, width, height, src, dst);
  }

  /** `memset` of one row: row `dst` becomes empty. */
  method ZeroRow(values: array<Byte>, width: int, height: int, dst: int)
    requires values.Length == width * height && 0 <= width && 0 <= dst < height
    modifies values
    ensures Rows(values[..], width, height) == old(Rows(values[..], width, height))[dst := EmptyRow(width)]
  {
    ghost var before := values[..];
    for col := 0 to width
      invariant forall r, c | InGrid(width, height, r, c) ::
        MatrixGet(values[..], width, height, r, c)
          == if r == dst && c < col then 0 else MatrixGet(before, width, height, r, c)
    {
      MatrixSet(values, width, height, dst, col, 0);
    }
    forall r | 0 <= r < height
      ensures Rows(values[..], width, height)[r] == Rows(before, width, height)[dst := EmptyRow(width)][r]
    {
      if r == dst {
        assert Row(values[..], width, height, r) == EmptyRow(width);
      } else {
        assert Row(values[..], width, height, r) == Row(before, width, height, r);
      }
    }
  }

  /** Cell-wise "row `dst` holds row `src` of `before`, all else as in `before`" lifted to rows. */
  lemma SameRowsFromCells(after: seq<Byte>, before: seq<Byte>, width: int, height: int, src: int, dst: int)
    requires |after| == width * height && |before| == width * height && 0 <= width
    requires 0 <= src < height && 0 <= dst < height
    requires forall r, c | InGrid(width, height, r, c) ::
      MatrixGet(after, width, height, r, c)
        == if r == dst then MatrixGet(before, width, height, src, c) else MatrixGet(before, width, height, r, c)
    ensures Rows(after, width, height) == Rows(before, width, height)[dst := Row(before, width, height, src)]
  {
    forall r | 0 <= r < height
      ensures Rows(after, width, height)[r] == Rows(before, width, height)[dst := Row(before, width, height, src)][r]
    {
      if r == dst {
        assert Row(after, width, height, r) == Row(before, width, height, src);
      } else {
        assert Row(after, width, height, r) == Row(before, width, height, r);
      }
    }
  }

  /**
   * `clear_lines`: walks a destination cursor from the bottom row up; a source
   * cursor skips marked rows and feeds the next unmarked row down, or an empty
   * row once it has passed the top. The source cursor never passes below the
   * destination cursor, so every row it reads has not been overwritten yet.
   */
  method ClearLines(values: array<Byte>, width: int, height: int, lines: array<Byte>)
    requires values.Length == width * height && 0 <= width && 0 <= height
    requires lines.Length == height && lines != values
    modifies values
    ensures Rows(values[..], width, height) == ClearedRows(old(Rows(values[..], width, height)), lines[..], width)
  {
    ghost var before := Rows(values[..], width, height);
    ghost var target := ClearedRows(before, lines[..], width);
    ghost var rows := before;
    var srcRow := height - 1;
    var dstRow := height - 1;
    assert lines[..][..height] == lines[..];
    while dstRow >= 0
      invariant Cursors(lines[..], srcRow, dstRow)
      invariant Rows(values[..], width, height) == rows && |rows| == height
      invariant forall d | dstRow < d < height :: rows[d] == target[d]
      invariant forall d | 0 <= d <= dstRow :: rows[d] == before[d]
    {
      srcRow := FillRow(values, width, height, lines, srcRow, dstRow, before);
      rows := rows[dstRow := target[dstRow]];
      dstRow := dstRow - 1;
    }
    assert rows == target;
  }

  /**
   * The cursor relation of `clear_lines`: the source cursor is at or above the
   * destination cursor, and the rows below the destination cursor have
   * received exactly the unmarked rows below the source cursor.
   */
  ghost predicate Cursors(marks: seq<Byte>, srcRow: int, dstRow: int) {
    -1 <= srcRow <= dstRow < |marks|
    && (srcRow >= 0 ==> |Kept(marks)| - |Kept(marks[..srcRow + 1])| == |marks| - 1 - dstRow)
    && (srcRow < 0 ==> |Kept(marks)| <= |marks| - 1 - dstRow)
  }

  /** Once the source cursor has passed the top, the destination row is one of the empty rows. */
  lemma ClearedRowAbove(rows: seq<seq<Byte>>, marks: seq<Byte>, width: nat, dstRow: int)
    requires |marks| == |rows| && Cursors(marks, -1, dstRow) && 0 <= dstRow
    ensures ClearedRows(rows, marks, width)[dstRow] == EmptyRow(width)
    ensures Cursors(marks, -1, dstRow - 1)
  {
    ClearedRowAt(rows, marks, width, dstRow);
  }

  /**
   * With the source cursor on an unmarked row, that row is the one that lands
   * on the destination row, and both cursors can step up together.
   */
  lemma ClearedRowFrom(rows: seq<seq<Byte>>, marks: seq<Byte>, width: nat, srcRow: int, dstRow: int)
    requires |marks| == |rows| && Cursors(marks, srcRow, dstRow) && 0 <= srcRow && marks[srcRow] == 0
    ensures ClearedRows(rows, marks, width)[dstRow] == rows[srcRow]
    ensures Cursors(marks, srcRow - 1, dstRow - 1)
  {
    var kept := Kept(marks);
    KeptStep(marks, srcRow);
    KeptAt(marks, srcRow);
    ClearedRowAt(rows, marks, width, dstRow);
    assert dstRow - (|rows| - |kept|) == |Kept(marks[..srcRow])|;
    if srcRow == 0 {
      assert marks[..0] == [];
    }
  }

  /** Skipping a marked row keeps the cursor relation. */
  lemma SkipOne(marks: seq<Byte>, srcRow: int, dstRow: int)
    requires Cursors(marks, srcRow, dstRow) && 0 <= srcRow && marks[srcRow] != 0
    ensures Cursors(marks, srcRow - 1, dstRow)
  {
    KeptStep(marks, srcRow);
    if srcRow == 0 {
      assert marks[..0] == [];
    }
  }

  /**
   * The inner loop of `clear_lines`: moves the source cursor up past marked
   * rows, stopping at an unmarked row or above the top row.
   */
  method SkipMarked(lines: array<Byte>, srcRow: int, dstRow: int) returns (nextSrc: int)
    requires Cursors(lines[..], srcRow, dstRow)
    ensures Cursors(lines[..], nextSrc, dstRow)
    ensures -1 <= nextSrc <= srcRow
    ensures nextSrc >= 0 ==> lines[nextSrc] == 0
  {
    ghost var marks := lines[..];
    nextSrc := srcRow;
    while nextSrc >= 0 && lines[nextSrc] != 0
      invariant Cursors(marks, nextSrc, dstRow) && nextSrc <= srcRow
    {
      SkipOne(marks, nextSrc, dstRow);
      nextSrc := nextSrc - 1;
    }
  }

  /**
   * One pass of the outer loop of `clear_lines`: skip marked rows with the
   * source cursor, then fill the destination row with the source row (copying
   * only when the cursors differ) or with zeros, and step the source cursor up.
   */
  method FillRow(values: array<Byte>, width: int, height: int, lines: array<Byte>,
                 srcRow: int, dstRow: int, ghost before: seq<seq<Byte>>) returns (nextSrc: int)
    requires values.Length == width * height && 0 <= width
    requires lines.Length == height && lines != values && |before| == height
    requires Cursors(lines[..], srcRow, dstRow) && 0 <= dstRow
    requires forall d | 0 <= d <= dstRow :: Rows(values[..], width, height)[d] == before[d]
    modifies values
    ensures Cursors(lines[..], nextSrc, dstRow - 1)
    ensures Rows(values[..], width, height)
            == old(Rows(values[..], width, height))[dstRow := ClearedRows(before, lines[..], width)[dstRow]]
  {
    ghost var marks := lines[..];
    ghost var target := ClearedRows(before, marks, width);
    ghost var rows := Rows(values[..], width, height);
    nextSrc := SkipMarked(lines, srcRow, dstRow);
    if nextSrc < 0 {
      ClearedRowAbove(before, marks, width, dstRow);
      ZeroRow(values, width, height, dstRow);
    } else {
      ClearedRowFrom(before, marks, width, nextSrc, dstRow);
      assert rows[nextSrc] == before[nextSrc];
      if nextSrc != dstRow {
        CopyRow(values, width, height, nextSrc, dstRow);
      } else {
        assert rows[dstRow := target[dstRow]] == rows;
      }
      nextSrc := nextSrc - 1;
    }
  }
}
