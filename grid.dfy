/**
 * Flat row-major byte matrices: the board buffer, its cell accessors and the
 * two row tests. Cell (row, col) of a `width`-wide matrix lives at position
 * `row * width + col`.
 */
module Grid {

  /** An unsigned 8-bit cell value. */
  type Byte = x: int | 0 <= x < 256

  predicate InGrid(width: int, height: int, row: int, col: int) {
    0 <= row < height && 0 <= col < width
  }

  /** Row-major position of cell (row, col). */
  function Index(width: int, row: int, col: int): int {
    row * width + col
  }

  lemma MulAtLeast(a: int, b: int)
    requires a >= 1 && b >= 0
    ensures a * b >= b
  {
    assert a * b == (a - 1) * b + b;
    assert (a - 1) * b >= 0;
  }

  /** A whole row lies inside the buffer: it starts at `row * width` and ends by `width * height`. */
  lemma RowSpan(width: int, height: int, row: int)
    requires 0 <= width && 0 <= row < height
    ensures 0 <= row * width
    ensures row * width + width <= width * height
  {
    assert row * width >= 0;
    assert width * height - row * width == (height - row) * width;
    MulAtLeast(height - row, width);
  }

  /** Rows further down start at least one full row later. */
  lemma RowsApart(width: int, upper: int, lower: int)
    requires 0 <= width && upper < lower
    ensures upper * width + width <= lower * width
  {
    assert lower * width - upper * width == (lower - upper) * width;
    MulAtLeast(lower - upper, width);
  }

  lemma IndexInRange(width: int, height: int, row: int, col: int)
    requires InGrid(width, height, row, col)
    ensures 0 <= Index(width, row, col) < width * height
  {
    RowSpan(width, height, row);
  }

  /** Distinct cells of the grid have distinct positions in the buffer. */
  lemma IndexInjective(width: int, height: int, r1: int, c1: int, r2: int, c2: int)
    requires InGrid(width, height, r1, c1) && InGrid(width, height, r2, c2)
    requires Index(width, r1, c1) == Index(width, r2, c2)
    ensures r1 == r2 && c1 == c2
  {
    if r1 < r2 {
      RowsApart(width, r1, r2);
    } else if r2 < r1 {
      RowsApart(width, r2, r1);
    }
  }

  /**
   * `matrix_get`: the value of cell (row, col). The buffer holds the rows one
   * after another, each `width` cells long, so the cell is entry `col` of the
   * `row`-th block.
   */
  function MatrixGet(values: seq<Byte>, width: int, height: int, row: int, col: int): (v: Byte)
    requires |values| == width * height && InGrid(width, height, row, col)
    ensures 0 <= row * width <= row * width + col < row * width + width <= |values|
    ensures v == values[row * width .. row * width + width][col]
  {
    RowSpan(width, height, row);
    var start := row * width;
    assert values[start .. start + width][col] == values[start + col];
    values[start + col]
  }

  /** `matrix_set`: cell (row, col) takes `value`; every other cell keeps its value. */
  method MatrixSet(values: array<Byte>, width: int, height: int, row: int, col: int, value: Byte)
    requires values.Length == width * height && InGrid(width, height, row, col)
    modifies values
    ensures forall r, c | InGrid(width, height, r, c) ::
      MatrixGet(values[..], width, height, r, c)
        == if r == row && c == col then value else MatrixGet(old(values[..]), width, height, r, c)
  {
    IndexInRange(width, height, row, col);
    values[Index(width, row, col)] := value;
    forall r, c | InGrid(width, height, r, c)
      ensures MatrixGet(values[..], width, height, r, c)
        == if r == row && c == col then value else MatrixGet(old(values[..]), width, height, r, c)
    {
      IndexInRange(width, height, r, c);
      if Index(width, r, c) == Index(width, row, col) {
        IndexInjective(width, height, r, c, row, col);
      }
    }
  }

  /** The cells of one row, left to right. */
  function Row(values: seq<Byte>, width: int, height: int, row: int): (cells: seq<Byte>)
    requires |values| == width * height && 0 <= width && 0 <= row < height
    ensures |cells| == width
    ensures forall col | 0 <= col < width :: cells[col] == MatrixGet(values, width, height, row, col)
  {
    RowSpan(width, height, row);
    values[row * width .. row * width + width]
  }

  /** The buffer seen as its rows, top (row 0) to bottom. */
  function Rows(values: seq<Byte>, width: int, height: int): seq<seq<Byte>>
    requires |values| == width * height && 0 <= width && 0 <= height
  {
    seq(height, row requires 0 <= row < height => Row(values, width, height, row))
  }

  /** An all-zero board, as `memset` leaves it. */
  function ZeroBoard(width: int, height: int): (values: seq<Byte>)
    requires 0 < width && 0 <= height
    ensures |values| == width * height
  {
    MulAtLeast(width, height);
    seq(width * height, _ => 0)
  }

  /** Every cell of the matrix holds a value of at most `bound`. */
  ghost predicate CellsAtMost(values: seq<Byte>, width: int, height: int, bound: int)
    requires |values| == width * height
  {
    forall row, col | InGrid(width, height, row, col) :: MatrixGet(values, width, height, row, col) <= bound
  }

  /** The bound read cell by cell is the bound read row by row. */
  lemma CellsAtMostByRows(values: seq<Byte>, width: int, height: int, bound: int)
    requires |values| == width * height && 0 <= width && 0 <= height
    ensures CellsAtMost(values, width, height, bound)
      <==> forall row, col | 0 <= row < height && 0 <= col < width :: Rows(values, width, height)[row][col] <= bound
  {
    forall row, col | InGrid(width, height, row, col)
      ensures Rows(values, width, height)[row][col] == MatrixGet(values, width, height, row, col)
    {
      assert Rows(values, width, height)[row] == Row(values, width, height, row);
    }
  }

  /** Every cell of an all-zero board is 0. */
  lemma ZeroBoardCells(width: int, height: int, bound: int)
    requires 0 < width && 0 <= height && 0 <= bound
    ensures CellsAtMost(ZeroBoard(width, height), width, height, bound)
  {
    var values := ZeroBoard(width, height);
    forall row, col | InGrid(width, height, row, col)
      ensures MatrixGet(values, width, height, row, col) <= bound
    {
      RowSpan(width, height, row);
      assert values[row * width + col] == 0;
    }
  }

  /** A row with no empty cell. */
  predicate Full(cells: seq<Byte>) {
    forall col | 0 <= col < |cells| :: cells[col] != 0
  }

  /** A row with no occupied cell. */
  predicate Blank(cells: seq<Byte>) {
    forall col | 0 <= col < |cells| :: cells[col] == 0
  }

  function EmptyRow(width: nat): (cells: seq<Byte>)
  {
    seq(width, _ => 0)
  }

  predicate RowFilled(values: seq<Byte>, width: int, height: int, row: int)
    requires |values| == width * height && 0 <= width && 0 <= row < height
  {
    Full(Row(values, width, height, row))
  }

  predicate RowEmpty(values: seq<Byte>, width: int, height: int, row: int)
    requires |values| == width * height && 0 <= width && 0 <= row < height
  {
    Blank(Row(values, width, height, row))
  }

  /** On an all-zero board of positive width no row is full and every row is empty. */
  lemma ZeroBoardRows(width: int, height: int)
    requires 0 < width && 0 <= height
    ensures forall row | 0 <= row < height ::
      !RowFilled(ZeroBoard(width, height), width, height, row) && RowEmpty(ZeroBoard(width, height), width, height, row)
  {
    var values := ZeroBoard(width, height);
    forall row | 0 <= row < height
      ensures !RowFilled(values, width, height, row) && RowEmpty(values, width, height, row)
    {
      RowSpan(width, height, row);
      assert Row(values, width, height, row)[0] == MatrixGet(values, width, height, row, 0);
    }
  }

  /** A row is both filled and empty exactly when the matrix has no columns. */
  lemma FilledAndEmptyOnlyWhenNarrow(values: seq<Byte>, width: int, height: int, row: int)
    requires |values| == width * height && 0 <= width && 0 <= row < height
    ensures (RowFilled(values, width, height, row) && RowEmpty(values, width, height, row)) <==> width == 0
  {
    if width > 0 {
      assert Row(values, width, height, row)[0] == MatrixGet(values, width, height, row, 0);
    }
  }

  /** `check_row_filled`: scans the row left to right and stops at the first empty cell. */
  method CheckRowFilled(values: array<Byte>, width: int, height: int, row: int) returns (filled: bool)
    requires values.Length == width * height && 0 <= width && 0 <= row < height
    ensures filled == RowFilled(values[..], width, height, row)
  {
    var col := 0;
    while col < width
      invariant 0 <= col <= width
      invariant forall c | 0 <= c < col :: MatrixGet(values[..], width, height, row, c) != 0
    {
      if MatrixGet(values[..], width, height, row, col) == 0 {
        assert Row(values[..], width, height, row)[col] == 0;
        return false;
      }
      col := col + 1;
    }
    return true;
  }

  /** `check_row_empty`: scans the row left to right and stops at the first occupied cell. */
  method CheckRowEmpty(values: array<Byte>, width: int, height: int, row: int) returns (empty: bool)
    requires values.Length == width * height && 0 <= width && 0 <= row < height
    ensures empty == RowEmpty(values[..], width, height, row)
  {
    var col := 0;
    while col < width
      invariant 0 <= col <= width
      invariant forall c | 0 <= c < col :: MatrixGet(values[..], width, height, row, c) == 0
    {
      if MatrixGet(values[..], width, height, row, col) != 0 {
        assert Row(values[..], width, height, row)[col] != 0;
        return false;
      }
      col := col + 1;
    }
    return true;
  }
}
