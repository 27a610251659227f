/**
 * The active piece against the board: which board cells it covers, whether
 * it fits (`check_piece_valid`), and what merging it into the board means.
 */
module Placement {
  import opened Grid
  import opened Tetrinos

  /** `Piece_State`: template index, top-left offset on the board, rotation. */
  datatype PieceState = PieceState(tetrinoIndex: int, offsetRow: int, offsetCol: int, rotation: int)

  predicate KnownTetrino(p: PieceState) {
    0 <= p.tetrinoIndex < TETRINO_COUNT
  }

  /** Local cell (row, col) of template `t` seen under `rotation` is occupied. */
  predicate OccupiedIn(t: Tetrino, rotation: int, row: int, col: int)
    requires WellFormed(t)
  {
    0 <= row < t.side && 0 <= col < t.side && TetrinoGet(t, row, col, rotation) > 0
  }

  /** Local cell (row, col) of the piece's rotated template is occupied. */
  predicate Occupied(p: PieceState, row: int, col: int)
    requires KnownTetrino(p)
  {
    OccupiedIn(Template(p.tetrinoIndex), p.rotation, row, col)
  }

  /** Board cell (r, c) exists and is empty. */
  predicate FreeCell(board: seq<Byte>, width: int, height: int, r: int, c: int)
    requires |board| == width * height
  {
    InGrid(width, height, r, c) && MatrixGet(board, width, height, r, c) == 0
  }

  /** Template `t` under `rotation` with its top-left corner at (offsetRow, offsetCol) covers only free cells. */
  ghost predicate TemplateFits(t: Tetrino, rotation: int, offsetRow: int, offsetCol: int,
                               board: seq<Byte>, width: int, height: int)
    requires WellFormed(t) && |board| == width * height
  {
    forall row, col | OccupiedIn(t, rotation, row, col) :: FreeCell(board, width, height, offsetRow + row, offsetCol + col)
  }

  /** Every occupied cell of the placed template lies on the board (what the board holds there not considered). */
  ghost predicate TemplateInBounds(t: Tetrino, rotation: int, offsetRow: int, offsetCol: int, width: int, height: int)
    requires WellFormed(t)
  {
    forall row, col | OccupiedIn(t, rotation, row, col) :: InGrid(width, height, offsetRow + row, offsetCol + col)
  }

  /** Every occupied cell of the piece lies on the board. */
  ghost predicate PieceInBounds(p: PieceState, width: int, height: int)
    requires KnownTetrino(p)
  {
    TemplateInBounds(Template(p.tetrinoIndex), p.rotation, p.offsetRow, p.offsetCol, width, height)
  }

  /** A template whose whole square lies on the board is in bounds under every rotation. */
  lemma SquareOnBoardInBounds(t: Tetrino, rotation: int, offsetRow: int, offsetCol: int, width: int, height: int)
    requires WellFormed(t)
    requires 0 <= offsetRow && offsetRow + t.side <= height && 0 <= offsetCol && offsetCol + t.side <= width
    ensures TemplateInBounds(t, rotation, offsetRow, offsetCol, width, height)
  {
  }

  /** The piece may stand here: every occupied cell is on the board and over an empty board cell. */
  ghost predicate PieceValid(p: PieceState, board: seq<Byte>, width: int, height: int)
    requires KnownTetrino(p) && |board| == width * height
  {
    TemplateFits(Template(p.tetrinoIndex), p.rotation, p.offsetRow, p.offsetCol, board, width, height)
  }

  /** The value template `t` under `rotation`, placed at (offsetRow, offsetCol), puts on board cell (boardRow, boardCol); 0 where it has none. */
  function CellAt(t: Tetrino, rotation: int, offsetRow: int, offsetCol: int, boardRow: int, boardCol: int): Byte
    requires WellFormed(t)
  {
    var row, col := boardRow - offsetRow, boardCol - offsetCol;
    if 0 <= row < t.side && 0 <= col < t.side then TetrinoGet(t, row, col, rotation) else 0
  }

  /** The template value the piece puts on board cell (boardRow, boardCol); 0 where it has none. */
  function PieceCellAt(p: PieceState, boardRow: int, boardCol: int): Byte
    requires KnownTetrino(p)
  {
    CellAt(Template(p.tetrinoIndex), p.rotation, p.offsetRow, p.offsetCol, boardRow, boardCol)
  }

  /** `after` is `before` with the placed template written in: its cells take the template value, the rest keep theirs. */
  ghost predicate Stamped(after: seq<Byte>, before: seq<Byte>, t: Tetrino, rotation: int, offsetRow: int, offsetCol: int,
                          width: int, height: int)
    requires WellFormed(t)
  {
    |after| == width * height && |before| == width * height
    && forall r, c | InGrid(width, height, r, c) ::
         MatrixGet(after, width, height, r, c)
           == if CellAt(t, rotation, offsetRow, offsetCol, r, c) != 0 then CellAt(t, rotation, offsetRow, offsetCol, r, c)
              else MatrixGet(before, width, height, r, c)
  }

  /** `after` is `before` with the piece written in. */
  ghost predicate MergedInto(after: seq<Byte>, before: seq<Byte>, p: PieceState, width: int, height: int)
    requires KnownTetrino(p)
  {
    Stamped(after, before, Template(p.tetrinoIndex), p.rotation, p.offsetRow, p.offsetCol, width, height)
  }

  /** Stamping a template whose values are at most `bound` onto a board whose cells are at most `bound` keeps that bound. */
  lemma StampKeepsBound(after: seq<Byte>, before: seq<Byte>, t: Tetrino, rotation: int, offsetRow: int, offsetCol: int,
                        width: int, height: int, bound: int)
    requires WellFormed(t) && Stamped(after, before, t, rotation, offsetRow, offsetCol, width, height)
    requires 0 <= bound && forall v | v in t.data :: v <= bound
    requires CellsAtMost(before, width, height, bound)
    ensures CellsAtMost(after, width, height, bound)
  {
    forall r, c | InGrid(width, height, r, c)
      ensures MatrixGet(after, width, height, r, c) <= bound
    {
      var row, col := r - offsetRow, c - offsetCol;
      if 0 <= row < t.side && 0 <= col < t.side {
        var v := TetrinoGet(t, row, col, rotation);
        assert v == 0 || v in t.data;
      }
    }
  }

  /** Merging a piece into a board whose cells are 0 or a piece id 1..7 leaves such a board. */
  lemma MergeKeepsPieceIds(after: seq<Byte>, before: seq<Byte>, p: PieceState, width: int, height: int)
    requires KnownTetrino(p) && MergedInto(after, before, p, width, height)
    requires CellsAtMost(before, width, height, TETRINO_COUNT)
    ensures CellsAtMost(after, width, height, TETRINO_COUNT)
  {
    TemplatesWellFormed();
    var t := Template(p.tetrinoIndex);
    assert t == TETRINOS[p.tetrinoIndex];
    StampKeepsBound(after, before, t, p.rotation, p.offsetRow, p.offsetCol, width, height, TETRINO_COUNT);
  }

  /** The piece moved down by `k` rows. */
  function Lowered(p: PieceState, k: int): PieceState {
    p.(offsetRow := p.offsetRow + k)
  }

  /** The piece fits at each of the `n` rows below its position, so it can fall `n` rows one at a time. */
  ghost predicate FallsFreely(p: PieceState, board: seq<Byte>, width: int, height: int, n: nat)
    requires KnownTetrino(p) && |board| == width * height
  {
    n == 0 || (FallsFreely(p, board, width, height, n - 1) && PieceValid(Lowered(p, n), board, width, height))
  }

  /** Falling `n` rows freely means fitting at every intermediate row `k` in 1..n. */
  lemma {:induction false} FallsFreelyEveryRow(p: PieceState, board: seq<Byte>, width: int, height: int, n: nat, k: int)
    requires KnownTetrino(p) && |board| == width * height
    requires FallsFreely(p, board, width, height, n) && 1 <= k <= n
    ensures PieceValid(Lowered(p, k), board, width, height)
    decreases n
  {
    if k < n {
      FallsFreelyEveryRow(p, board, width, height, n - 1, k);
    }
  }

  /** A fitting template is in bounds. */
  lemma FitsIsInBounds(t: Tetrino, rotation: int, offsetRow: int, offsetCol: int,
                       board: seq<Byte>, width: int, height: int)
    requires WellFormed(t) && |board| == width * height
    requires TemplateFits(t, rotation, offsetRow, offsetCol, board, width, height)
    ensures TemplateInBounds(t, rotation, offsetRow, offsetCol, width, height)
  {
    forall row, col | OccupiedIn(t, rotation, row, col)
      ensures InGrid(width, height, offsetRow + row, offsetCol + col)
    {
      assert FreeCell(board, width, height, offsetRow + row, offsetCol + col);
    }
  }

  /** A valid piece is in bounds. */
  lemma ValidIsInBounds(p: PieceState, board: seq<Byte>, width: int, height: int)
    requires KnownTetrino(p) && |board| == width * height
    requires PieceValid(p, board, width, height)
    ensures PieceInBounds(p, width, height)
  {
    FitsIsInBounds(Template(p.tetrinoIndex), p.rotation, p.offsetRow, p.offsetCol, board, width, height);
  }

  /**
   * An in-bounds piece (rotation 0..3) has its top-left offset strictly above
   * the floor, so a piece that keeps moving down must eventually lock.
   */
  lemma InBoundsAboveFloor(p: PieceState, width: int, height: int)
    requires KnownTetrino(p) && 0 <= p.rotation < 4 && PieceInBounds(p, width, height)
    ensures p.offsetRow < height
  {
    var row, col := OccupiedCell(p.tetrinoIndex, p.rotation);
    assert OccupiedIn(Template(p.tetrinoIndex), p.rotation, row, col);
  }

  /**
   * Validity is lost for good below the floor: if some occupied cell lies
   * below the last row, lowering the piece further never makes it valid.
   */
  lemma BelowFloorStaysInvalid(p: PieceState, board: seq<Byte>, width: int, height: int, row: int, col: int, k: nat)
    requires KnownTetrino(p) && |board| == width * height
    requires Occupied(p, row, col) && p.offsetRow + row >= height
    ensures !PieceValid(Lowered(p, k), board, width, height)
  {
    assert OccupiedIn(Template(p.tetrinoIndex), p.rotation, row, col);
    assert !FreeCell(board, width, height, p.offsetRow + k + row, p.offsetCol + col);
  }

  /** Stamping a fitting template only writes over empty cells and leaves every cell it does not cover alone. */
  lemma StampOfFittingTemplate(after: seq<Byte>, before: seq<Byte>, t: Tetrino, rotation: int,
                               offsetRow: int, offsetCol: int, width: int, height: int)
    requires WellFormed(t) && |before| == width * height
    requires TemplateFits(t, rotation, offsetRow, offsetCol, before, width, height)
    requires Stamped(after, before, t, rotation, offsetRow, offsetCol, width, height)
    ensures forall r, c | InGrid(width, height, r, c) && CellAt(t, rotation, offsetRow, offsetCol, r, c) != 0 ::
      MatrixGet(before, width, height, r, c) == 0
      && MatrixGet(after, width, height, r, c) == CellAt(t, rotation, offsetRow, offsetCol, r, c)
    ensures forall r, c | InGrid(width, height, r, c) && CellAt(t, rotation, offsetRow, offsetCol, r, c) == 0 ::
      MatrixGet(after, width, height, r, c) == MatrixGet(before, width, height, r, c)
  {
    forall r, c | InGrid(width, height, r, c) && CellAt(t, rotation, offsetRow, offsetCol, r, c) != 0
      ensures MatrixGet(before, width, height, r, c) == 0
    {
      assert OccupiedIn(t, rotation, r - offsetRow, c - offsetCol);
      assert FreeCell(before, width, height, r, c);
    }
  }

  /** Stamping a fitting template shows each of its occupied cells, on the board, with its template value. */
  lemma StampShowsTemplate(after: seq<Byte>, before: seq<Byte>, t: Tetrino, rotation: int,
                           offsetRow: int, offsetCol: int, width: int, height: int)
    requires WellFormed(t) && |before| == width * height
    requires TemplateFits(t, rotation, offsetRow, offsetCol, before, width, height)
    requires Stamped(after, before, t, rotation, offsetRow, offsetCol, width, height)
    ensures forall row, col | OccupiedIn(t, rotation, row, col) ::
      InGrid(width, height, offsetRow + row, offsetCol + col)
      && MatrixGet(after, width, height, offsetRow + row, offsetCol + col) == TetrinoGet(t, row, col, rotation)
  {
    forall row, col | OccupiedIn(t, rotation, row, col)
      ensures InGrid(width, height, offsetRow + row, offsetCol + col)
      ensures MatrixGet(after, width, height, offsetRow + row, offsetCol + col) == TetrinoGet(t, row, col, rotation)
    {
      assert FreeCell(before, width, height, offsetRow + row, offsetCol + col);
      assert CellAt(t, rotation, offsetRow, offsetCol, offsetRow + row, offsetCol + col) == TetrinoGet(t, row, col, rotation);
    }
  }

  /**
   * After a passing validity check, merging writes the template value into
   * exactly the piece's cells, each of which was empty, and leaves every other
   * cell as it was.
   */
  lemma MergeOfValidPiece(after: seq<Byte>, before: seq<Byte>, p: PieceState, width: int, height: int)
    requires KnownTetrino(p) && |before| == width * height
    requires PieceValid(p, before, width, height) && MergedInto(after, before, p, width, height)
    ensures forall r, c | InGrid(width, height, r, c) && PieceCellAt(p, r, c) != 0 ::
      MatrixGet(before, width, height, r, c) == 0 && MatrixGet(after, width, height, r, c) == PieceCellAt(p, r, c)
    ensures forall r, c | InGrid(width, height, r, c) && PieceCellAt(p, r, c) == 0 ::
      MatrixGet(after, width, height, r, c) == MatrixGet(before, width, height, r, c)
  {
    var t := Template(p.tetrinoIndex);
    StampOfFittingTemplate(after, before, t, p.rotation, p.offsetRow, p.offsetCol, width, height);
  }

  /** After a passing validity check, every occupied cell of the piece is on the board and shows its template value. */
  lemma MergeShowsPiece(after: seq<Byte>, before: seq<Byte>, p: PieceState, width: int, height: int)
    requires KnownTetrino(p) && |before| == width * height
    requires PieceValid(p, before, width, height) && MergedInto(after, before, p, width, height)
    ensures forall row, col | Occupied(p, row, col) ::
      InGrid(width, height, p.offsetRow + row, p.offsetCol + col)
      && MatrixGet(after, width, height, p.offsetRow + row, p.offsetCol + col)
         == TetrinoGet(Template(p.tetrinoIndex), row, col, p.rotation)
  {
    var t := Template(p.tetrinoIndex);
    StampShowsTemplate(after, before, t, p.rotation, p.offsetRow, p.offsetCol, width, height);
  }

  /** `check_piece_valid`: looks up the piece's template and scans it at the piece's offset. */
  method CheckPieceValid(piece: PieceState, board: array<Byte>, width: int, height: int) returns (valid: bool)
    requires KnownTetrino(piece) && board.Length == width * height
    ensures valid == PieceValid(piece, board[..], width, height)
  {
    var t := Template(piece.tetrinoIndex);
    valid := ScanTemplate(t, piece.rotation, piece.offsetRow, piece.offsetCol, board, width, height);
  }

  /**
   * The loops of `check_piece_valid`: visits the template cells row by row and
   * rejects at the first occupied cell that is off the board or over an
   * occupied board cell.
   */
  method ScanTemplate(t: Tetrino, rotation: int, offsetRow: int, offsetCol: int,
                      board: array<Byte>, width: int, height: int) returns (valid: bool)
    requires WellFormed(t) && board.Length == width * height
    ensures valid == TemplateFits(t, rotation, offsetRow, offsetCol, board[..], width, height)
  {
    var row := 0;
    while row < t.side
      invariant 0 <= row <= t.side
      invariant forall r, c | 0 <= r < row && OccupiedIn(t, rotation, r, c) ::
        FreeCell(board[..], width, height, offsetRow + r, offsetCol + c)
    {
      var col := 0;
      while col < t.side
        invariant 0 <= col <= t.side
        invariant forall r, c | 0 <= r < row && OccupiedIn(t, rotation, r, c) ::
          FreeCell(board[..], width, height, offsetRow + r, offsetCol + c)
        invariant forall c | 0 <= c < col && OccupiedIn(t, rotation, row, c) ::
          FreeCell(board[..], width, height, offsetRow + row, offsetCol + c)
      {
        var value := TetrinoGet(t, row, col, rotation);
        if value > 0 {
          assert OccupiedIn(t, rotation, row, col);
          var boardRow := offsetRow + row;
          var boardCol := offsetCol + col;
          if boardRow < 0 {
            assert !FreeCell(board[..], width, height, boardRow, boardCol);
            return false;
          }
          if boardRow >= height {
            assert !FreeCell(board[..], width, height, boardRow, boardCol);
            return false;
          }
          if boardCol < 0 {
            assert !FreeCell(board[..], width, height, boardRow, boardCol);
            return false;
          }
          if boardCol >= width {
            assert !FreeCell(board[..], width, height, boardRow, boardCol);
            return false;
          }
          if MatrixGet(board[..], width, height, boardRow, boardCol) != 0 {
            assert !FreeCell(board[..], width, height, boardRow, boardCol);
            return false;
          }
        }
        col := col + 1;
      }
      row := row + 1;
    }
    return true;
  }

  /**
   * The loops of `merge_piece`: visits the template cells row by row and
   * writes each occupied one onto the board at the piece's offset.
   */
  method StampTemplate(board: array<Byte>, t: Tetrino, rotation: int, offsetRow: int, offsetCol: int,
                       width: int, height: int)
    requires WellFormed(t) && board.Length == width * height
    requires TemplateInBounds(t, rotation, offsetRow, offsetCol, width, height)
    modifies board
    ensures Stamped(board[..], old(board[..]), t, rotation, offsetRow, offsetCol, width, height)
  {
    ghost var before := board[..];
    for row := 0 to t.side
      invariant forall r, c | InGrid(width, height, r, c) ::
        MatrixGet(board[..], width, height, r, c)
          == if CellAt(t, rotation, offsetRow, offsetCol, r, c) != 0 && r - offsetRow < row
             then CellAt(t, rotation, offsetRow, offsetCol, r, c) else MatrixGet(before, width, height, r, c)
    {
      StampTemplateRow(board, t, rotation, offsetRow, offsetCol, width, height, row, before);
    }
  }

  /** The inner loop of `merge_piece`: writes the occupied cells of local row `row`. */
  method StampTemplateRow(board: array<Byte>, t: Tetrino, rotation: int, offsetRow: int, offsetCol: int,
                          width: int, height: int, row: int, ghost before: seq<Byte>)
    requires WellFormed(t) && board.Length == width * height && |before| == width * height
    requires TemplateInBounds(t, rotation, offsetRow, offsetCol, width, height) && 0 <= row < t.side
    requires forall r, c | InGrid(width, height, r, c) ::
      MatrixGet(board[..], width, height, r, c)
        == if CellAt(t, rotation, offsetRow, offsetCol, r, c) != 0 && r - offsetRow < row
           then CellAt(t, rotation, offsetRow, offsetCol, r, c) else MatrixGet(before, width, height, r, c)
    modifies board
    ensures forall r, c | InGrid(width, height, r, c) ::
      MatrixGet(board[..], width, height, r, c)
        == if CellAt(t, rotation, offsetRow, offsetCol, r, c) != 0 && r - offsetRow < row + 1
           then CellAt(t, rotation, offsetRow, offsetCol, r, c) else MatrixGet(before, width, height, r, c)
  {
    for col := 0 to t.side
      invariant forall r, c | InGrid(width, height, r, c) ::
        MatrixGet(board[..], width, height, r, c)
          == if CellAt(t, rotation, offsetRow, offsetCol, r, c) != 0
                && (r - offsetRow < row || (r - offsetRow == row && c - offsetCol < col))
             then CellAt(t, rotation, offsetRow, offsetCol, r, c) else MatrixGet(before, width, height, r, c)
    {
      var value := TetrinoGet(t, row, col, rotation);
      if value != 0 {
        assert OccupiedIn(t, rotation, row, col);
        MatrixSet(board, width, height, offsetRow + row, offsetCol + col, value);
      }
    }
  }
}
