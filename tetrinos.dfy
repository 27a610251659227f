/**
 * The seven piece templates and the rotation sampler. A template is a square
 * of `side * side` cells stored row-major; rotated views are never stored,
 * they are read through one of four fixed index maps.
 */
module Tetrinos {
  import opened Grid

  datatype Tetrino = Tetrino(data: seq<Byte>, side: int)

  /** `TETRINO_1` to `TETRINO_7`: the I, O, T, S, Z, J and L shapes; the cells of shape `k` hold 0 or `k`. */
  const TETRINO_1: seq<Byte> := [0, 0, 0, 0,
                                 1, 1, 1, 1,
                                 0, 0, 0, 0,
                                 0, 0, 0, 0]
  const TETRINO_2: seq<Byte> := [2, 2,
                                 2, 2]
  const TETRINO_3: seq<Byte> := [0, 0, 0,
                                 3, 3, 3,
                                 0, 3, 0]
  const TETRINO_4: seq<Byte> := [0, 4, 4,
                                 4, 4, 0,
                                 0, 0, 0]
  const TETRINO_5: seq<Byte> := [5, 5, 0,
                                 0, 5, 5,
                                 0, 0, 0]
  const TETRINO_6: seq<Byte> := [6, 0, 0,
                                 6, 6, 6,
                                 0, 0, 0]
  const TETRINO_7: seq<Byte> := [0, 0, 7,
                                 7, 7, 7,
                                 0, 0, 0]

  /** `TETRINOS`: each shape with its side length. */
  const TETRINOS: seq<Tetrino> := [
    Tetrino(TETRINO_1, 4),
    Tetrino(TETRINO_2, 2),
    Tetrino(TETRINO_3, 3),
    Tetrino(TETRINO_4, 3),
    Tetrino(TETRINO_5, 3),
    Tetrino(TETRINO_6, 3),
    Tetrino(TETRINO_7, 3)
  ]

  /** `ARRAY_COUNT(TETRINOS)`. */
  const TETRINO_COUNT := 7

  predicate WellFormed(t: Tetrino) {
    t.side >= 1 && |t.data| == t.side * t.side
  }

  /** Every template is a well-formed square of side 2 to 4 whose cells are 0 or its own id. */
  lemma TemplatesWellFormed()
    ensures |TETRINOS| == TETRINO_COUNT
    ensures forall i | 0 <= i < |TETRINOS| ::
      WellFormed(TETRINOS[i]) && 2 <= TETRINOS[i].side <= 4
      && forall v | v in TETRINOS[i].data :: v == 0 || v == i + 1
  {
  }

  /** The template a piece index refers to. */
  function Template(index: int): (t: Tetrino)
    requires 0 <= index < TETRINO_COUNT
    ensures WellFormed(t) && 2 <= t.side <= 4
  {
    TemplatesWellFormed();
    TETRINOS[index]
  }

  /** One quarter turn clockwise of a local coordinate: (row, col) reads (side - 1 - col, row). */
  function QuarterTurn(side: int, cell: (int, int)): (int, int) {
    (side - 1 - cell.1, cell.0)
  }

  /** `k` quarter turns. */
  function Turned(side: int, cell: (int, int), k: nat): (int, int) {
    if k == 0 then cell else QuarterTurn(side, Turned(side, cell, k - 1))
  }

  /** The position in `data` that the view under `rotation` (0..3) reads at (row, col). */
  function SourceIndex(side: int, row: int, col: int, rotation: int): int
    requires 0 <= rotation < 4
  {
    if rotation == 0 then Index(side, row, col)
    else if rotation == 1 then Index(side, side - col - 1, row)
    else if rotation == 2 then Index(side, side - row - 1, side - col - 1)
    else Index(side, col, side - row - 1)
  }

  /** For an in-square cell and rotation 0..3 the sampler reads inside the template. */
  lemma SourceIndexInRange(side: int, row: int, col: int, rotation: int)
    requires 0 <= row < side && 0 <= col < side && 0 <= rotation < 4
    ensures 0 <= SourceIndex(side, row, col, rotation) < side * side
  {
    if rotation == 0 {
      IndexInRange(side, side, row, col);
    } else if rotation == 1 {
      IndexInRange(side, side, side - col - 1, row);
    } else if rotation == 2 {
      IndexInRange(side, side, side - row - 1, side - col - 1);
    } else {
      IndexInRange(side, side, col, side - row - 1);
    }
  }

  /**
   * The four index maps are the identity view read through 0, 1, 2 and 3
   * quarter turns, and four quarter turns are the identity.
   */
  lemma {:induction false} RotationsAreQuarterTurns(side: int, row: int, col: int, rotation: int)
    requires 0 <= rotation < 4
    ensures var cell := Turned(side, (row, col), rotation);
      SourceIndex(side, row, col, rotation) == Index(side, cell.0, cell.1)
    ensures Turned(side, (row, col), 4) == (row, col)
  {
    var c1 := Turned(side, (row, col), 1);
    var c2 := Turned(side, (row, col), 2);
    var c3 := Turned(side, (row, col), 3);
    assert Turned(side, (row, col), 0) == (row, col);
    assert c1 == (side - 1 - col, row);
    assert c2 == (side - 1 - row, side - 1 - col);
    assert c3 == (col, side - 1 - row);
    assert Turned(side, (row, col), 4) == QuarterTurn(side, c3);
  }

  /** `tetrino_get`: the template cell seen at (row, col) under `rotation`; any other rotation reads 0. */
  function TetrinoGet(t: Tetrino, row: int, col: int, rotation: int): (v: Byte)
    requires WellFormed(t) && 0 <= row < t.side && 0 <= col < t.side
    ensures v == 0 || v in t.data
  {
    if 0 <= rotation < 4 then
      SourceIndexInRange(t.side, row, col, rotation);
      t.data[SourceIndex(t.side, row, col, rotation)]
    else
      0
  }

  /**
   * Each rotated view is the previous one read one quarter turn further, and
   * rotation 0 is rotation 3 turned once more.
   */
  lemma {:induction false} ViewAfterQuarterTurn(t: Tetrino, row: int, col: int, rotation: int)
    requires WellFormed(t) && 0 <= row < t.side && 0 <= col < t.side && 0 <= rotation < 4
    ensures var turned := QuarterTurn(t.side, (row, col));
      0 <= turned.0 < t.side && 0 <= turned.1 < t.side
      && TetrinoGet(t, row, col, (rotation + 1) % 4) == TetrinoGet(t, turned.0, turned.1, rotation)
  {
    var turned := QuarterTurn(t.side, (row, col));
    RotationsAreQuarterTurns(t.side, row, col, (rotation + 1) % 4);
    RotationsAreQuarterTurns(t.side, turned.0, turned.1, rotation);
  }

  /** A rotation outside 0..3 samples every cell as empty. */
  lemma OutOfRangeRotationIsEmpty(t: Tetrino, row: int, col: int, rotation: int)
    requires WellFormed(t) && 0 <= row < t.side && 0 <= col < t.side
    requires rotation < 0 || 4 <= rotation
    ensures TetrinoGet(t, row, col, rotation) == 0
  {
  }

  /** The sampler is not periodic in the rotation: rotation 4 of the O piece reads 0, rotation 0 reads 2. */
  lemma RotationNotPeriodic()
    ensures TetrinoGet(Template(1), 0, 0, 0) == 2
    ensures TetrinoGet(Template(1), 0, 0, 4) == 0
  {
  }

  /** Every view of every template has an occupied cell; the witness is returned. */
  lemma OccupiedCell(index: int, rotation: int) returns (row: int, col: int)
    requires 0 <= index < TETRINO_COUNT && 0 <= rotation < 4
    ensures 0 <= row < Template(index).side && 0 <= col < Template(index).side
    ensures TetrinoGet(Template(index), row, col, rotation) != 0
  {
    var t := Template(index);
    if index == 0 {
      // the bar lies in local row 1 of the unrotated template
      row, col := if rotation == 0 then 1 else if rotation == 1 then 0 else if rotation == 2 then 2 else 0,
                  if rotation == 0 then 0 else if rotation == 1 then 2 else if rotation == 2 then 0 else 1;
    } else if index == 1 {
      row, col := 0, 0;
    } else {
      // the centre of a 3-wide template is occupied and fixed by every turn
      row, col := 1, 1;
    }
    assert TetrinoGet(t, row, col, rotation) == t.data[SourceIndex(t.side, row, col, rotation)];
  }
}
