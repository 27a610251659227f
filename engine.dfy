/**
 * The game state and its per-tick update: a phase machine over START, PLAY,
 * LINE and GAMEOVER. The board is 10 columns by 22 rows; time is counted in
 * frames of 1/60 s and is written by the caller between ticks. Every draw of
 * the random generator is a parameter.
 */
module Engine {
  import opened Grid
  import opened Tetrinos
  import opened Placement
  import opened Lines
  import opened Scoring

  const WIDTH := 10
  const HEIGHT := 22
  /** The line highlight lasts 0.5 s. */
  const HIGHLIGHT_FRAMES := 30

  datatype Phase = Start | Play | Line | GameOver

  /** The key presses of one tick: a field is positive when its key went down this tick. */
  datatype Input = Input(dleft: int, dright: int, dup: int, ddown: int, da: int)

  /** Every field of the game, with the board and the row markers as sequences. */
  datatype Snapshot = Snapshot(board: seq<Byte>, lines: seq<Byte>, pendingLineCount: int, piece: PieceState,
                               phase: Phase, startLevel: int, level: int, lineCount: int, points: int,
                               nextDropTime: int, highlightEndTime: int, time: int)

  /** The piece `spawn_piece` creates from the draw `roll`: a random template, unrotated, top row, column 5. */
  function Spawned(roll: int): (p: PieceState)
    requires roll >= 0
    ensures KnownTetrino(p) && p.rotation == 0 && p.offsetRow == 0 && p.offsetCol == WIDTH / 2
  {
    PieceState(RandomInt(0, TETRINO_COUNT, roll), 0, WIDTH / 2, 0)
  }

  /** A spawned piece always lies on the board. */
  lemma SpawnedInBounds(roll: int)
    requires roll >= 0
    ensures PieceInBounds(Spawned(roll), WIDTH, HEIGHT)
  {
    var p := Spawned(roll);
    SquareOnBoardInBounds(Template(p.tetrinoIndex), 0, 0, WIDTH / 2, WIDTH, HEIGHT);
  }

  /** C's `%`, which truncates toward zero. */
  function TruncRem(a: int, b: int): (r: int)
    requires b > 0
    ensures -b < r < b && (a >= 0 ==> r == a % b)
  {
    if a >= 0 then a % b else -((-a) % b)
  }

  /** The piece the first part of `update_game_play` tries: left, right and rotation applied together to one copy. */
  function Tentative(p: PieceState, input: Input): (q: PieceState)
    ensures q.tetrinoIndex == p.tetrinoIndex && q.offsetRow == p.offsetRow
  {
    var col := p.offsetCol - (if input.dleft > 0 then 1 else 0) + (if input.dright > 0 then 1 else 0);
    var rotation := if input.dup > 0 then TruncRem(p.rotation + 1, 4) else p.rotation;
    p.(offsetCol := col, rotation := rotation)
  }

  /**
   * Left and right pressed together cancel out; a rotation press turns a
   * rotation in 0..3 one quarter further and wraps from 3 to 0, so four
   * presses restore it.
   */
  lemma TentativeMoves(p: PieceState, input: Input)
    requires 0 <= p.rotation < 4
    ensures input.dleft > 0 && input.dright > 0 ==> Tentative(p, input).offsetCol == p.offsetCol
    ensures 0 <= Tentative(p, input).rotation < 4
    ensures input.dup > 0 ==> Tentative(p, input).rotation == (p.rotation + 1) % 4
    ensures input.dup <= 0 ==> Tentative(p, input).rotation == p.rotation
    ensures var turn := Input(0, 0, 1, 0, 0);
      Tentative(Tentative(Tentative(Tentative(p, turn), turn), turn), turn) == p
  {
  }

  class Game {
    const board: array<Byte>
    const lines: array<Byte>
    var pendingLineCount: int
    var piece: PieceState
    var phase: Phase
    var startLevel: int
    var level: int
    var lineCount: int
    var points: int
    var nextDropTime: int
    var highlightEndTime: int
    var time: int

    /** The shape of the state: buffer sizes, a known piece on the board with rotation 0..3, counters from 0 up. */
    ghost predicate Valid()
      reads this
    {
      board.Length == WIDTH * HEIGHT && lines.Length == HEIGHT && board != lines
      && KnownTetrino(piece) && 0 <= piece.rotation < 4 && PieceInBounds(piece, WIDTH, HEIGHT)
      && 0 <= pendingLineCount && 0 <= startLevel && 0 <= level && 0 <= lineCount && 0 <= points
    }

    /**
     * What each phase relies on between ticks: in PLAY no row is full; in LINE
     * the row markers flag exactly the full rows and the pending count is
     * their number.
     */
    ghost predicate PhaseInvariant()
      reads this, board, lines
      requires Valid()
    {
      && (phase == Play ==> forall row | 0 <= row < HEIGHT :: !RowFilled(board[..], WIDTH, HEIGHT, row))
      && (phase == Line ==> FullMarks(board[..], WIDTH, HEIGHT, lines[..]) && pendingLineCount == MarkedCount(lines[..]))
    }

    /** Every board cell is empty (0) or holds the id 1..7 of the piece that was merged there. */
    ghost predicate PieceIds()
      reads board
    {
      board.Length == WIDTH * HEIGHT && CellsAtMost(board[..], WIDTH, HEIGHT, TETRINO_COUNT)
    }

    ghost function Snap(): Snapshot
      reads this, board, lines
    {
      Snapshot(board[..], lines[..], pendingLineCount, piece, phase, startLevel, level, lineCount, points,
               nextDropTime, highlightEndTime, time)
    }

    /** A zero-initialised game, as the program starts with: empty board, phase START. */
    constructor ()
      ensures Valid() && PhaseInvariant() && PieceIds() && fresh(board) && fresh(lines)
      ensures Snap() == Snapshot(seq(WIDTH * HEIGHT, _ => 0), seq(HEIGHT, _ => 0), 0, PieceState(0, 0, 0, 0),
                                 Start, 0, 0, 0, 0, 0, 0, 0)
    {
      board := new Byte[WIDTH * HEIGHT](_ => 0);
      lines := new Byte[HEIGHT](_ => 0);
      pendingLineCount := 0;
      piece := PieceState(0, 0, 0, 0);
      phase := Start;
      startLevel := 0;
      level := 0;
      lineCount := 0;
      points := 0;
      nextDropTime := 0;
      highlightEndTime := 0;
      time := 0;
      new;
      SquareOnBoardInBounds(Template(0), 0, 0, 0, WIDTH, HEIGHT);
      ZeroBoardCells(WIDTH, HEIGHT, TETRINO_COUNT);
      assert board[..] == ZeroBoard(WIDTH, HEIGHT);
    }

    /** `merge_piece`: writes the piece into the board. */
    method MergePiece()
      requires Valid()
      modifies board
      ensures MergedInto(board[..], old(board[..]), piece, WIDTH, HEIGHT)
      ensures old(PieceIds()) ==> PieceIds()
    {
      ghost var before := board[..];
      StampTemplate(board, Template(piece.tetrinoIndex), piece.rotation, piece.offsetRow, piece.offsetCol,
                    WIDTH, HEIGHT);
      if CellsAtMost(before, WIDTH, HEIGHT, TETRINO_COUNT) {
        MergeKeepsPieceIds(board[..], before, piece, WIDTH, HEIGHT);
      }
    }

    /** `spawn_piece`: a new piece from the draw `roll`, and the next gravity step one interval from now. */
    method SpawnPiece(roll: int)
      requires Valid() && roll >= 0
      modifies this`piece, this`nextDropTime
      ensures Valid()
      ensures piece == Spawned(roll) && nextDropTime == time + DropInterval(level)
    {
      piece := Spawned(roll);
      SpawnedInBounds(roll);
      nextDropTime := time + DropInterval(level);
    }

    /**
     * `soft_drop`: moves the piece one row down when it fits there and
     * reschedules gravity; otherwise merges it where it stands and spawns the
     * next piece from the draw `roll`.
     */
    method SoftDrop(roll: int) returns (moved: bool)
      requires Valid() && roll >= 0
      modifies this`piece, this`nextDropTime, board
      ensures Valid()
      ensures moved == PieceValid(Lowered(old(piece), 1), old(board[..]), WIDTH, HEIGHT)
      ensures moved ==> piece == Lowered(old(piece), 1) && board[..] == old(board[..])
      ensures !moved ==> MergedInto(board[..], old(board[..]), old(piece), WIDTH, HEIGHT) && piece == Spawned(roll)
      ensures nextDropTime == time + DropInterval(level) && time < nextDropTime
      ensures old(PieceIds()) ==> PieceIds()
    {
      piece := Lowered(piece, 1);
      var valid := CheckPieceValid(piece, board, WIDTH, HEIGHT);
      if !valid {
        piece := Lowered(piece, -1);
        MergePiece();
        SpawnPiece(roll);
        return false;
      }
      ValidIsInBounds(piece, board[..], WIDTH, HEIGHT);
      nextDropTime := time + DropInterval(level);
      return true;
    }

    /** Left, right and rotate: the tentative piece replaces the current one only when it fits. */
    method TryMove(input: Input)
      requires Valid()
      modifies this`piece
      ensures Valid()
      ensures piece == if PieceValid(Tentative(old(piece), input), board[..], WIDTH, HEIGHT)
                       then Tentative(old(piece), input) else old(piece)
    {
      var candidate := Tentative(piece, input);
      TentativeMoves(piece, input);
      var valid := CheckPieceValid(candidate, board, WIDTH, HEIGHT);
      if valid {
        ValidIsInBounds(candidate, board[..], WIDTH, HEIGHT);
        piece := candidate;
      }
    }

    /**
     * The hard drop `while (soft_drop(game));`: the piece falls `drops` rows,
     * as far as it fits, is merged there, and a new piece is spawned.
     */
    method HardDrop(roll: int) returns (ghost drops: nat)
      requires Valid() && roll >= 0
      modifies this`piece, this`nextDropTime, board
      ensures Valid()
      ensures FallsFreely(old(piece), old(board[..]), WIDTH, HEIGHT, drops)
      ensures !PieceValid(Lowered(old(piece), drops + 1), old(board[..]), WIDTH, HEIGHT)
      ensures MergedInto(board[..], old(board[..]), Lowered(old(piece), drops), WIDTH, HEIGHT)
      ensures piece == Spawned(roll) && nextDropTime == time + DropInterval(level)
      ensures old(PieceIds()) ==> PieceIds()
    {
      ghost var start := piece;
      ghost var before := board[..];
      drops := 0;
      while true
        invariant Valid() && piece == Lowered(start, drops) && board[..] == before
        invariant FallsFreely(start, before, WIDTH, HEIGHT, drops)
        decreases HEIGHT - piece.offsetRow
      {
        InBoundsAboveFloor(piece, WIDTH, HEIGHT);
        var moved := SoftDrop(roll);
        if !moved {
          return;
        }
        drops := drops + 1;
      }
    }

    /**
     * `while (time >= next_drop_time) soft_drop(game);`: both outcomes of a
     * soft drop reschedule gravity from the current time, so the loop body
     * runs at most once and the next step is always in the future.
     */
    method ApplyGravity(roll: nat) returns (spawned: bool)
      requires Valid()
      modifies this`piece, this`nextDropTime, board
      ensures Valid() && time < nextDropTime
      ensures time < old(nextDropTime) ==>
        piece == old(piece) && board[..] == old(board[..]) && nextDropTime == old(nextDropTime) && !spawned
      ensures time >= old(nextDropTime) ==>
        && spawned == !PieceValid(Lowered(old(piece), 1), old(board[..]), WIDTH, HEIGHT)
        && (!spawned ==> piece == Lowered(old(piece), 1) && board[..] == old(board[..]))
        && (spawned ==> MergedInto(board[..], old(board[..]), old(piece), WIDTH, HEIGHT) && piece == Spawned(roll))
        && nextDropTime == time + DropInterval(level)
      ensures old(PieceIds()) ==> PieceIds()
    {
      spawned := false;
      var fired := false;
      while time >= nextDropTime
        invariant Valid()
        invariant !fired ==>
          piece == old(piece) && board[..] == old(board[..]) && nextDropTime == old(nextDropTime) && !spawned
        invariant fired ==>
          && time < nextDropTime && time >= old(nextDropTime)
          && spawned == !PieceValid(Lowered(old(piece), 1), old(board[..]), WIDTH, HEIGHT)
          && (!spawned ==> piece == Lowered(old(piece), 1) && board[..] == old(board[..]))
          && (spawned ==> MergedInto(board[..], old(board[..]), old(piece), WIDTH, HEIGHT) && piece == Spawned(roll))
          && nextDropTime == time + DropInterval(level)
        invariant old(PieceIds()) ==> PieceIds()
        decreases if fired then 0 else 1
      {
        var moved := SoftDrop(roll);
        spawned := !moved;
        fired := true;
      }
    }

    /**
     * `update_game_play`: the tentative move or rotation, an optional soft
     * drop, an optional hard drop and gravity, then the line scan. The `k`-th
     * piece spawned during the tick uses the draw `draw(k)`.
     */
    method UpdatePlay(input: Input, draw: nat -> nat)
      requires Valid()
      modifies this`piece, this`nextDropTime, this`pendingLineCount, this`phase, this`highlightEndTime, board, lines
      ensures Valid() && PhaseInvariant()
      ensures time < nextDropTime
      ensures FullMarks(board[..], WIDTH, HEIGHT, lines[..]) && pendingLineCount == MarkedCount(lines[..])
      ensures pendingLineCount == 0 <==> forall row | 0 <= row < HEIGHT :: !RowFilled(board[..], WIDTH, HEIGHT, row)
      ensures phase == if !RowEmpty(board[..], WIDTH, HEIGHT, 0) then GameOver
                       else if pendingLineCount > 0 then Line
                       else old(phase)
      ensures highlightEndTime == if pendingLineCount > 0 then time + HIGHLIGHT_FRAMES else old(highlightEndTime)
      ensures input.ddown <= 0 && input.da <= 0 && time < old(nextDropTime) ==>
        && board[..] == old(board[..]) && nextDropTime == old(nextDropTime)
        && piece == if PieceValid(Tentative(old(piece), input), old(board[..]), WIDTH, HEIGHT)
                    then Tentative(old(piece), input) else old(piece)
      ensures old(PieceIds()) ==> PieceIds()
    {
      MoveAndFall(input, draw);
      ScanLines();
    }

    /** The piece half of `update_game_play`: player moves and drops, then gravity. */
    method MoveAndFall(input: Input, draw: nat -> nat)
      requires Valid()
      modifies this`piece, this`nextDropTime, board
      ensures Valid() && time < nextDropTime
      ensures input.ddown <= 0 && input.da <= 0 && time < old(nextDropTime) ==>
        && board[..] == old(board[..]) && nextDropTime == old(nextDropTime)
        && piece == if PieceValid(Tentative(old(piece), input), old(board[..]), WIDTH, HEIGHT)
                    then Tentative(old(piece), input) else old(piece)
      ensures old(PieceIds()) ==> PieceIds()
    {
      var spawns: nat := 0;
      TryMove(input);
      if input.ddown > 0 {
        var moved := SoftDrop(draw(spawns));
        if !moved {
          spawns := spawns + 1;
        }
      }
      if input.da > 0 {
        var drops := HardDrop(draw(spawns));
        spawns := spawns + 1;
      }
      var spawned := ApplyGravity(draw(spawns));
    }

    /**
     * The board half of `update_game_play`: any full row starts the LINE
     * phase with a highlight of 0.5 s; a block left in the top row ends the
     * game, whether or not rows were found.
     */
    method ScanLines()
      requires Valid()
      modifies this`pendingLineCount, this`phase, this`highlightEndTime, lines
      ensures Valid() && PhaseInvariant()
      ensures FullMarks(board[..], WIDTH, HEIGHT, lines[..]) && pendingLineCount == MarkedCount(lines[..])
      ensures pendingLineCount == 0 <==> forall row | 0 <= row < HEIGHT :: !RowFilled(board[..], WIDTH, HEIGHT, row)
      ensures phase == if !RowEmpty(board[..], WIDTH, HEIGHT, 0) then GameOver
                       else if pendingLineCount > 0 then Line
                       else old(phase)
      ensures highlightEndTime == if pendingLineCount > 0 then time + HIGHLIGHT_FRAMES else old(highlightEndTime)
    {
      pendingLineCount := FindLines(board, WIDTH, HEIGHT, lines);
      CountZeroIffNoneMarked(lines[..]);
      if pendingLineCount > 0 {
        phase := Line;
        highlightEndTime := time + HIGHLIGHT_FRAMES;
      }
      var empty := CheckRowEmpty(board, WIDTH, HEIGHT, 0);
      if !empty {
        phase := GameOver;
      }
    }

    /**
     * `update_game_line`: until the highlight ends nothing changes. Then the
     * marked rows are removed, the pending lines are counted and scored at
     * the level before the clear, the level goes up by one when the line
     * count reaches the threshold, and play resumes.
     */
    method UpdateLine()
      requires Valid()
      modifies this`level, this`lineCount, this`points, this`phase, board
      ensures Valid()
      ensures time < old(highlightEndTime) ==> Snap() == old(Snap())
      ensures time >= old(highlightEndTime) ==>
        && Rows(board[..], WIDTH, HEIGHT) == ClearedRows(old(Rows(board[..], WIDTH, HEIGHT)), lines[..], WIDTH)
        && lineCount == old(lineCount) + pendingLineCount
        && points == old(points) + ComputePoints(old(level), pendingLineCount)
        && level == old(level) + (if lineCount >= LinesForNextLevel(startLevel, old(level)) then 1 else 0)
        && phase == Play
      ensures old(phase) == Line && old(PhaseInvariant()) ==> PhaseInvariant()
      ensures old(PieceIds()) ==> PieceIds()
    {
      if time >= highlightEndTime {
        ghost var before := board[..];
        ghost var rows := Rows(board[..], WIDTH, HEIGHT);
        ghost var fullMarks := phase == Line && PhaseInvariant();
        ghost var ids := PieceIds();
        ClearLines(board, WIDTH, HEIGHT, lines);
        lineCount := lineCount + pendingLineCount;
        points := points + ComputePoints(level, pendingLineCount);
        var linesForNextLevel := LinesForNextLevel(startLevel, level);
        if lineCount >= linesForNextLevel {
          level := level + 1;
        }
        phase := Play;
        if fullMarks {
          NoFullRowAfterClear(rows);
        }
        if ids {
          ClearKeepsPieceIds(before);
        }
      }
    }

    /** Clearing the rows `lines` marks as full leaves a board with no full row. */
    lemma NoFullRowAfterClear(rows: seq<seq<Byte>>)
      requires Valid() && |rows| == HEIGHT
      requires forall r | 0 <= r < HEIGHT :: |rows[r]| == WIDTH && lines[r] == if Full(rows[r]) then 1 else 0
      requires Rows(board[..], WIDTH, HEIGHT) == ClearedRows(rows, lines[..], WIDTH)
      ensures forall row | 0 <= row < HEIGHT :: !RowFilled(board[..], WIDTH, HEIGHT, row)
    {
      ClearedHasNoFullRow(rows, lines[..], WIDTH);
      forall row | 0 <= row < HEIGHT
        ensures !RowFilled(board[..], WIDTH, HEIGHT, row)
      {
        assert Row(board[..], WIDTH, HEIGHT, row) == Rows(board[..], WIDTH, HEIGHT)[row];
      }
    }

    /** Clearing rows of a board whose cells are 0 or a piece id leaves such a board. */
    lemma ClearKeepsPieceIds(before: seq<Byte>)
      requires Valid() && |before| == WIDTH * HEIGHT && CellsAtMost(before, WIDTH, HEIGHT, TETRINO_COUNT)
      requires Rows(board[..], WIDTH, HEIGHT) == ClearedRows(Rows(before, WIDTH, HEIGHT), lines[..], WIDTH)
      ensures PieceIds()
    {
      var rows := Rows(before, WIDTH, HEIGHT);
      CellsAtMostByRows(before, WIDTH, HEIGHT, TETRINO_COUNT);
      ClearedKeepsBound(rows, lines[..], WIDTH, TETRINO_COUNT);
      CellsAtMostByRows(board[..], WIDTH, HEIGHT, TETRINO_COUNT);
    }

    /** `update_game_gameover`: a confirm press returns to the start screen; nothing else changes. */
    method UpdateGameOver(input: Input)
      modifies this`phase
      ensures Snap() == old(Snap()).(phase := if input.da > 0 then Start else old(phase))
    {
      if input.da > 0 {
        phase := Start;
      }
    }

    /** `memset(board, 0, WIDTH * HEIGHT)`. */
    method ClearBoard()
      requires board.Length == WIDTH * HEIGHT
      modifies board
      ensures board[..] == ZeroBoard(WIDTH, HEIGHT)
    {
      for i := 0 to board.Length
        invariant forall j | 0 <= j < i :: board[j] == 0
      {
        board[i] := 0;
      }
    }

    /**
     * `update_game_start`: up raises the start level, down lowers it but not
     * below 0; a confirm press clears the board, starts the counters from the
     * chosen level, spawns the first piece from the draw `roll` and begins play.
     */
    method UpdateStart(input: Input, roll: nat)
      requires Valid()
      modifies this`startLevel, this`level, this`lineCount, this`points, this`piece, this`nextDropTime, this`phase, board
      ensures Valid() && startLevel >= 0
      ensures var raised := old(startLevel) + (if input.dup > 0 then 1 else 0);
        startLevel == if input.ddown > 0 && raised > 0 then raised - 1 else raised
      ensures input.da <= 0 ==> Snap() == old(Snap()).(startLevel := startLevel)
      ensures input.da > 0 ==>
        && board[..] == ZeroBoard(WIDTH, HEIGHT)
        && level == startLevel && lineCount == 0 && points == 0
        && piece == Spawned(roll) && nextDropTime == time + DropInterval(startLevel)
        && phase == Play && PhaseInvariant()
      ensures old(PieceIds()) ==> PieceIds()
    {
      if input.dup > 0 {
        startLevel := startLevel + 1;
      }
      if input.ddown > 0 && startLevel > 0 {
        startLevel := startLevel - 1;
      }
      if input.da > 0 {
        ClearBoard();
        level := startLevel;
        lineCount := 0;
        points := 0;
        SpawnPiece(roll);
        phase := Play;
        ZeroBoardRows(WIDTH, HEIGHT);
        ZeroBoardCells(WIDTH, HEIGHT, TETRINO_COUNT);
      }
    }

    /**
     * `update_game`: one tick of the phase in effect. Each phase handler keeps
     * the state well formed and the phase invariant, and after a PLAY tick the
     * next gravity step lies in the future.
     */
    method UpdateGame(input: Input, draw: nat -> nat)
      requires Valid() && PhaseInvariant() && PieceIds()
      modifies this, board, lines
      ensures Valid() && PhaseInvariant() && PieceIds()
      ensures old(phase) == Play ==> time < nextDropTime
      ensures old(phase) == GameOver ==> Snap() == old(Snap()).(phase := if input.da > 0 then Start else GameOver)
      ensures old(phase) == Line && time < old(highlightEndTime) ==> Snap() == old(Snap())
      ensures old(phase) == Start ==> phase == if input.da > 0 then Play else Start
    {
      match phase
      case Start =>
        UpdateStart(input, draw(0));
      case Play =>
        UpdatePlay(input, draw);
      case Line =>
        UpdateLine();
      case GameOver =>
        UpdateGameOver(input);
    }
  }
}
