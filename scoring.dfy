/**
 * Scoring, levelling and speed: the points for a clear, the line count that
 * raises the level, the gravity interval per level and the piece draw.
 * Time is counted in frames of 1/60 s.
 */
module Scoring {

  /** `FRAMES_PER_DROP`: frames between two gravity steps at levels 0..29. */
  const FRAMES_PER_DROP: seq<int> := [
    48, 43, 38, 33, 28, 23, 18, 13, 8, 6,
    5, 5, 5, 4, 4, 4, 3, 3, 3, 2,
    2, 2, 2, 2, 2, 2, 2, 2, 2, 1
  ]

  /** The last level with its own entry; faster levels reuse it. */
  const LAST_SPEED_LEVEL := 29

  /** The table has one entry per level 0..29 and never speeds down from one level to the next. */
  lemma FramesPerDropTable()
    ensures |FRAMES_PER_DROP| == LAST_SPEED_LEVEL + 1
    ensures forall i | 0 <= i < |FRAMES_PER_DROP| :: 1 <= FRAMES_PER_DROP[i] <= 48
    ensures forall i | 0 < i < |FRAMES_PER_DROP| :: FRAMES_PER_DROP[i] <= FRAMES_PER_DROP[i - 1]
  {
  }

  /** `get_time_to_next_drop`: the gravity interval in frames; levels above 29 use the level-29 entry. */
  function DropInterval(level: int): (frames: int)
    requires level >= 0
    ensures 1 <= frames <= 48
  {
    FramesPerDropTable();
    FRAMES_PER_DROP[if level > LAST_SPEED_LEVEL then LAST_SPEED_LEVEL else level]
  }

  /** Gravity never slows down as the level rises, and from level 29 on it drops every frame. */
  lemma {:induction false} DropIntervalNonIncreasing(lower: int, higher: int)
    requires 0 <= lower <= higher
    ensures DropInterval(higher) <= DropInterval(lower)
    ensures higher >= LAST_SPEED_LEVEL ==> DropInterval(higher) == 1
    decreases higher - lower
  {
    FramesPerDropTable();
    if lower < higher {
      DropIntervalNonIncreasing(lower, higher - 1);
      if higher <= LAST_SPEED_LEVEL {
        assert FRAMES_PER_DROP[higher] <= FRAMES_PER_DROP[higher - 1];
      }
    }
  }

  /** `compute_points`: 40, 100, 300 or 1200 points times `level + 1` for 1 to 4 lines; anything else scores 0. */
  function ComputePoints(level: int, lineCount: int): (points: int)
    ensures level >= 0 ==> points >= 0
  {
    match lineCount
    case 1 => 40 * (level + 1)
    case 2 => 100 * (level + 1)
    case 3 => 300 * (level + 1)
    case 4 => 1200 * (level + 1)
    case _ => 0
  }

  /** The award at level 0 for each clear size, and nothing for a count outside 1..4. */
  lemma BaseAwards()
    ensures ComputePoints(0, 1) == 40 && ComputePoints(0, 2) == 100
    ensures ComputePoints(0, 3) == 300 && ComputePoints(0, 4) == 1200
    ensures forall level, n | n < 1 || 4 < n :: ComputePoints(level, n) == 0
  {
  }

  /** Every award is the level-0 award scaled by `level + 1`. */
  lemma PointsScaleWithLevel(level: int, lineCount: int)
    ensures ComputePoints(level, lineCount) == (level + 1) * ComputePoints(0, lineCount)
  {
  }

  /** At any level from 0 up, clearing more lines at once (up to 4) scores strictly more, and no clear scores below 0. */
  lemma MoreLinesScoreMore(level: int, fewer: int, more: int)
    requires level >= 0 && 1 <= fewer < more <= 4
    ensures 0 < ComputePoints(level, fewer) < ComputePoints(level, more)
  {
    PointsScaleWithLevel(level, fewer);
    PointsScaleWithLevel(level, more);
    assert ComputePoints(0, fewer) < ComputePoints(0, more);
    assert (level + 1) * ComputePoints(0, fewer) < (level + 1) * ComputePoints(0, more);
  }

  /** `min`. */
  function Min(x: int, y: int): (m: int)
    ensures m <= x && m <= y && (m == x || m == y)
  {
    if x < y then x else y
  }

  /** `max`. */
  function Max(x: int, y: int): (m: int)
    ensures m >= x && m >= y && (m == x || m == y)
  {
    if x > y then x else y
  }

  /** `get_lines_for_next_level`: the total line count at which `level` moves on. */
  function LinesForNextLevel(startLevel: int, level: int): (limit: int)
    ensures limit <= 10 * level + 10
    ensures startLevel >= 0 ==> limit >= 10 * (level - startLevel) + 10
  {
    var firstLevelUpLimit := Min(startLevel * 10 + 10, Max(100, startLevel * 10 - 50));
    if level == startLevel then firstLevelUpLimit
    else
      var diff := level - startLevel;
      firstLevelUpLimit + diff * 10
  }

  /**
   * The first threshold, for a game started at level `s` from 0 up, is
   * 10 * s + 10 up to level 9, then 100 up to level 15, then 10 * s - 50;
   * every later level needs 10 more lines.
   */
  lemma LevelThresholds(startLevel: int, level: int)
    requires startLevel >= 0
    ensures startLevel <= 9 ==> LinesForNextLevel(startLevel, startLevel) == 10 * startLevel + 10
    ensures 10 <= startLevel <= 15 ==> LinesForNextLevel(startLevel, startLevel) == 100
    ensures startLevel >= 16 ==> LinesForNextLevel(startLevel, startLevel) == 10 * startLevel - 50
    ensures LinesForNextLevel(startLevel, level) == LinesForNextLevel(startLevel, startLevel) + 10 * (level - startLevel)
  {
  }

  /** The worked values: a game from level 0 first moves on at 10 lines, one from level 9 at 100. */
  lemma ThresholdExamples()
    ensures LinesForNextLevel(0, 0) == 10
    ensures LinesForNextLevel(9, 9) == 100
    ensures LinesForNextLevel(0, 1) == 20
  {
  }

  /** `random_int`: `min` plus the draw reduced modulo the width of [min, max). */
  function RandomInt(min: int, max: int, roll: int): (r: int)
    requires min < max && roll >= 0
    ensures min <= r < max
  {
    min + roll % (max - min)
  }
}
