/**
 * Score, level and fall rate: the plain expressions the main loop uses when
 * a piece lands and when it decides whether a timed descent is due.
 */
module Progression {

  /** POINTS: the points for clearing 0, 1, 2, 3 or 4 rows at once, at level 1. */
  const POINTS: seq<int> := [0, 50, 150, 350, 1000]

  /** FULL_ROWS_PER_LEVEL. */
  const FULL_ROWS_PER_LEVEL := 12

  /** 2^32: the values of a uint32_t are 0 .. U32_MODULUS - 1. */
  const U32_MODULUS := 0x1_0000_0000

  /** update_score: the level times the points for the rows cleared at once. */
  function UpdateScore(level: int, nrows: int): (r: int)
    requires 0 <= nrows < |POINTS|
    ensures nrows == 0 ==> r == 0
    ensures level >= 1 ==> r >= 50 * nrows
    ensures level >= 1 && nrows == 4 ==> r >= 1000
  {
    level * POINTS[nrows]
  }

  /** Clearing more rows at once never earns fewer points. */
  lemma UpdateScoreMonotone(level: int, a: int, b: int)
    requires level >= 0 && 0 <= a <= b < |POINTS|
    ensures UpdateScore(level, a) <= UpdateScore(level, b)
  {
    assert POINTS[a] <= POINTS[b];
    assert level * POINTS[a] <= level * POINTS[b] by {
      MultiplyMonotone(level, POINTS[a], POINTS[b]);
    }
  }

  lemma MultiplyMonotone(k: int, x: int, y: int)
    requires k >= 0 && x <= y
    ensures k * x <= k * y
  {
    assert k * y - k * x == k * (y - x);
  }

  /**
   * update_level: whether the running total of cleared rows has just entered
   * a new block of twelve. The total is at least twelve and within three of
   * a multiple of twelve (a landing clears at most four rows, so the total
   * can step over a multiple of twelve by up to three).
   */
  function UpdateLevel(totalRows: int): (r: bool)
    ensures r ==> totalRows >= FULL_ROWS_PER_LEVEL
  {
    if totalRows < FULL_ROWS_PER_LEVEL then false
    else RowsIntoLevel(totalRows) <= 3
  }

  /**
   * total_rows % FULL_ROWS_PER_LEVEL for a total that is not negative,
   * written as repeated subtraction so that the verifier unfolds it one
   * block at a time; RowsIntoLevelIsRemainder ties it to the operator.
   */
  function RowsIntoLevel(totalRows: nat): (r: nat)
    ensures r < FULL_ROWS_PER_LEVEL
  {
    if totalRows < FULL_ROWS_PER_LEVEL then totalRows else RowsIntoLevel(totalRows - FULL_ROWS_PER_LEVEL)
  }

  /** For a total that is not negative, C's % and Dafny's agree, and both equal RowsIntoLevel. */
  lemma {:induction false} RowsIntoLevelIsRemainder(totalRows: nat)
    ensures RowsIntoLevel(totalRows) == totalRows % FULL_ROWS_PER_LEVEL
  {
    if totalRows >= FULL_ROWS_PER_LEVEL {
      RowsIntoLevelIsRemainder(totalRows - FULL_ROWS_PER_LEVEL);
    }
  }

  /** The rows right after each multiple of twelve, and only those, raise the level. */
  lemma UpdateLevelWindow(totalRows: int)
    ensures UpdateLevel(totalRows) <==>
      exists k :: 1 <= k && FULL_ROWS_PER_LEVEL * k <= totalRows <= FULL_ROWS_PER_LEVEL * k + 3
  {
    if totalRows >= 0 {
      RowsIntoLevelIsRemainder(totalRows);
    }
    if UpdateLevel(totalRows) {
      var k := totalRows / FULL_ROWS_PER_LEVEL;
      assert FULL_ROWS_PER_LEVEL * k <= totalRows <= FULL_ROWS_PER_LEVEL * k + 3;
    }
    if exists k :: 1 <= k && FULL_ROWS_PER_LEVEL * k <= totalRows <= FULL_ROWS_PER_LEVEL * k + 3 {
      var k :| 1 <= k && FULL_ROWS_PER_LEVEL * k <= totalRows <= FULL_ROWS_PER_LEVEL * k + 3;
      assert totalRows / FULL_ROWS_PER_LEVEL == k;
    }
  }

  /**
   * A single landing clears at most four rows, so when the total crosses a
   * multiple of twelve the new total lies in the window that raises the
   * level: no block of twelve is skipped.
   */
  lemma CrossingRaisesLevel(total: int, nrows: int, k: int)
    requires total >= 0 && 0 < nrows <= 4 && k >= 1
    requires total < FULL_ROWS_PER_LEVEL * k <= total + nrows
    ensures UpdateLevel(total + nrows)
  {
    UpdateLevelWindow(total + nrows);
  }

  /** The conversion of an int to uint32_t: reduction modulo 2^32. */
  function U32(x: int): (r: int)
    ensures 0 <= r < U32_MODULUS
    ensures 0 <= x < U32_MODULUS ==> r == x
    ensures -U32_MODULUS <= x < 0 ==> r == x + U32_MODULUS
  {
    x % U32_MODULUS
  }

  /**
   * level_timer_ticks as written: the milliseconds between timed descents,
   * computed into a uint32_t. An unsigned value is never below zero, so the
   * floor of 50 is never taken.
   */
  function LevelTimerTicksAsWritten(level: int): (r: int)
    ensures 0 <= r < U32_MODULUS
    ensures 1 <= level <= 11 ==> r == 1000 - (level - 1) * 100
  {
    var ticks := U32(1000 - (level - 1) * 100);
    if ticks < 0 then 50 else ticks
  }

  /**
   * From level 12 on, the as-written delay wraps around to more than four
   * billion milliseconds (about 49.7 days) instead of falling to 50.
   */
  lemma LevelTimerTicksWraps(level: int)
    requires 12 <= level <= 10_000_000
    ensures LevelTimerTicksAsWritten(level) == U32_MODULUS + 1000 - (level - 1) * 100
    ensures LevelTimerTicksAsWritten(level) >= U32_MODULUS - 1_000_000_000
  {
  }

  /** The concrete input: at level 12 the delay is 4294967196 ms, not 50. */
  lemma LevelTwelveAsWritten()
    ensures LevelTimerTicksAsWritten(12) == 4294967196
    ensures LevelTimerTicksAsWritten(12) != 50
  {
    LevelTimerTicksWraps(12);
  }

  /**
   * level_timer_ticks as evidently intended: the same expression in signed
   * arithmetic, with a floor of 50 ms once it goes negative.
   */
  function LevelTimerTicks(level: int): (r: int)
    ensures level >= 1 ==> 0 <= r <= 1000
    ensures 1 <= level <= 11 ==> r == 1000 - (level - 1) * 100
    ensures level >= 12 ==> r == 50
  {
    var ticks := 1000 - (level - 1) * 100;
    if ticks < 0 then 50 else ticks
  }

  /**
   * The test at the head of the descent block: a descent is due once the
   * game timer has run for longer than the level's delay, as the code
   * computes it.
   */
  predicate DescentDue(elapsed: int, level: int) {
    elapsed > LevelTimerTicksAsWritten(level)
  }

  /** With the intended delay, one second on the timer always exceeds the delay, at every level. */
  lemma DescentWithinOneSecond(elapsed: int, level: int)
    requires level >= 1 && elapsed > 1000
    ensures elapsed > LevelTimerTicks(level)
  {
  }

  /**
   * With the delay as written, a piece at level 12 or above gets no timed
   * descent until the timer passes 2^32 + 1000 - (level - 1) * 100 ms:
   * 4294967196 ms, about 49.7 days, at level 12.
   */
  lemma NoDescentAsWritten(elapsed: int, level: int)
    requires 12 <= level <= 10_000_000 && elapsed <= U32_MODULUS + 1000 - (level - 1) * 100
    ensures !DescentDue(elapsed, level)
  {
    LevelTimerTicksWraps(level);
  }
}
