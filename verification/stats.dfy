/** The statistics record of one game and the integer helpers the engine's
    bookkeeping uses. */
module Stats {

  datatype Option<T> = None | Some(value: T)

  /** Score, level, cleared lines, combo counter, pieces spawned, the game's
      start time in milliseconds (`None` for an unset date-time) and its
      duration in whole seconds. */
  datatype GameStats = GameStats(
    score: int,
    level: int,
    linesCleared: int,
    currentCombo: int,
    totalPieces: int,
    startTime: Option<int>,
    duration: int)

  /** The default constructor. */
  function NewStats(): (s: GameStats)
    ensures s.score == 0 && s.level == 1 && s.linesCleared == 0
    ensures s.currentCombo == 0 && s.totalPieces == 0 && s.duration == 0
    ensures s.startTime == None
  {
    GameStats(0, 1, 0, 0, 0, None, 0)
  }

  /** `reset`: every field back to its initial value. */
  function Reset(s: GameStats): (r: GameStats)
    ensures r == NewStats()
  {
    s.(score := 0, level := 1, linesCleared := 0, currentCombo := 0,
       totalPieces := 0, duration := 0, startTime := None)
  }

  /** Resetting forgets everything: any two records reset to the same record,
      and resetting twice is resetting once. */
  lemma ResetForgets(s: GameStats, t: GameStats)
    ensures Reset(s) == Reset(t)
    ensures Reset(Reset(s)) == Reset(s)
  {
  }

  /** Integer division truncating toward zero, as C++ divides `int`s. */
  function TruncDiv(a: int, b: int): (q: int)
    requires b > 0
    ensures a >= 0 ==> q == a / b
    ensures a < 0 ==> q <= 0 && (q - 1) * b < a <= q * b
  {
    if a >= 0 then a / b else -((-a) / b)
  }

  /** Truncation is symmetric: negating the numerator negates the quotient. */
  lemma TruncDivOdd(a: int, b: int)
    requires b > 0
    ensures TruncDiv(-a, b) == -TruncDiv(a, b)
  {
    if a > 0 {
      assert TruncDiv(-a, b) == -(a / b);
    } else if a < 0 {
      assert TruncDiv(a, b) == -((-a) / b);
    }
  }

  function Max(a: int, b: int): (m: int)
    ensures m >= a && m >= b && (m == a || m == b)
  {
    if a >= b then a else b
  }
}
