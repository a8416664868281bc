/** Properties of the game engine: lifecycle transitions, the movement
    inverses, hard drop and the ghost piece, hold, spawning, scoring, and the
    invariant every operation keeps once the engine is initialised. */
module EngineProofs {
  import opened Blocks
  import opened Catalog
  import opened Field
  import opened Stats
  import opened Engine

  // ---------------------------------------------------------------------------
  // Collision under translation

  /** Testing a moved block at an offset is testing the original block at the
      combined offset. */
  lemma ValidMoved(f: GameField, b: Block, dx: int, dy: int, ex: int, ey: int)
    requires WellFormed(f)
    ensures IsValidPosition(f, Move(b, dx, dy), ex, ey) == IsValidPosition(f, b, dx + ex, dy + ey)
  {
    MoveCells(b, dx, dy);
    FitsShift(f, OccupiedCells(b), dx, dy, ex, ey);
  }

  /** Testing shifted cells at an offset is testing the cells at the combined offset. */
  lemma FitsShift(f: GameField, cells: seq<Pos>, dx: int, dy: int, ex: int, ey: int)
    requires WellFormed(f)
    ensures FitsFrom(f, Shift(cells, dx, dy), ex, ey, 0) == FitsFrom(f, cells, dx + ex, dy + ey, 0)
  {
    var moved := Shift(cells, dx, dy);
    forall j | 0 <= j < |cells|
      ensures CellFree(f, moved[j].0 + ex, moved[j].1 + ey) == CellFree(f, cells[j].0 + (dx + ex), cells[j].1 + (dy + ey))
    {
      assert moved[j].0 + ex == cells[j].0 + (dx + ex);
      assert moved[j].1 + ey == cells[j].1 + (dy + ey);
    }
  }

  // ---------------------------------------------------------------------------
  // Lifecycle

  /** Pausing a running game and resuming it gives back the same engine apart
      from the clock reference; pausing and resuming never touch the fall
      progress, and each is idempotent. */
  lemma PauseResume(e: Engine, now: int)
    ensures e.state == Running ==> Resume(Pause(e), now) == e.(lastUpdate := now)
    ensures Pause(Pause(e)) == Pause(e)
    ensures Resume(Resume(e, now), now) == Resume(e, now)
    ensures Pause(e).fallProgress == e.fallProgress && Resume(e, now).fallProgress == e.fallProgress
    ensures End(e).fallProgress == e.fallProgress
    ensures End(End(e)) == End(e)
  {
  }

  /** Starting from any state but Running yields a running game on an empty
      field with fresh statistics (one piece counted), no held piece, hold
      allowed, normal speed, and the former preview piece at the spawn column. */
  lemma StartFresh(e: Engine, now: int, d: Draw)
    requires WellFormed(e.field) && e.state != Running
    ensures var r := Start(e, now, d);
      && r.state == Running
      && r.stats == NewStats().(totalPieces := 1)
      && AllEmpty(r.field) && r.field.width == e.field.width && r.field.height == e.field.height
      && r.hold == EmptyBlock() && r.canHold && r.fallSpeed == NormalFallSpeed
      && r.fallProgress == 0.0 && !r.fastDrop && r.lastUpdate == now
      && r.current == SetPosition(e.next, SpawnColumn(e.field), 0)
  {
    var e1 := e.(state := Running, stats := Reset(e.stats), field := ClearField(e.field),
                 canHold := true, fallProgress := 0.0, fallSpeed := NormalFallSpeed,
                 fastDrop := false, lastUpdate := now, hold := EmptyBlock());
    assert Start(e, now, d) == Spawn(e1, d);
    assert e1.stats == NewStats() && AllEmpty(e1.field);
    assert SpawnColumn(e1.field) == SpawnColumn(e.field);
    SpawnOnEmpty(e1, d);
  }

  /** On an empty field a spawn always succeeds. */
  lemma SpawnOnEmpty(e: Engine, d: Draw)
    requires WellFormed(e.field) && AllEmpty(e.field)
    ensures var r := Spawn(e, d);
      && r.state == e.state && r.field == e.field && r.hold == e.hold && r.canHold
      && r.current == SetPosition(e.next, SpawnColumn(e.field), 0)
      && r.stats == e.stats.(totalPieces := e.stats.totalPieces + 1)
      && r.fallSpeed == e.fallSpeed && r.fallProgress == 0.0 && !r.fastDrop && r.lastUpdate == e.lastUpdate
  {
    EmptyFieldNeverBlocks(e.field, SetPosition(e.next, SpawnColumn(e.field), 0));
  }

  /** Nothing spawned on an empty field is blocked. */
  lemma EmptyFieldNeverBlocks(f: GameField, b: Block)
    requires WellFormed(f) && AllEmpty(f)
    ensures !SpawnBlocked(f, b)
  {
    SpawnBlockedMeaning(f, b);
    forall c | c in OccupiedCells(b) && InBounds(f, c.0, c.1)
      ensures !f.grid[c.1][c.0].occupied
    {
      assert RowEmpty(f.grid[c.1]);
    }
  }

  /** Restarting always yields a fresh running game, whatever the state. */
  lemma RestartRuns(e: Engine, now: int, d: Draw)
    requires WellFormed(e.field)
    ensures Restart(e, now, d).state == Running
    ensures Restart(e, now, d).stats == NewStats().(totalPieces := 1)
  {
    StartFresh(End(e), now, d);
  }

  // ---------------------------------------------------------------------------
  // Movement

  /** A successful move left or right is undone by the opposite move. */
  lemma SlideUndo(e: Engine, dx: int)
    requires WellFormed(e.field) && IsValidPosition(e.field, e.current, 0, 0)
    requires Slide(e, dx).0
    ensures Slide(Slide(e, dx).1, -dx) == (true, e)
  {
    ValidMoved(e.field, e.current, dx, 0, -dx, 0);
    MoveTranslates(e.current, dx, 0);
  }

  /** A successful move changes only the column of the piece, by exactly dx. */
  lemma SlideOnlyMoves(e: Engine, dx: int)
    requires WellFormed(e.field) && Slide(e, dx).0
    ensures Slide(e, dx).1.current.pos == (e.current.pos.0 + dx, e.current.pos.1)
    ensures Slide(e, dx).1.current.rotation == e.current.rotation
    ensures Slide(e, dx).1.current.kind == e.current.kind
    ensures Slide(e, dx).1.(current := e.current) == e
  {
  }

  /** A successful clockwise turn is undone by a counter-clockwise turn, and
      the other way round. */
  lemma RotateUndo(e: Engine)
    requires WellFormed(e.field) && IsValidPosition(e.field, e.current, 0, 0)
    ensures RotateClockwise(e).0 ==> RotateCounterClockwise(RotateClockwise(e).1) == (true, e)
    ensures RotateCounterClockwise(e).0 ==> RotateClockwise(RotateCounterClockwise(e).1) == (true, e)
  {
    RotationInverses(e.current);
  }

  /** A successful clockwise turn advances the rotation by one step and
      changes nothing else. */
  lemma RotateClockwiseOnlyTurns(e: Engine)
    requires WellFormed(e.field) && RotateClockwise(e).0
    ensures RotateClockwise(e).1.current.rotation == (e.current.rotation + 1) % RotCount
    ensures RotateClockwise(e).1.current.pos == e.current.pos
    ensures RotateClockwise(e).1.(current := e.current) == e
  {
    assert RotateClockwise(e).1 == e.(current := RotateCW(e.current));
  }

  /** A successful counter-clockwise turn moves the rotation back one step and
      changes nothing else. */
  lemma RotateCounterClockwiseOnlyTurns(e: Engine)
    requires WellFormed(e.field) && RotateCounterClockwise(e).0
    ensures (RotateCounterClockwise(e).1.current.rotation + 1) % RotCount == e.current.rotation
    ensures RotateCounterClockwise(e).1.current.pos == e.current.pos
    ensures RotateCounterClockwise(e).1.(current := e.current) == e
  {
    assert RotateCounterClockwise(e).1 == e.(current := RotateCCW(e.current));
  }

  // ---------------------------------------------------------------------------
  // Gravity

  /** One gravity tick of a running game: below one row of progress only the
      bookkeeping changes; at one row the piece steps down and the progress
      restarts when the row below is free, and otherwise the piece locks. */
  lemma GravityStep(e: Engine, now: int, d: Draw)
    requires WellFormed(e.field) && e.state == Running
    ensures var t := Tick(e, now);
      var r := Update(e, now, d);
      && (t.fallProgress < 1.0 ==> r == t)
      && (t.fallProgress >= 1.0 && IsValidPosition(e.field, e.current, 0, 1) ==>
            r.current == Move(e.current, 0, 1) && r.fallProgress == 0.0
            && r.field == e.field && r.state == Running && r.stats.score == e.stats.score)
      && (t.fallProgress >= 1.0 && !IsValidPosition(e.field, e.current, 0, 1) ==>
            r == Lock(t.(fallProgress := 0.0), d))
  {
  }

  /** Soft drop only selects the fast interval for the fall progress:
      switching it on and off again leaves a running game with fast falling
      off and nothing else changed. */
  lemma SoftDropToggle(e: Engine, now: int)
    requires e.state == Running
    ensures StopSoftDrop(SoftDrop(e)) == e.(fastDrop := false)
    ensures SoftDrop(e).current == e.current && StopSoftDrop(e).current == e.current
    ensures Tick(SoftDrop(e), now).fallProgress ==
      e.fallProgress + (now - e.lastUpdate) as real / e.fastFallSpeed as real
    ensures Tick(StopSoftDrop(e), now).fallProgress ==
      e.fallProgress + (now - e.lastUpdate) as real / e.fallSpeed as real
  {
  }

  // ---------------------------------------------------------------------------
  // Hard drop and ghost

  /** For a piece that stands validly, the ghost is the piece moved down by the
      drop distance: the clamp to the last row never applies. */
  lemma GhostIsLanding(e: Engine)
    requires WellFormed(e.field) && e.state == Running
    requires |OccupiedCells(e.current)| > 0 && IsValidPosition(e.field, e.current, 0, 0)
    ensures GhostBlock(e) == Move(e.current, 0, DropDistance(e.field, e.current))
  {
    var b := e.current;
    var dist := DropDistance(e.field, b);
    if dist > 0 {
      assert IsValidPosition(e.field, b, 0, dist);
    }
    FitsAboveFloor(e.field, b, dist);
    assert GhostPosition(e) == (b.pos.0, b.pos.1 + dist);
    assert SetPosition(b, b.pos.0, b.pos.1 + dist) == Move(b, 0, dist);
  }

  /** The ghost fits where it stands and cannot go one row lower. */
  lemma GhostRestsOnStack(e: Engine)
    requires WellFormed(e.field) && e.state == Running
    requires |OccupiedCells(e.current)| > 0 && IsValidPosition(e.field, e.current, 0, 0)
    ensures IsValidPosition(e.field, GhostBlock(e), 0, 0)
    ensures !IsValidPosition(e.field, GhostBlock(e), 0, 1)
  {
    GhostIsLanding(e);
    LandingRests(e.field, e.current);
  }

  /** A validly placed piece moved down by its drop distance fits there and
      cannot go one row lower. */
  lemma LandingRests(f: GameField, b: Block)
    requires WellFormed(f) && |OccupiedCells(b)| > 0 && IsValidPosition(f, b, 0, 0)
    ensures IsValidPosition(f, Move(b, 0, DropDistance(f, b)), 0, 0)
    ensures !IsValidPosition(f, Move(b, 0, DropDistance(f, b)), 0, 1)
  {
    var dist := DropDistance(f, b);
    if dist > 0 {
      assert IsValidPosition(f, b, 0, dist);
    }
    MovedDown(f, b, dist);
  }

  /** Testing a piece moved down by k rows, where it stands and one row
      lower, is testing the piece k and k + 1 rows down. */
  lemma MovedDown(f: GameField, b: Block, k: int)
    requires WellFormed(f)
    ensures IsValidPosition(f, Move(b, 0, k), 0, 0) == IsValidPosition(f, b, 0, k)
    ensures IsValidPosition(f, Move(b, 0, k), 0, 1) == IsValidPosition(f, b, 0, k + 1)
  {
    MoveCells(b, 0, k);
    FitsShift(f, OccupiedCells(b), 0, k, 0, 0);
    FitsShift(f, OccupiedCells(b), 0, k, 0, 1);
  }

  /** Hard drop moves the piece exactly to where the ghost shows it, adding two
      points per row fallen, before it locks. */
  lemma HardDropAtGhost(e: Engine)
    requires WellFormed(e.field) && e.state == Running
    requires |OccupiedCells(e.current)| > 0 && IsValidPosition(e.field, e.current, 0, 0)
    ensures Dropped(e).current == GhostBlock(e)
    ensures Dropped(e).stats.score == e.stats.score + 2 * (GhostBlock(e).pos.1 - e.current.pos.1)
  {
    GhostIsLanding(e);
  }

  // ---------------------------------------------------------------------------
  // Spawn and hold

  /** Spawning ends the game exactly when some in-field cell of the new piece
      is already occupied; otherwise the state is kept and one more piece is
      counted. */
  lemma SpawnGameOverIff(e: Engine, d: Draw)
    requires WellFormed(e.field) && e.state == Running
    ensures var r := Spawn(e, d);
      && (r.state == GameOver <==>
           exists c :: c in OccupiedCells(r.current) && InBounds(e.field, c.0, c.1) && e.field.grid[c.1][c.0].occupied)
      && (r.state != GameOver ==> r.state == Running && r.canHold && r.stats.totalPieces == e.stats.totalPieces + 1)
  {
    SpawnBlockedMeaning(e.field, Spawn(e, d).current);
  }

  /** Hold works at most once per piece: right after a hold, another hold
      changes nothing. */
  lemma HoldOncePerPiece(e: Engine, d1: Draw, d2: Draw)
    requires WellFormed(e.field)
    ensures Hold(Hold(e, d1), d2) == Hold(e, d1)
  {
  }

  /** A hold that swaps exchanges the types of the current and held pieces,
      both at rotation 0. */
  lemma HoldSwapsKinds(e: Engine, d: Draw)
    requires WellFormed(e.field) && e.state == Running && e.canHold
    requires IsValid(e.current) && IsValid(e.hold)
    ensures Hold(e, d).current.kind == e.hold.kind && Hold(e, d).current.rotation == 0
    ensures Hold(e, d).hold == ResetRotation(e.current)
    ensures Hold(e, d).state == Running ==> !Hold(e, d).canHold && Hold(e, d).current.pos.1 == 0
  {
  }

  /** A swap ends the game exactly when the former held piece fits at none of
      the offsets -2 .. 2 from the spawn column in row 0; otherwise it lands at
      the spawn column if it fits there, else at the first offset that fits. */
  lemma SwapOutcome(e: Engine)
    requires WellFormed(e.field) && e.state == Running
    ensures var cur := SetPosition(ResetRotation(e.hold), SpawnColumn(e.field), 0);
      SwapHeld(e).state == GameOver <==> forall o :: -2 <= o <= 2 ==> !FitsAtOffset(e.field, cur, SpawnColumn(e.field), o)
    ensures var spawnX := SpawnColumn(e.field);
      var cur := SetPosition(ResetRotation(e.hold), spawnX, 0);
      var o := SwapHeld(e).current.pos.0 - spawnX;
      SwapHeld(e).state == Running ==>
        -2 <= o <= 2 && FitsAtOffset(e.field, cur, spawnX, o)
        && (o == 0 || forall o' :: -2 <= o' < o ==> !FitsAtOffset(e.field, cur, spawnX, o'))
  {
    var spawnX := SpawnColumn(e.field);
    var cur := SetPosition(ResetRotation(e.hold), spawnX, 0);
    var held := ResetRotation(e.current);
    assert SetPosition(cur, spawnX + 0, 0) == cur;
    if IsValidPosition(e.field, cur, 0, 0) {
      assert FitsAtOffset(e.field, cur, spawnX, 0);
      assert SwapHeld(e) == e.(current := cur, hold := held, canHold := false, fallProgress := 0.0);
    } else {
      AdjustSwappedFirst(e.field, cur, spawnX);
      var a := AdjustSwapped(e.field, cur, spawnX);
      if a.Some? {
        assert SwapHeld(e) == e.(current := a.value, hold := held, canHold := false, fallProgress := 0.0);
      } else {
        assert SwapHeld(e).state == GameOver;
      }
    }
  }

  /** The first hold stores the current piece and brings in the preview piece. */
  lemma HoldFirstUse(e: Engine, d: Draw)
    requires WellFormed(e.field) && e.state == Running && e.canHold
    requires IsValid(e.current) && e.hold.kind == TypeCount
    ensures Hold(e, d).hold == ResetRotation(e.current)
    ensures Hold(e, d).current == SetPosition(e.next, SpawnColumn(e.field), 0)
    ensures !Hold(e, d).canHold
  {
  }

  // ---------------------------------------------------------------------------
  // Scoring

  /** Clearing lines scores the table entry times the level in force before
      the clear, adds the lines to the total, and never lowers the level. */
  lemma ClearScoring(e: Engine)
    requires WellFormed(e.field)
    ensures var (n, r) := ClearLines(e);
      && r.stats.score == e.stats.score + BaseScore(n) * e.stats.level
      && r.stats.linesCleared == e.stats.linesCleared + n
      && r.stats.level >= e.stats.level
      && r.stats.currentCombo == e.stats.currentCombo
      && Occupied(r.field) + n * e.field.width == Occupied(e.field)
  {
    RemoveAllCount(e.field);
  }

  /** While the level equals lines / 10 + 1 and the fall interval matches the
      level, a clear keeps both relations. */
  lemma LevelTracksLines(s: GameStats, speed: Interval, n: nat)
    requires s.linesCleared >= 0 && s.level == s.linesCleared / LinesPerLevel + 1
    requires speed == SpeedFor(s.level)
    ensures AfterClear(s, speed, n).0.level == AfterClear(s, speed, n).0.linesCleared / LinesPerLevel + 1
    ensures AfterClear(s, speed, n).1 == SpeedFor(AfterClear(s, speed, n).0.level)
  {
    var total := s.linesCleared + n;
    assert total / 10 >= s.linesCleared / 10;
  }
}
