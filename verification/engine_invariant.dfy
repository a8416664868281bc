/** The engine invariant: once initialised on a field at least 4 wide and 2
    high, the preview piece is a standard piece in spawn orientation, the held
    piece is either absent or such a piece, the level follows the line count,
    the combo counter stays 0, and while a game is running or paused the
    current piece is a standard piece standing at a valid position and the
    fall interval matches the level. Every operation keeps it. */
module EngineInvariant {
  import opened Blocks
  import opened Catalog
  import opened Field
  import opened Stats
  import opened Engine
  import opened EngineProofs

  /** A real piece with its type's standard shape, in any rotation. */
  ghost predicate PieceOk(b: Block) {
    IsValid(b) && b.shape == StandardShape(b.kind)
  }

  /** A real piece with its type's standard shape at rotation 0. */
  ghost predicate StandardPiece(b: Block) {
    PieceOk(b) && b.rotation == 0
  }

  /** The part of the invariant that holds in every state. */
  ghost predicate InvCore(e: Engine) {
    && WellFormed(e.field) && e.field.width >= 4 && e.field.height >= 2
    && StandardPiece(e.next)
    && (e.hold == EmptyBlock() || StandardPiece(e.hold))
    && e.stats.linesCleared >= 0
    && e.stats.level == e.stats.linesCleared / LinesPerLevel + 1
    && e.stats.currentCombo == 0
  }

  /** What a game in progress adds: a standard current piece at a valid
      position, and the fall interval of the current level. */
  ghost predicate InPlay(e: Engine)
    requires WellFormed(e.field)
  {
    PieceOk(e.current) && IsValidPosition(e.field, e.current, 0, 0) && e.fallSpeed == SpeedFor(e.stats.level)
  }

  ghost predicate Inv(e: Engine) {
    InvCore(e) && (e.state == Running || e.state == Paused ==> InPlay(e))
  }

  /** Under the invariant a running piece has its four cells, so the drop
      loops of hard drop and the ghost terminate. */
  lemma InvCells(e: Engine)
    requires Inv(e)
    ensures e.state == Running || e.state == Paused ==> |OccupiedCells(e.current)| == 4
  {
    if e.state == Running || e.state == Paused {
      StandardBlockHasFourCells(e.current);
    }
  }

  // ---------------------------------------------------------------------------
  // Spawning

  /** A standard piece at the spawn column of row 0 lies inside a field at
      least 4 wide and 2 high. */
  lemma SpawnCellsInside(f: GameField, b: Block)
    requires WellFormed(f) && f.width >= 4 && f.height >= 2 && StandardPiece(b)
    ensures forall c :: c in OccupiedCells(SetPosition(b, SpawnColumn(f), 0)) ==> InBounds(f, c.0, c.1)
  {
    var s := SetPosition(b, SpawnColumn(f), 0);
    OccupiedCellsMembers(s);
    assert BlockPattern(s) == b.shape.pattern;
    StandardPatternSpan(b.kind);
  }

  /** A spawn that does not end the game leaves a standard piece at a valid
      position. */
  lemma SpawnedPieceFits(f: GameField, b: Block)
    requires WellFormed(f) && f.width >= 4 && f.height >= 2 && StandardPiece(b)
    requires !SpawnBlocked(f, SetPosition(b, SpawnColumn(f), 0))
    ensures IsValidPosition(f, SetPosition(b, SpawnColumn(f), 0), 0, 0)
  {
    var s := SetPosition(b, SpawnColumn(f), 0);
    SpawnCellsInside(f, b);
    SpawnBlockedMeaning(f, s);
    ValidPositionMeaning(f, s, 0, 0);
  }

  /** Spawning keeps the invariant of a running game: either the game is over
      or the new piece stands at a valid position. */
  lemma SpawnKeeps(e: Engine, d: Draw)
    requires InvCore(e) && e.state == Running && e.fallSpeed == SpeedFor(e.stats.level)
    ensures Inv(Spawn(e, d))
    ensures Spawn(e, d).state == Running || Spawn(e, d).state == GameOver
  {
    var r := Spawn(e, d);
    if r.state == Running {
      SpawnedPieceFits(e.field, e.next);
    }
  }

  // ---------------------------------------------------------------------------
  // Locking

  /** Clearing lines keeps every part of the invariant that does not concern
      the current piece. */
  lemma ClearKeeps(e: Engine)
    requires InvCore(e) && e.fallSpeed == SpeedFor(e.stats.level)
    ensures InvCore(ClearLines(e).1)
    ensures ClearLines(e).1.fallSpeed == SpeedFor(ClearLines(e).1.stats.level)
    ensures ClearLines(e).1.state == e.state
  {
    var n := ClearLines(e).0;
    if n > 0 {
      LevelTracksLines(e.stats, e.fallSpeed, n);
    }
  }

  /** Locking a piece of a running game keeps the invariant. */
  lemma LockKeeps(e: Engine, d: Draw)
    requires InvCore(e) && e.state == Running && e.fallSpeed == SpeedFor(e.stats.level)
    ensures Inv(Lock(e, d))
  {
    var e1 := Place(e);
    ClearKeeps(e1);
    var e2 := ClearLines(e1).1;
    SpawnKeeps(e2, d);
  }

  // ---------------------------------------------------------------------------
  // Each operation keeps the invariant

  /** `initialize` on a field at least 4 x 2, outside a game, establishes the
      invariant from any engine, including a freshly constructed one. */
  lemma InitializeEstablishes(e: Engine, width: nat, height: nat, d: Draw)
    requires e.state != Running && e.state != Paused && width >= 4 && height >= 2
    ensures Inv(Initialize(e, width, height, d).1)
  {
  }

  lemma StartKeeps(e: Engine, now: int, d: Draw)
    requires Inv(e)
    ensures Inv(Start(e, now, d))
  {
    if e.state != Running {
      var e1 := e.(state := Running, stats := Reset(e.stats), field := ClearField(e.field),
                   canHold := true, fallProgress := 0.0, fallSpeed := NormalFallSpeed,
                   fastDrop := false, lastUpdate := now, hold := EmptyBlock());
      SpawnKeeps(e1, d);
    }
  }

  lemma RestartKeeps(e: Engine, now: int, d: Draw)
    requires Inv(e)
    ensures Inv(Restart(e, now, d))
  {
    StartKeeps(End(e), now, d);
  }

  /** Replacing the current piece of a running game by a standard piece at a
      valid position keeps the invariant. */
  lemma NewPlaceKeeps(e: Engine, b: Block)
    requires Inv(e) && e.state == Running
    requires PieceOk(b) && IsValidPosition(e.field, b, 0, 0)
    ensures Inv(e.(current := b))
  {
  }

  lemma SlideKeeps(e: Engine, dx: int)
    requires Inv(e)
    ensures Inv(Slide(e, dx).1)
  {
    var r := Slide(e, dx);
    if r.0 {
      ValidMoved(e.field, e.current, dx, 0, 0, 0);
      NewPlaceKeeps(e, Move(e.current, dx, 0));
      assert r.1 == e.(current := Move(e.current, dx, 0));
    } else {
      assert r.1 == e;
    }
  }

  lemma RotateKeeps(e: Engine)
    requires Inv(e)
    ensures Inv(RotateClockwise(e).1)
    ensures Inv(RotateCounterClockwise(e).1)
  {
    if RotateClockwise(e).0 {
      NewPlaceKeeps(e, RotateCW(e.current));
    }
    if RotateCounterClockwise(e).0 {
      NewPlaceKeeps(e, RotateCCW(e.current));
    }
  }

  /** One gravity tick keeps the invariant: below a full step nothing but the
      clock and progress change; a full step either moves the piece down to a
      position that fits or locks it. */
  lemma UpdateKeeps(e: Engine, now: int, d: Draw)
    requires Inv(e)
    ensures Inv(Update(e, now, d))
  {
    if e.state == Running {
      var e1 := Tick(e, now);
      if e1.fallProgress >= 1.0 {
        if IsValidPosition(e.field, e.current, 0, 1) {
          FallKeeps(e, e1);
          assert Update(e, now, d) == e1.(current := Move(e.current, 0, 1), fallProgress := 0.0);
        } else {
          TickKeeps(e, now);
          LockKeeps(e1.(fallProgress := 0.0), d);
          assert Update(e, now, d) == Lock(e1.(fallProgress := 0.0), d);
        }
      } else {
        TickKeeps(e, now);
      }
    }
  }

  /** The bookkeeping of a tick touches nothing the invariant speaks of. */
  lemma TickKeeps(e: Engine, now: int)
    requires Inv(e) && e.state == Running
    ensures InvCore(Tick(e, now).(fallProgress := 0.0)) && Inv(Tick(e, now))
    ensures Tick(e, now).fallSpeed == SpeedFor(Tick(e, now).stats.level)
  {
  }

  /** Stepping down one row into a free row keeps the invariant. */
  lemma FallKeeps(e: Engine, e1: Engine)
    requires Inv(e) && e.state == Running && IsValidPosition(e.field, e.current, 0, 1)
    requires e1 == e.(lastUpdate := e1.lastUpdate, fallProgress := e1.fallProgress,
                      stats := e.stats.(startTime := e1.stats.startTime, duration := e1.stats.duration))
    ensures Inv(e1.(current := Move(e.current, 0, 1), fallProgress := 0.0))
  {
    ValidMoved(e.field, e.current, 0, 1, 0, 0);
    NewPlaceKeeps(e1.(fallProgress := 0.0), Move(e.current, 0, 1));
  }

  lemma HardDropKeeps(e: Engine, d: Draw)
    requires Inv(e)
    ensures (InvCells(e); Inv(HardDrop(e, d)))
  {
    if e.state == Running {
      InvCells(e);
      LockKeeps(Dropped(e), d);
    }
  }

  /** The swap branch of hold keeps the invariant: the held piece comes back
      at rotation 0 at a position that fits, or the game ends. */
  lemma SwapHeldKeeps(e: Engine)
    requires Inv(e) && e.state == Running && IsValid(e.current) && IsValid(e.hold)
    ensures Inv(SwapHeld(e))
  {
  }

  lemma HoldKeeps(e: Engine, d: Draw)
    requires Inv(e)
    ensures Inv(Hold(e, d))
  {
    if e.state != Running || !e.canHold || !IsValid(e.current)
       || (e.hold.kind != TypeCount && !IsValid(e.hold)) {
      assert Hold(e, d) == e;
    } else if e.hold.kind == TypeCount {
      SpawnKeeps(e.(hold := ResetRotation(e.current)), d);
    } else {
      SwapHeldKeeps(e);
    }
  }

  lemma ControlKeeps(e: Engine, now: int, enabled: bool)
    requires Inv(e)
    ensures Inv(Pause(e)) && Inv(Resume(e, now)) && Inv(End(e))
    ensures Inv(SoftDrop(e)) && Inv(StopSoftDrop(e)) && Inv(SetGhostEnabled(e, enabled))
  {
  }

  // ---------------------------------------------------------------------------
  // Whole sessions

  /** The entry points a player or the timer can call once the engine is
      initialised, with the clock reading and the random draws they need. */
  datatype Op =
    | StartGame(now: int, d: Draw)
    | PauseGame
    | ResumeGame(now: int)
    | EndGame
    | RestartGame(now: int, d: Draw)
    | Left
    | Right
    | TurnClockwise
    | TurnCounterClockwise
    | SoftDropOn
    | SoftDropOff
    | Drop(d: Draw)
    | Gravity(now: int, d: Draw)
    | HoldPiece(d: Draw)
    | GhostSwitch(enabled: bool)

  /** One entry point applied to the engine. */
  function Step(e: Engine, op: Op): (r: Engine)
    requires Inv(e)
    ensures Inv(r)
  {
    InvCells(e);
    match op
    case StartGame(now, d) => StartKeeps(e, now, d); Start(e, now, d)
    case PauseGame => ControlKeeps(e, 0, e.ghostEnabled); Pause(e)
    case ResumeGame(now) => ControlKeeps(e, now, e.ghostEnabled); Resume(e, now)
    case EndGame => ControlKeeps(e, 0, e.ghostEnabled); End(e)
    case RestartGame(now, d) => RestartKeeps(e, now, d); Restart(e, now, d)
    case Left => SlideKeeps(e, -1); MoveLeft(e).1
    case Right => SlideKeeps(e, 1); MoveRight(e).1
    case TurnClockwise => RotateKeeps(e); RotateClockwise(e).1
    case TurnCounterClockwise => RotateKeeps(e); RotateCounterClockwise(e).1
    case SoftDropOn => ControlKeeps(e, 0, e.ghostEnabled); SoftDrop(e)
    case SoftDropOff => ControlKeeps(e, 0, e.ghostEnabled); StopSoftDrop(e)
    case Drop(d) => HardDropKeeps(e, d); HardDrop(e, d)
    case Gravity(now, d) => UpdateKeeps(e, now, d); Update(e, now, d)
    case HoldPiece(d) => HoldKeeps(e, d); Hold(e, d)
    case GhostSwitch(enabled) => ControlKeeps(e, 0, enabled); SetGhostEnabled(e, enabled)
  }

  /** A sequence of entry points applied in order. */
  function Run(e: Engine, ops: seq<Op>): (r: Engine)
    requires Inv(e)
    decreases |ops|
  {
    if |ops| == 0 then e else Run(Step(e, ops[0]), ops[1..])
  }

  /** Every run keeps the invariant. */
  lemma {:induction false} RunKeeps(e: Engine, ops: seq<Op>)
    requires Inv(e)
    ensures Inv(Run(e, ops))
    decreases |ops|
  {
    if |ops| > 0 {
      RunKeeps(Step(e, ops[0]), ops[1..]);
    }
  }

  /** A constructed engine initialised on a field at least 4 x 2 keeps the
      invariant whatever entry points follow: in particular a running piece
      never overlaps the stack or leaves the field. */
  lemma SessionKeeps(shuffled: Shuffle, ghostEnabled: bool, width: nat, height: nat, d: Draw, ops: seq<Op>)
    requires width >= 4 && height >= 2
    ensures var e := Run(Initialize(NewEngine(shuffled, ghostEnabled), width, height, d).1, ops);
      Inv(e) && (e.state == Running ==> IsValidPosition(e.field, e.current, 0, 0))
  {
    var e0 := Initialize(NewEngine(shuffled, ghostEnabled), width, height, d).1;
    InitializeEstablishes(NewEngine(shuffled, ghostEnabled), width, height, d);
    RunKeeps(e0, ops);
  }
}
