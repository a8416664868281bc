/** The game engine: the state machine of a game, piece movement with collision
    checks, gravity driven by elapsed time, locking, line clearing with scoring
    and levels, hold, and the ghost piece.

    Every entry point is a function from the engine record (and, where the
    program reads the clock or asks the block factory for a piece, from the
    current time in milliseconds and a `Draw`) to the new record. */
module Engine {
  import opened Blocks
  import opened Catalog
  import opened Field
  import opened Stats

  datatype State = Stopped | Running | Paused | GameOver

  /** Milliseconds per row of fall; always positive. */
  type Interval = i: int | i >= 1 witness 1000

  const NormalFallSpeed: Interval := 1000
  const FastFallSpeed: Interval := 50
  const MinFallSpeed: int := 100
  const LinesPerLevel: int := 10

  datatype Engine = Engine(
    state: State,
    field: GameField,
    current: Block,
    next: Block,
    hold: Block,
    canHold: bool,
    stats: GameStats,
    fallProgress: real,
    fastDrop: bool,
    fallSpeed: Interval,
    fastFallSpeed: Interval,
    lastUpdate: int,
    factory: Factory,
    ghostEnabled: bool)

  /** The constructor: stopped, hold allowed, no progress, normal speeds, a
      default 10 x 20 field, "no piece" blocks everywhere, a fresh factory.
      The ghost flag is not initialised by the program, so it is a parameter. */
  function NewEngine(shuffled: Shuffle, ghostEnabled: bool): (e: Engine)
    ensures e.state == Stopped && e.canHold && e.fallProgress == 0.0 && !e.fastDrop
    ensures e.fallSpeed == 1000 && e.fastFallSpeed == 50 && e.lastUpdate == 0
    ensures e.field.width == 10 && e.field.height == 20 && WellFormed(e.field) && AllEmpty(e.field)
    ensures e.current == EmptyBlock() && e.next == EmptyBlock() && e.hold == EmptyBlock()
    ensures e.stats == NewStats()
  {
    Engine(Stopped, NewField(DefaultWidth, DefaultHeight), EmptyBlock(), EmptyBlock(), EmptyBlock(),
           true, NewStats(), 0.0, false, NormalFallSpeed, FastFallSpeed, 0,
           NewFactory(shuffled), ghostEnabled)
  }

  /** `initialize`: a fresh field of the given size, statistics reset, no held
      piece, and the preview piece drawn from the factory. Always succeeds. */
  function Initialize(e: Engine, width: nat, height: nat, d: Draw): (r: (bool, Engine))
    ensures r.0
    ensures r.1.field == NewField(width, height) && r.1.stats == NewStats()
    ensures r.1.hold == EmptyBlock() && r.1.next == CreateRandomBlock(e.factory, d).0
    ensures r.1.factory == CreateRandomBlock(e.factory, d).1
    ensures r.1.state == e.state && r.1.current == e.current && r.1.fallSpeed == e.fallSpeed
    ensures r.1 == e.(field := r.1.field, stats := r.1.stats, hold := r.1.hold, next := r.1.next,
                      factory := r.1.factory)
  {
    var (nb, fac) := CreateRandomBlock(e.factory, d);
    (true, e.(field := NewField(width, height), stats := Reset(e.stats), hold := EmptyBlock(),
              next := nb, factory := fac))
  }

  /** `setGhostBlockEnabled`. */
  function SetGhostEnabled(e: Engine, enabled: bool): (r: Engine)
    ensures r.ghostEnabled == enabled && r.(ghostEnabled := e.ghostEnabled) == e
  {
    e.(ghostEnabled := enabled)
  }

  // ---------------------------------------------------------------------------
  // Collision

  /** A cell a piece may occupy: inside the side walls, above the floor, and,
      when inside the field, not occupied. Rows above the top are free. */
  predicate CellFree(f: GameField, x: int, y: int)
    requires WellFormed(f)
  {
    0 <= x < f.width && y < f.height && (y < 0 || IsCellEmpty(f, x, y))
  }

  /** The check loop of `isValidPosition` from cell i on: side walls first,
      then the floor, then occupancy, stopping at the first failure. */
  function FitsFrom(f: GameField, cells: seq<Pos>, dx: int, dy: int, i: nat): (r: bool)
    requires WellFormed(f) && i <= |cells|
    ensures r <==> forall j :: i <= j < |cells| ==> CellFree(f, cells[j].0 + dx, cells[j].1 + dy)
    decreases |cells| - i
  {
    if i == |cells| then true
    else
      var x, y := cells[i].0 + dx, cells[i].1 + dy;
      if x < 0 || x >= f.width then false
      else if y >= f.height then false
      else if y >= 0 && !IsCellEmpty(f, x, y) then false
      else FitsFrom(f, cells, dx, dy, i + 1)
  }

  /** `isValidPosition(block, dx, dy)`: every occupied cell of the block, offset
      by (dx, dy), is free. */
  function IsValidPosition(f: GameField, b: Block, dx: int, dy: int): bool
    requires WellFormed(f)
  {
    FitsFrom(f, OccupiedCells(b), dx, dy, 0)
  }

  /** A position is valid exactly when every cell of the block, offset by
      (dx, dy), is free. */
  lemma ValidPositionMeaning(f: GameField, b: Block, dx: int, dy: int)
    requires WellFormed(f)
    ensures IsValidPosition(f, b, dx, dy) <==> forall c :: c in OccupiedCells(b) ==> CellFree(f, c.0 + dx, c.1 + dy)
  {
    var cells := OccupiedCells(b);
    assert forall c :: c in cells <==> exists j :: 0 <= j < |cells| && cells[j] == c;
  }

  /** The overlap loop of `spawnNewBlock` from cell i on: is some in-field cell
      already occupied? */
  function BlockedFrom(f: GameField, cells: seq<Pos>, i: nat): (r: bool)
    requires WellFormed(f) && i <= |cells|
    ensures r <==> exists j :: i <= j < |cells| && InBounds(f, cells[j].0, cells[j].1) &&
                              f.grid[cells[j].1][cells[j].0].occupied
    decreases |cells| - i
  {
    if i == |cells| then false
    else
      var x, y := cells[i].0, cells[i].1;
      if y >= 0 && y < f.height && x >= 0 && x < f.width && !IsCellEmpty(f, x, y) then true
      else BlockedFrom(f, cells, i + 1)
  }

  /** The spawn test: some cell of the piece inside the field is occupied.
      Cells outside the field are not looked at. */
  function SpawnBlocked(f: GameField, b: Block): bool
    requires WellFormed(f)
  {
    BlockedFrom(f, OccupiedCells(b), 0)
  }

  /** The spawn test fails exactly when some in-field cell of the piece is occupied. */
  lemma SpawnBlockedMeaning(f: GameField, b: Block)
    requires WellFormed(f)
    ensures SpawnBlocked(f, b) <==>
      exists c :: c in OccupiedCells(b) && InBounds(f, c.0, c.1) && f.grid[c.1][c.0].occupied
  {
    var cells := OccupiedCells(b);
    assert forall c :: c in cells <==> exists j :: 0 <= j < |cells| && cells[j] == c;
  }

  /** Every cell of a block lies at or below the block's position. */
  lemma CellsBelowOrigin(b: Block)
    ensures forall c :: c in OccupiedCells(b) ==> c.1 >= b.pos.1 && c.0 >= b.pos.0
  {
    OccupiedCellsMembers(b);
  }

  /** A piece with cells that fits k rows down has its origin above the floor
      by more than k rows. */
  lemma FitsAboveFloor(f: GameField, b: Block, k: int)
    requires WellFormed(f) && |OccupiedCells(b)| > 0 && IsValidPosition(f, b, 0, k)
    ensures b.pos.1 + k < f.height
  {
    var c := OccupiedCells(b)[0];
    CellsBelowOrigin(b);
    assert c in OccupiedCells(b);
    ValidPositionMeaning(f, b, 0, k);
    assert CellFree(f, c.0, c.1 + k);
  }

  /** The loop of `hardDrop` and `calculateGhostPosition` from distance d on:
      the largest distance reached by stepping down while the next row fits. */
  function DropFrom(f: GameField, b: Block, d: nat): (r: nat)
    requires WellFormed(f) && |OccupiedCells(b)| > 0
    requires forall k :: 1 <= k <= d ==> IsValidPosition(f, b, 0, k)
    ensures r >= d
    ensures forall k :: 1 <= k <= r ==> IsValidPosition(f, b, 0, k)
    ensures !IsValidPosition(f, b, 0, r + 1)
    decreases f.height - b.pos.1 - d
  {
    if IsValidPosition(f, b, 0, d + 1) then
      FitsAboveFloor(f, b, d + 1);
      DropFrom(f, b, d + 1)
    else d
  }

  /** The drop distance: how many rows the piece can fall, one row at a time. */
  function DropDistance(f: GameField, b: Block): (r: nat)
    requires WellFormed(f) && |OccupiedCells(b)| > 0
    ensures forall k :: 1 <= k <= r ==> IsValidPosition(f, b, 0, k)
    ensures !IsValidPosition(f, b, 0, r + 1)
  {
    DropFrom(f, b, 0)
  }

  // ---------------------------------------------------------------------------
  // Game control

  /** `startGame`: ignored while running; otherwise a new game on a cleared
      field with fresh statistics, normal speed and no held piece, followed by
      the first spawn. Starting from Paused or GameOver also starts afresh. */
  function Start(e: Engine, now: int, d: Draw): (r: Engine)
    requires WellFormed(e.field)
    ensures e.state == Running ==> r == e
  {
    if e.state == Running then e
    else
      var e1 := e.(state := Running, stats := Reset(e.stats), field := ClearField(e.field),
                   canHold := true, fallProgress := 0.0, fallSpeed := NormalFallSpeed,
                   fastDrop := false, lastUpdate := now, hold := EmptyBlock());
      Spawn(e1, d)
  }

  /** `pauseGame`: only a running game pauses. */
  function Pause(e: Engine): (r: Engine)
    ensures e.state == Running ==> r == e.(state := Paused)
    ensures e.state != Running ==> r == e
  {
    if e.state != Running then e else e.(state := Paused)
  }

  /** `resumeGame`: only a paused game resumes; the clock reference is reset so
      the pause does not count as falling time. */
  function Resume(e: Engine, now: int): (r: Engine)
    ensures e.state == Paused ==> r == e.(state := Running, lastUpdate := now)
    ensures e.state != Paused ==> r == e
  {
    if e.state != Paused then e else e.(state := Running, lastUpdate := now)
  }

  /** `endGame`: any state but Stopped becomes Stopped; nothing else changes. */
  function End(e: Engine): (r: Engine)
    ensures r.state == Stopped && r.(state := e.state) == e
  {
    if e.state == Stopped then e else e.(state := Stopped)
  }

  /** `restartGame`: end, then start. */
  function Restart(e: Engine, now: int, d: Draw): (r: Engine)
    requires WellFormed(e.field)
    ensures r == Start(e.(state := Stopped), now, d)
  {
    Start(End(e), now, d)
  }

  // ---------------------------------------------------------------------------
  // Piece movement

  /** `moveLeft`/`moveRight` with dx = -1 / +1: the move happens exactly when
      the game runs and the shifted piece fits. */
  function Slide(e: Engine, dx: int): (r: (bool, Engine))
    requires WellFormed(e.field)
    ensures r.0 <==> e.state == Running && IsValidPosition(e.field, e.current, dx, 0)
    ensures r.0 ==> r.1 == e.(current := Move(e.current, dx, 0))
    ensures !r.0 ==> r.1 == e
  {
    if e.state != Running then (false, e)
    else if IsValidPosition(e.field, e.current, dx, 0) then (true, e.(current := Move(e.current, dx, 0)))
    else (false, e)
  }

  function MoveLeft(e: Engine): (r: (bool, Engine))
    requires WellFormed(e.field)
    ensures r == Slide(e, -1)
  {
    Slide(e, -1)
  }

  function MoveRight(e: Engine): (r: (bool, Engine))
    requires WellFormed(e.field)
    ensures r == Slide(e, 1)
  {
    Slide(e, 1)
  }

  /** `rotateClockwise`: turn a copy, keep the turn only if the copy fits. */
  function RotateClockwise(e: Engine): (r: (bool, Engine))
    requires WellFormed(e.field)
    ensures r.0 <==> e.state == Running && IsValidPosition(e.field, RotateCW(e.current), 0, 0)
    ensures r.0 ==> r.1 == e.(current := RotateCW(e.current))
    ensures !r.0 ==> r.1 == e
  {
    if e.state != Running then (false, e)
    else
      var test := RotateCW(e.current);
      if IsValidPosition(e.field, test, 0, 0) then (true, e.(current := RotateCW(e.current)))
      else (false, e)
  }

  /** `rotateCounterClockwise`: as `rotateClockwise`, turning the other way. */
  function RotateCounterClockwise(e: Engine): (r: (bool, Engine))
    requires WellFormed(e.field)
    ensures r.0 <==> e.state == Running && IsValidPosition(e.field, RotateCCW(e.current), 0, 0)
    ensures r.0 ==> r.1 == e.(current := RotateCCW(e.current))
    ensures !r.0 ==> r.1 == e
  {
    if e.state != Running then (false, e)
    else
      var test := RotateCCW(e.current);
      if IsValidPosition(e.field, test, 0, 0) then (true, e.(current := RotateCCW(e.current)))
      else (false, e)
  }

  /** `softDrop`: fast falling on, while running. */
  function SoftDrop(e: Engine): (r: Engine)
    ensures e.state == Running ==> r == e.(fastDrop := true)
    ensures e.state != Running ==> r == e
  {
    if e.state != Running then e else e.(fastDrop := true)
  }

  /** `stopSoftDrop`: fast falling off, while running. */
  function StopSoftDrop(e: Engine): (r: Engine)
    ensures e.state == Running ==> r == e.(fastDrop := false)
    ensures e.state != Running ==> r == e
  {
    if e.state != Running then e else e.(fastDrop := false)
  }

  // ---------------------------------------------------------------------------
  // Spawning, locking, clearing

  /** The column every piece spawns at, whatever its shape's spawn offset. */
  function SpawnColumn(f: GameField): int {
    f.width / 2 - 2
  }

  /** `spawnNewBlock`: the preview piece becomes current at the spawn column of
      row 0 and a new preview is drawn. If an in-field cell of the new piece is
      occupied the game is over and nothing else is reset; otherwise hold is
      allowed again, progress and fast drop are reset and the piece is counted. */
  function Spawn(e: Engine, d: Draw): (r: Engine)
    requires WellFormed(e.field)
    ensures r.current == SetPosition(e.next, SpawnColumn(e.field), 0)
    ensures r.next == CreateRandomBlock(e.factory, d).0 && r.factory == CreateRandomBlock(e.factory, d).1
    ensures r.field == e.field && r.hold == e.hold
    ensures SpawnBlocked(e.field, r.current) ==>
      r == e.(state := GameOver, current := r.current, next := r.next, factory := r.factory)
    ensures !SpawnBlocked(e.field, r.current) ==>
      r == e.(current := r.current, next := r.next, factory := r.factory, canHold := true,
              fallProgress := 0.0, fastDrop := false,
              stats := e.stats.(totalPieces := e.stats.totalPieces + 1))
  {
    var (nb, fac) := CreateRandomBlock(e.factory, d);
    var cur := SetPosition(e.next, SpawnColumn(e.field), 0);
    var e1 := e.(current := cur, next := nb, factory := fac);
    if SpawnBlocked(e.field, cur) then e1.(state := GameOver)
    else e1.(canHold := true, fallProgress := 0.0, fastDrop := false,
             stats := e.stats.(totalPieces := e.stats.totalPieces + 1))
  }

  /** The loop of `placeCurrentBlock`: every listed cell inside the field is
      marked occupied with the colour; cells outside are skipped. */
  function PlaceCells(f: GameField, cells: seq<Pos>, color: Color): (r: GameField)
    requires WellFormed(f)
    ensures WellFormed(r) && r.width == f.width && r.height == f.height
    ensures forall y, x :: 0 <= y < f.height && 0 <= x < f.width ==>
      r.grid[y][x] == if (x, y) in cells then Cell(true, color) else f.grid[y][x]
    decreases |cells|
  {
    if |cells| == 0 then f
    else
      var c := cells[0];
      var f1 := if c.0 >= 0 && c.0 < f.width && c.1 >= 0 && c.1 < f.height then SetCell(f, c.0, c.1, color) else f;
      var r := PlaceCells(f1, cells[1..], color);
      assert forall p :: p in cells <==> p == c || p in cells[1..];
      r
  }

  /** `placeCurrentBlock`: writes the current piece into the field in its colour. */
  function Place(e: Engine): (r: Engine)
    requires WellFormed(e.field)
    ensures WellFormed(r.field) && r.field.width == e.field.width && r.field.height == e.field.height
    ensures r == e.(field := r.field)
    ensures forall y, x :: 0 <= y < e.field.height && 0 <= x < e.field.width ==>
      r.field.grid[y][x] ==
        if (x, y) in OccupiedCells(e.current) then Cell(true, ColorOf(e.current)) else e.field.grid[y][x]
  {
    e.(field := PlaceCells(e.field, OccupiedCells(e.current), ColorOf(e.current)))
  }

  /** `calculateScore`'s table: 100, 300, 500, 800 for one to four lines, 0 otherwise. */
  function BaseScore(lines: int): (s: int)
    ensures 1 <= lines <= 4 <==> s > 0
    ensures s >= 0 && s % 100 == 0
    ensures lines == 1 ==> s == 100
    ensures lines == 2 ==> s == 300
    ensures lines == 3 ==> s == 500
    ensures lines == 4 ==> s == 800
    ensures !(1 <= lines <= 4) ==> s == 0
  {
    if lines == 1 then 100
    else if lines == 2 then 300
    else if lines == 3 then 500
    else if lines == 4 then 800
    else 0
  }

  /** The fall interval of a level: 100 ms faster per level, never below 100 ms. */
  function SpeedFor(level: int): (s: Interval)
    ensures s >= MinFallSpeed
    ensures level <= 10 ==> s == 1000 - (level - 1) * 100
    ensures level >= 10 ==> s == MinFallSpeed
  {
    Max(MinFallSpeed, NormalFallSpeed - (level - 1) * 100)
  }

  /** `updateGameStats`: add the lines, score them at the level in force before
      the clear, then raise the level (and the fall speed) if the new line total
      calls for it. Returns the new statistics and fall interval. */
  function AfterClear(s: GameStats, speed: Interval, lines: int): (r: (GameStats, Interval))
    ensures r.0 == s.(linesCleared := r.0.linesCleared, score := r.0.score, level := r.0.level)
    ensures r.0.linesCleared == s.linesCleared + lines
    ensures r.0.score == s.score + BaseScore(lines) * s.level
    ensures r.0.level == Max(s.level, TruncDiv(s.linesCleared + lines, LinesPerLevel) + 1)
    ensures r.0.level > s.level ==> r.1 == SpeedFor(r.0.level)
    ensures r.0.level == s.level ==> r.1 == speed
  {
    var s1 := s.(linesCleared := s.linesCleared + lines);
    var s2 := s1.(score := s1.score + BaseScore(lines) * s1.level);
    var newLevel := TruncDiv(s2.linesCleared, LinesPerLevel) + 1;
    if newLevel > s2.level then (s2.(level := newLevel), SpeedFor(newLevel))
    else (s2, speed)
  }

  /** `clearCompletedLines`: remove every complete row; when there was one,
      update the statistics. Returns the number of rows removed. */
  function ClearLines(e: Engine): (r: (nat, Engine))
    requires WellFormed(e.field)
    ensures r.0 == |FindCompleteLines(e.field)|
    ensures r.1.field == RemoveAllCompleteLines(e.field).1
    ensures r.0 == 0 ==> r.1 == e
    ensures r.0 > 0 ==> r.1 == e.(field := r.1.field, stats := AfterClear(e.stats, e.fallSpeed, r.0).0,
                                   fallSpeed := AfterClear(e.stats, e.fallSpeed, r.0).1)
  {
    var lines := FindCompleteLines(e.field);
    var n := |lines|;
    if n > 0 then
      var (s, speed) := AfterClear(e.stats, e.fallSpeed, n);
      (n, e.(field := RemoveLines(e.field, lines), stats := s, fallSpeed := speed))
    else (0, e)
  }

  /** `lockCurrentBlock`: only while running, place the piece, clear lines,
      spawn the next piece, then reset progress and fast drop (even when the
      spawn ended the game). */
  function Lock(e: Engine, d: Draw): (r: Engine)
    requires WellFormed(e.field)
    ensures e.state != Running ==> r == e
    ensures e.state == Running ==> r == Spawn(ClearLines(Place(e)).1, d).(fallProgress := 0.0, fastDrop := false)
  {
    if e.state != Running then e
    else
      var e1 := Place(e);
      var e2 := ClearLines(e1).1;
      var e3 := Spawn(e2, d);
      e3.(fallProgress := 0.0, fastDrop := false)
  }

  /** The movement half of `hardDrop`: fall the drop distance at once, with
      two points per row fallen and the progress reset when the piece moved. */
  function Dropped(e: Engine): (r: Engine)
    requires WellFormed(e.field) && |OccupiedCells(e.current)| > 0
    ensures r.current == Move(e.current, 0, DropDistance(e.field, e.current))
    ensures r.stats == e.stats.(score := e.stats.score + 2 * DropDistance(e.field, e.current))
    ensures r.(current := e.current, stats := e.stats, fallProgress := e.fallProgress) == e
  {
    var dist := DropDistance(e.field, e.current);
    if dist > 0 then
      e.(current := Move(e.current, 0, dist), stats := e.stats.(score := e.stats.score + dist * 2),
         fallProgress := 0.0)
    else e
  }

  /** `hardDrop`: while running, drop and then lock (also when the piece did
      not move). The program's distance loop only ends for a piece with cells,
      which every running game has. */
  function HardDrop(e: Engine, d: Draw): (r: Engine)
    requires WellFormed(e.field)
    requires e.state == Running ==> |OccupiedCells(e.current)| > 0
    ensures e.state != Running ==> r == e
    ensures e.state == Running ==> r == Lock(Dropped(e), d)
  {
    if e.state != Running then e
    else Lock(Dropped(e), d)
  }

  // ---------------------------------------------------------------------------
  // Gravity

  /** The bookkeeping half of `updateGame` at time `now`: record the start
      time on the first tick (later ticks refresh the duration in whole
      seconds) and advance the fall progress by the elapsed time over the
      active fall interval. */
  function Tick(e: Engine, now: int): (r: Engine)
    ensures r.fallProgress - e.fallProgress ==
      (now - e.lastUpdate) as real / (if e.fastDrop then e.fastFallSpeed else e.fallSpeed) as real
    ensures r.lastUpdate == now
    ensures e.stats.startTime.None? ==> r.stats.startTime == Some(now) && r.stats.duration == e.stats.duration
    ensures e.stats.startTime.Some? ==> r.stats.startTime == e.stats.startTime
    ensures e.stats.startTime.Some? && now >= e.stats.startTime.value ==>
      r.stats.duration * 1000 <= now - e.stats.startTime.value < (r.stats.duration + 1) * 1000
    ensures r == e.(lastUpdate := r.lastUpdate, fallProgress := r.fallProgress,
                    stats := e.stats.(startTime := r.stats.startTime, duration := r.stats.duration))
  {
    var stats := match e.stats.startTime
      case None => e.stats.(startTime := Some(now))
      case Some(t) => e.stats.(duration := TruncDiv(now - t, 1000));
    var speed := if e.fastDrop then e.fastFallSpeed else e.fallSpeed;
    e.(lastUpdate := now, stats := stats, fallProgress := e.fallProgress + (now - e.lastUpdate) as real / speed as real)
  }

  /** `updateGame` at time `now`: while running, do the bookkeeping and, once
      the progress reaches one row, either step down or, when the row below
      is blocked, lock. */
  function Update(e: Engine, now: int, d: Draw): (r: Engine)
    requires WellFormed(e.field)
    ensures e.state != Running ==> r == e
  {
    if e.state != Running then e
    else
      var e1 := Tick(e, now);
      if e1.fallProgress >= 1.0 then
        if IsValidPosition(e.field, e.current, 0, 1) then
          e1.(current := Move(e.current, 0, 1), fallProgress := 0.0)
        else Lock(e1.(fallProgress := 0.0), d)
      else e1
  }

  // ---------------------------------------------------------------------------
  // Hold

  /** The piece fits in row 0 at the spawn column shifted by `offset`. */
  predicate FitsAtOffset(f: GameField, b: Block, spawnX: int, offset: int)
    requires WellFormed(f)
  {
    IsValidPosition(f, SetPosition(b, spawnX + offset, 0), 0, 0)
  }

  /** Whether the piece fits at each of the offsets -2 .. 2 tried by the
      adjustment loop of `holdBlock`: entry `i` is offset `i - 2`. */
  function FitTable(f: GameField, b: Block, spawnX: int): (t: seq<bool>)
    requires WellFormed(f)
    ensures |t| == 5
    ensures forall i :: 0 <= i < 5 ==> t[i] == FitsAtOffset(f, b, spawnX, i - 2)
  {
    seq(5, i requires WellFormed(f) => FitsAtOffset(f, b, spawnX, i - 2))
  }

  /** The adjustment loop of `holdBlock` from table entry `i` on: the first
      entry at which the piece fits, if any. */
  function FirstFit(fits: seq<bool>, i: nat): (r: Option<nat>)
    requires i <= |fits|
    ensures r.Some? ==> i <= r.value < |fits| && fits[r.value]
    decreases |fits| - i
  {
    if i == |fits| then None
    else if fits[i] then Some(i)
    else FirstFit(fits, i + 1)
  }

  /** No entry the search passes over fits: the entry found is the first that
      fits, and when none is found no entry from `i` on fits. */
  lemma {:induction false} FirstFitIsFirst(fits: seq<bool>, i: nat)
    requires i <= |fits|
    ensures FirstFit(fits, i).Some? ==> forall j :: i <= j < FirstFit(fits, i).value ==> !fits[j]
    ensures FirstFit(fits, i).None? ==> forall j :: i <= j < |fits| ==> !fits[j]
    decreases |fits| - i
  {
    if i < |fits| && !fits[i] {
      FirstFitIsFirst(fits, i + 1);
    }
  }

  /** The adjustment loop of `holdBlock`: the piece moved along row 0 to the
      first offset that fits, or nothing when no offset fits. */
  function AdjustSwapped(f: GameField, cur: Block, spawnX: int): (r: Option<Block>)
    requires WellFormed(f)
    ensures r.Some? ==> r.value == cur.(pos := (r.value.pos.0, 0)) && IsValidPosition(f, r.value, 0, 0)
  {
    var t := FitTable(f, cur, spawnX);
    match FirstFit(t, 0)
    case Some(i) =>
      var moved := SetPosition(cur, spawnX + (i - 2), 0);
      assert t[i] == FitsAtOffset(f, cur, spawnX, i - 2);
      assert IsValidPosition(f, moved, 0, 0);
      Some(moved)
    case None => None
  }

  /** The adjustment finds a position exactly when some offset fits, and the
      position it finds is at the first offset that fits. */
  lemma AdjustSwappedFirst(f: GameField, cur: Block, spawnX: int)
    requires WellFormed(f)
    ensures AdjustSwapped(f, cur, spawnX).None? <==> forall o :: -2 <= o <= 2 ==> !FitsAtOffset(f, cur, spawnX, o)
    ensures AdjustSwapped(f, cur, spawnX).Some? ==>
      var o := AdjustSwapped(f, cur, spawnX).value.pos.0 - spawnX;
      -2 <= o <= 2 && FitsAtOffset(f, cur, spawnX, o)
      && forall o' :: -2 <= o' < o ==> !FitsAtOffset(f, cur, spawnX, o')
  {
    var t := FitTable(f, cur, spawnX);
    FirstFitIsFirst(t, 0);
    forall o | -2 <= o <= 2
      ensures t[o + 2] == FitsAtOffset(f, cur, spawnX, o)
    {
      assert t[o + 2] == FitsAtOffset(f, cur, spawnX, (o + 2) - 2);
    }
  }

  /** The swap branch of `holdBlock`: the former held piece (rotation reset)
      goes to the spawn column of row 0, or to the first of offsets -2 .. 2
      that fits, and the current piece (rotation reset) is held; if no offset
      fits the game is over and hold stays allowed, otherwise hold is blocked
      and the fall progress reset. */
  function SwapHeld(e: Engine): (r: Engine)
    requires WellFormed(e.field) && e.state == Running
    ensures r.hold == ResetRotation(e.current) && r.field == e.field && r.next == e.next
    ensures r.current.kind == e.hold.kind && r.current.rotation == 0 && r.current.pos.1 == 0
    ensures r.current.shape == e.hold.shape
    ensures r.state == Running || r.state == GameOver
    ensures r.state == Running ==> !r.canHold && r.fallProgress == 0.0
    ensures r.state == Running ==> IsValidPosition(e.field, r.current, 0, 0)
    ensures r.state == GameOver ==> r.canHold == e.canHold && r.fallProgress == e.fallProgress
    ensures r.stats == e.stats && r.fallSpeed == e.fallSpeed
  {
    var spawnX := SpawnColumn(e.field);
    var cur := SetPosition(ResetRotation(e.hold), spawnX, 0);
    var held := ResetRotation(e.current);
    if IsValidPosition(e.field, cur, 0, 0) then
      e.(current := cur, hold := held, canHold := false, fallProgress := 0.0)
    else
      match AdjustSwapped(e.field, cur, spawnX)
      case Some(moved) =>
        e.(current := moved, hold := held, canHold := false, fallProgress := 0.0)
      case None =>
        e.(current := SetPosition(cur, spawnX + 2, 0), hold := held, state := GameOver)
  }

  /** `holdBlock`. Only while running, once per piece, with a valid current
      piece and a hold slot that is empty (the sentinel type) or valid. With an
      empty slot the current piece (rotation reset) is stored and the next piece
      spawns, after which hold is blocked and the fall progress reset;
      otherwise the two swap. */
  function Hold(e: Engine, d: Draw): (r: Engine)
    requires WellFormed(e.field)
    ensures (e.state != Running || !e.canHold || !IsValid(e.current)
             || (e.hold.kind != TypeCount && !IsValid(e.hold))) ==> r == e
    ensures r.field == e.field
  {
    if e.state != Running || !e.canHold || !IsValid(e.current)
       || (e.hold.kind != TypeCount && !IsValid(e.hold)) then e
    else if e.hold.kind == TypeCount then
      var e1 := Spawn(e.(hold := ResetRotation(e.current)), d);
      e1.(canHold := false, fallProgress := 0.0)
    else SwapHeld(e)
  }

  // ---------------------------------------------------------------------------
  // Ghost piece

  /** `calculateGhostPosition`: the current position when not running;
      otherwise the position after the drop distance, with the row clamped to
      the last row of the field. */
  function GhostPosition(e: Engine): (p: Pos)
    requires WellFormed(e.field)
    requires e.state == Running ==> |OccupiedCells(e.current)| > 0
    ensures e.state != Running ==> p == e.current.pos
    ensures e.state == Running ==> p.0 == e.current.pos.0 && p.1 < e.field.height
    ensures e.state == Running && e.current.pos.1 + DropDistance(e.field, e.current) < e.field.height ==>
      p.1 == e.current.pos.1 + DropDistance(e.field, e.current)
    ensures e.state == Running && e.current.pos.1 + DropDistance(e.field, e.current) >= e.field.height ==>
      p.1 == e.field.height - 1
  {
    if e.state != Running then e.current.pos
    else
      var dist := DropDistance(e.field, e.current);
      var y := e.current.pos.1 + dist;
      (e.current.pos.0, if y >= e.field.height then e.field.height - 1 else y)
  }

  /** `getGhostBlock`: the "no piece" block when not running, otherwise the
      current piece moved to the ghost position. The ghost flag is not consulted. */
  function GhostBlock(e: Engine): (b: Block)
    requires WellFormed(e.field)
    requires e.state == Running ==> |OccupiedCells(e.current)| > 0
    ensures e.state != Running ==> b == EmptyBlock()
    ensures e.state == Running ==> b == SetPosition(e.current, GhostPosition(e).0, GhostPosition(e).1)
  {
    if e.state != Running then EmptyBlock()
    else
      var p := GhostPosition(e);
      SetPosition(e.current, p.0, p.1)
  }
}
