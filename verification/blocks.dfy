/** Piece geometry: the piece type and rotation enumerations, the shape record,
    the clockwise matrix rotation, and the cells a placed piece occupies. */
module Blocks {

  /** Piece type codes in enumeration order: TYPE_I .. TYPE_L are 0 .. 6 and
      TYPE_COUNT (7) is the sentinel that marks "no piece". Codes are plain
      integers so that out-of-range requests can be expressed. */
  const TypeI: int := 0
  const TypeO: int := 1
  const TypeT: int := 2
  const TypeS: int := 3
  const TypeZ: int := 4
  const TypeJ: int := 5
  const TypeL: int := 6
  const TypeCount: int := 7

  /** Number of rotation states ROT_0 .. ROT_270. */
  const RotCount: int := 4

  type Rotation = r: int | 0 <= r < RotCount

  /** A grid position (x, y); y grows downwards and may be negative above the field. */
  type Pos = (int, int)

  /** Display colours, reduced to identifiers. `NoColor` is an unset colour value. */
  datatype Color = NoColor | Black | Cyan | Yellow | Purple | Green | Red | Blue | Orange

  /** Rows of booleans; `p[y][x]` is the cell in row y, column x. */
  type Pattern = seq<seq<bool>>

  datatype Shape = Shape(name: string, pattern: Pattern, color: Color, spawnOffsetX: int, spawnOffsetY: int)

  datatype Block = Block(kind: int, shape: Shape, pos: Pos, rotation: Rotation)

  /** An axis-aligned rectangle with top-left corner (x, y). */
  datatype Rect = Rect(x: int, y: int, width: int, height: int)

  /** True exactly for the seven real piece types. */
  predicate IsValidType(t: int) {
    0 <= t < TypeCount
  }

  predicate IsValid(b: Block) {
    IsValidType(b.kind)
  }

  /** A shape record as its default constructor leaves it: empty name and
      pattern, unset colour, spawn offsets (0, 0). */
  function DefaultShape(): (s: Shape)
    ensures s.spawnOffsetX == 0 && s.spawnOffsetY == 0
    ensures s.pattern == []
  {
    Shape("", [], NoColor, 0, 0)
  }

  /** The all-false N x N pattern. */
  function BlankPattern(n: nat): (p: Pattern)
    ensures |p| == n
    ensures forall y :: 0 <= y < n ==> |p[y]| == n && forall x :: 0 <= x < n ==> !p[y][x]
  {
    seq(n, _ => seq(n, _ => false))
  }

  /** The "no piece" block: sentinel type at (0, 0), rotation 0, 4 x 4 blank pattern. */
  function EmptyBlock(): (b: Block)
    ensures !IsValid(b) && b.kind == TypeCount
    ensures b.pos == (0, 0) && b.rotation == 0
    ensures |b.shape.pattern| == 4
    ensures forall y :: 0 <= y < 4 ==> |b.shape.pattern[y]| == 4 && forall x :: 0 <= x < 4 ==> !b.shape.pattern[y][x]
  {
    Block(TypeCount, Shape("Empty", BlankPattern(4), Black, 0, 0), (0, 0), 0)
  }

  /** A block of the given type and shape, placed at (0, 0) with rotation 0. */
  function NewBlock(kind: int, shape: Shape): (b: Block)
    ensures b.kind == kind && b.shape == shape
    ensures b.pos == (0, 0) && b.rotation == 0
  {
    Block(kind, shape, (0, 0), 0)
  }

  function ColorOf(b: Block): Color {
    b.shape.color
  }

  function NameOf(b: Block): string {
    b.shape.name
  }

  function SetPosition(b: Block, x: int, y: int): Block {
    b.(pos := (x, y))
  }

  function Move(b: Block, dx: int, dy: int): Block {
    b.(pos := (b.pos.0 + dx, b.pos.1 + dy))
  }

  function RotateCW(b: Block): Block {
    b.(rotation := (b.rotation + 1) % RotCount)
  }

  function RotateCCW(b: Block): Block {
    b.(rotation := (b.rotation + RotCount - 1) % RotCount)
  }

  function ResetRotation(b: Block): Block {
    b.(rotation := 0)
  }

  // ---------------------------------------------------------------------------
  // Patterns and rotation

  /** Reads a pattern cell; anything outside the rows or columns reads as false. */
  predicate At(p: Pattern, y: int, x: int) {
    0 <= y < |p| && 0 <= x < |p[y]| && p[y][x]
  }

  /** Every row is as long as the pattern is high. */
  ghost predicate IsSquare(p: Pattern) {
    forall y :: 0 <= y < |p| ==> |p[y]| == |p|
  }

  /** One clockwise quarter turn of an N x N matrix: the cell read at row y,
      column x is written at row x, column N-1-y. */
  function RotateOnce(p: Pattern): (r: Pattern)
    ensures |r| == |p| && IsSquare(r)
    ensures forall y, x :: 0 <= y < |p| && 0 <= x < |p| ==> r[x][|p| - 1 - y] == At(p, y, x)
  {
    var n := |p|;
    seq(n, row => seq(n, col => At(p, n - 1 - col, row)))
  }

  /** The pattern turned clockwise `k` times. */
  function RotatedPattern(p: Pattern, k: nat): (r: Pattern)
    ensures |r| == |p|
    ensures k > 0 ==> IsSquare(r)
  {
    if k == 0 then p else RotateOnce(RotatedPattern(p, k - 1))
  }

  /** The pattern a block shows in its current rotation. */
  function BlockPattern(b: Block): Pattern {
    RotatedPattern(b.shape.pattern, b.rotation)
  }

  lemma RotateOnceAt(p: Pattern, y: int, x: int)
    requires IsSquare(p)
    requires 0 <= y < |p| && 0 <= x < |p|
    ensures RotateOnce(p)[y][x] == p[|p| - 1 - x][y]
  {
  }

  lemma RotateTwiceAt(p: Pattern, y: int, x: int)
    requires IsSquare(p)
    requires 0 <= y < |p| && 0 <= x < |p|
    ensures RotateOnce(RotateOnce(p))[y][x] == p[|p| - 1 - y][|p| - 1 - x]
  {
    var n := |p|;
    RotateOnceAt(RotateOnce(p), y, x);
    RotateOnceAt(p, n - 1 - x, y);
  }

  /** Four quarter turns give back the original square pattern. */
  lemma {:induction false} RotateFourTimes(p: Pattern)
    requires IsSquare(p)
    ensures RotatedPattern(p, 4) == p
  {
    assert RotatedPattern(p, 1) == RotateOnce(p);
    assert RotatedPattern(p, 2) == RotateOnce(RotateOnce(p));
    assert RotatedPattern(p, 3) == RotateOnce(RotateOnce(RotateOnce(p)));
    assert RotatedPattern(p, 4) == RotateOnce(RotateOnce(RotateOnce(RotateOnce(p))));
    TwoHalfTurns(p);
  }

  /** Two half turns of a square pattern cancel cell by cell. */
  lemma TwoHalfTurns(p: Pattern)
    requires IsSquare(p)
    ensures RotateOnce(RotateOnce(RotateOnce(RotateOnce(p)))) == p
  {
    var n := |p|;
    var q := RotateOnce(RotateOnce(p));
    var r := RotateOnce(RotateOnce(q));
    forall y | 0 <= y < n
      ensures r[y] == p[y]
    {
      forall x | 0 <= x < n
        ensures r[y][x] == p[y][x]
      {
        RotateTwiceAt(q, y, x);
        RotateTwiceAt(p, n - 1 - y, n - 1 - x);
      }
    }
  }

  // ---------------------------------------------------------------------------
  // Counting true cells

  /** The number of true entries among the first `k` of a row. */
  function CountRowTo(row: seq<bool>, k: nat): nat
    requires k <= |row|
  {
    if k == 0 then 0 else CountRowTo(row, k - 1) + (if row[k - 1] then 1 else 0)
  }

  function CountRow(row: seq<bool>): nat {
    CountRowTo(row, |row|)
  }

  /** The number of true cells among the first `k` rows. */
  function CountTrueTo(p: Pattern, k: nat): nat
    requires k <= |p|
  {
    if k == 0 then 0 else CountTrueTo(p, k - 1) + CountRow(p[k - 1])
  }

  /** The number of true cells of a pattern. */
  function CountTrue(p: Pattern): nat {
    CountTrueTo(p, |p|)
  }

  /** The true cells among the first `k` rows, as (row, column) pairs. */
  ghost function TrueSetTo(p: Pattern, k: nat): set<(int, int)>
    requires k <= |p|
  {
    set y, x | 0 <= y < k && 0 <= x < |p[y]| && p[y][x] :: (y, x)
  }

  ghost function TrueSet(p: Pattern): set<(int, int)> {
    TrueSetTo(p, |p|)
  }

  ghost function RowSetTo(row: seq<bool>, y: int, k: nat): set<(int, int)>
    requires k <= |row|
  {
    set x | 0 <= x < k && row[x] :: (y, x)
  }

  lemma {:induction false} RowSetSize(row: seq<bool>, y: int, k: nat)
    requires k <= |row|
    ensures |RowSetTo(row, y, k)| == CountRowTo(row, k)
  {
    if k > 0 {
      RowSetSize(row, y, k - 1);
      if row[k - 1] {
        assert RowSetTo(row, y, k) == RowSetTo(row, y, k - 1) + {(y, k - 1)};
      } else {
        assert RowSetTo(row, y, k) == RowSetTo(row, y, k - 1);
      }
    }
  }

  /** `CountTrue` counts the true cells of the pattern. */
  lemma {:induction false} TrueSetSize(p: Pattern, k: nat)
    requires k <= |p|
    ensures |TrueSetTo(p, k)| == CountTrueTo(p, k)
  {
    if k > 0 {
      TrueSetSize(p, k - 1);
      var row := p[k - 1];
      RowSetSize(row, k - 1, |row|);
      TrueSetStep(p, k);
    }
  }

  /** The true cells of the first k rows are those of the first k-1 rows
      plus, disjointly, those of row k-1. */
  lemma TrueSetStep(p: Pattern, k: nat)
    requires 0 < k <= |p|
    ensures TrueSetTo(p, k) == TrueSetTo(p, k - 1) + RowSetTo(p[k - 1], k - 1, |p[k - 1]|)
    ensures TrueSetTo(p, k - 1) * RowSetTo(p[k - 1], k - 1, |p[k - 1]|) == {}
  {
    var a := TrueSetTo(p, k - 1);
    var b := RowSetTo(p[k - 1], k - 1, |p[k - 1]|);
    forall q | q in TrueSetTo(p, k)
      ensures q in a + b
    {
      if q.0 < k - 1 {
        assert q in a;
      } else {
        assert q in b;
      }
    }
    forall q: (int, int) | q in a
      ensures q !in b
    {
      assert q.0 < k - 1;
    }
  }

  function Turn(q: (int, int), n: int): (int, int) {
    (q.1, n - 1 - q.0)
  }

  lemma {:induction false} TurnImageSize(s: set<(int, int)>, n: int)
    ensures |set q | q in s :: Turn(q, n)| == |s|
    decreases |s|
  {
    if s != {} {
      var q :| q in s;
      var rest := s - {q};
      TurnImageSize(rest, n);
      var image := set q' | q' in s :: Turn(q', n);
      var restImage := set q' | q' in rest :: Turn(q', n);
      assert image == restImage + {Turn(q, n)};
      assert Turn(q, n) !in restImage;
    }
  }

  /** A quarter turn keeps the number of true cells of a square pattern. */
  lemma RotateOnceCount(p: Pattern)
    requires IsSquare(p)
    ensures CountTrue(RotateOnce(p)) == CountTrue(p)
  {
    var n := |p|;
    var r := RotateOnce(p);
    assert TrueSet(r) == set q | q in TrueSet(p) :: Turn(q, n) by {
      forall q | q in TrueSet(r)
        ensures q in set q' | q' in TrueSet(p) :: Turn(q', n)
      {
        RotateOnceAt(p, q.0, q.1);
        assert Turn((n - 1 - q.1, q.0), n) == q;
      }
    }
    TurnImageSize(TrueSet(p), n);
    TrueSetSize(p, |p|);
    TrueSetSize(r, |r|);
  }

  /** Rotating any number of times keeps the size and the number of true cells. */
  lemma {:induction false} RotatedPatternCount(p: Pattern, k: nat)
    requires IsSquare(p)
    ensures |RotatedPattern(p, k)| == |p|
    ensures CountTrue(RotatedPattern(p, k)) == CountTrue(p)
  {
    if k > 0 {
      RotatedPatternCount(p, k - 1);
      RotateOnceCount(RotatedPattern(p, k - 1));
    }
  }

  // ---------------------------------------------------------------------------
  // Occupied cells

  /** The cells of the true entries among the first `k` of a row, shown at row
      `y` with column offset `ox`, left to right. */
  function RowCellsTo(row: seq<bool>, ox: int, y: int, k: nat): (r: seq<Pos>)
    requires k <= |row|
    ensures |r| == CountRowTo(row, k)
  {
    if k == 0 then []
    else RowCellsTo(row, ox, y, k - 1) + (if row[k - 1] then [(ox + k - 1, y)] else [])
  }

  /** Every listed cell is a true entry of the row prefix, and every such entry is listed. */
  lemma {:induction false} RowCellsMembers(row: seq<bool>, ox: int, y: int, k: nat)
    requires k <= |row|
    ensures forall c :: c in RowCellsTo(row, ox, y, k) ==> c.1 == y && 0 <= c.0 - ox < k && row[c.0 - ox]
    ensures forall x :: 0 <= x < k && row[x] ==> (ox + x, y) in RowCellsTo(row, ox, y, k)
  {
    if k > 0 {
      RowCellsMembers(row, ox, y, k - 1);
    }
  }

  /** The true cells of the first `k` rows of a pattern offset by (ox, oy), in
      row-major order. */
  function PatternCellsTo(p: Pattern, ox: int, oy: int, k: nat): (r: seq<Pos>)
    requires k <= |p|
    ensures |r| == CountTrueTo(p, k)
  {
    if k == 0 then []
    else PatternCellsTo(p, ox, oy, k - 1) + RowCellsTo(p[k - 1], ox, oy + k - 1, |p[k - 1]|)
  }

  /** Every listed cell is a true entry of the first `k` rows, and every such entry is listed. */
  lemma {:induction false} PatternCellsMembers(p: Pattern, ox: int, oy: int, k: nat)
    requires k <= |p|
    ensures forall c :: c in PatternCellsTo(p, ox, oy, k) ==> c.1 - oy < k && At(p, c.1 - oy, c.0 - ox)
    ensures forall y, x :: y < k && At(p, y, x) ==> (ox + x, oy + y) in PatternCellsTo(p, ox, oy, k)
  {
    if k > 0 {
      PatternCellsMembers(p, ox, oy, k - 1);
      RowCellsMembers(p[k - 1], ox, oy + k - 1, |p[k - 1]|);
    }
  }

  /** `getOccupiedCells`: each true cell of the rotated pattern, at position + (column, row). */
  function OccupiedCells(b: Block): (r: seq<Pos>)
    ensures |r| == CountTrue(BlockPattern(b))
  {
    var p := BlockPattern(b);
    PatternCellsTo(p, b.pos.0, b.pos.1, |p|)
  }

  /** The occupied cells are exactly the true cells of the rotated pattern,
      offset by the block's position. */
  lemma OccupiedCellsMembers(b: Block)
    ensures forall c :: c in OccupiedCells(b) ==> At(BlockPattern(b), c.1 - b.pos.1, c.0 - b.pos.0)
    ensures forall y, x :: At(BlockPattern(b), y, x) ==> (b.pos.0 + x, b.pos.1 + y) in OccupiedCells(b)
  {
    var p := BlockPattern(b);
    PatternCellsMembers(p, b.pos.0, b.pos.1, |p|);
  }

  function Shift(cells: seq<Pos>, dx: int, dy: int): (r: seq<Pos>)
    ensures |r| == |cells|
    ensures forall i :: 0 <= i < |r| ==> r[i] == (cells[i].0 + dx, cells[i].1 + dy)
  {
    seq(|cells|, i requires 0 <= i < |cells| => (cells[i].0 + dx, cells[i].1 + dy))
  }

  lemma {:induction false} RowCellsShift(row: seq<bool>, ox: int, y: int, k: nat, dx: int, dy: int)
    requires k <= |row|
    ensures RowCellsTo(row, ox + dx, y + dy, k) == Shift(RowCellsTo(row, ox, y, k), dx, dy)
  {
    if k > 0 {
      RowCellsShift(row, ox, y, k - 1, dx, dy);
    }
  }

  lemma {:induction false} PatternCellsShift(p: Pattern, ox: int, oy: int, k: nat, dx: int, dy: int)
    requires k <= |p|
    ensures PatternCellsTo(p, ox + dx, oy + dy, k) == Shift(PatternCellsTo(p, ox, oy, k), dx, dy)
  {
    if k > 0 {
      PatternCellsShift(p, ox, oy, k - 1, dx, dy);
      RowCellsShift(p[k - 1], ox, oy + k - 1, |p[k - 1]|, dx, dy);
    }
  }

  /** Moving a block translates each of its cells, in the same order. */
  lemma MoveCells(b: Block, dx: int, dy: int)
    ensures OccupiedCells(Move(b, dx, dy)) == Shift(OccupiedCells(b), dx, dy)
  {
    var p := BlockPattern(b);
    var m := Move(b, dx, dy);
    assert BlockPattern(m) == p;
    assert OccupiedCells(m) == PatternCellsTo(p, b.pos.0 + dx, b.pos.1 + dy, |p|);
    assert OccupiedCells(b) == PatternCellsTo(p, b.pos.0, b.pos.1, |p|);
    PatternCellsShift(p, b.pos.0, b.pos.1, |p|, dx, dy);
  }

  // ---------------------------------------------------------------------------
  // Bounding box

  datatype Extent = Extent(minX: int, maxX: int, minY: int, maxY: int)

  /** The least and greatest coordinates over a non-empty list of cells. */
  function ExtentOf(cells: seq<Pos>): (e: Extent)
    requires |cells| > 0
    ensures forall i :: 0 <= i < |cells| ==>
      e.minX <= cells[i].0 <= e.maxX && e.minY <= cells[i].1 <= e.maxY
    ensures exists i :: 0 <= i < |cells| && cells[i].0 == e.minX
    ensures exists i :: 0 <= i < |cells| && cells[i].0 == e.maxX
    ensures exists i :: 0 <= i < |cells| && cells[i].1 == e.minY
    ensures exists i :: 0 <= i < |cells| && cells[i].1 == e.maxY
  {
    if |cells| == 1 then Extent(cells[0].0, cells[0].0, cells[0].1, cells[0].1)
    else
      var k := |cells| - 1;
      var e := ExtentOf(cells[..k]);
      var c := cells[k];
      var r := Extent(
        if c.0 < e.minX then c.0 else e.minX,
        if c.0 > e.maxX then c.0 else e.maxX,
        if c.1 < e.minY then c.1 else e.minY,
        if c.1 > e.maxY then c.1 else e.maxY);
      assert forall i :: 0 <= i < k ==> cells[..k][i] == cells[i];
      r
  }

  /** `getBoundingBox`: the null rectangle for a block without cells, otherwise
      the smallest rectangle holding every occupied cell. */
  function BoundingBox(b: Block): (r: Rect)
    ensures |OccupiedCells(b)| == 0 ==> r == Rect(0, 0, 0, 0)
    ensures |OccupiedCells(b)| > 0 ==> r.width >= 1 && r.height >= 1
    ensures forall i :: 0 <= i < |OccupiedCells(b)| ==>
      var c := OccupiedCells(b)[i];
      r.x <= c.0 < r.x + r.width && r.y <= c.1 < r.y + r.height
    ensures |OccupiedCells(b)| > 0 ==>
      (exists i :: 0 <= i < |OccupiedCells(b)| && OccupiedCells(b)[i].0 == r.x) &&
      (exists i :: 0 <= i < |OccupiedCells(b)| && OccupiedCells(b)[i].0 == r.x + r.width - 1) &&
      (exists i :: 0 <= i < |OccupiedCells(b)| && OccupiedCells(b)[i].1 == r.y) &&
      (exists i :: 0 <= i < |OccupiedCells(b)| && OccupiedCells(b)[i].1 == r.y + r.height - 1)
  {
    var cells := OccupiedCells(b);
    if |cells| == 0 then Rect(0, 0, 0, 0)
    else
      var e := ExtentOf(cells);
      Rect(e.minX, e.minY, e.maxX - e.minX + 1, e.maxY - e.minY + 1)
  }

  // ---------------------------------------------------------------------------
  // Properties of the block operations

  /** `setPosition` replaces the position and nothing else. */
  lemma SetPositionOnly(b: Block, x: int, y: int)
    ensures SetPosition(b, x, y).pos == (x, y)
    ensures SetPosition(b, x, y) == Block(b.kind, b.shape, (x, y), b.rotation)
  {
  }

  /** `move` translates by exactly (dx, dy); moving back undoes it. */
  lemma MoveTranslates(b: Block, dx: int, dy: int)
    ensures Move(b, dx, dy).pos == (b.pos.0 + dx, b.pos.1 + dy)
    ensures Move(b, dx, dy).kind == b.kind && Move(b, dx, dy).shape == b.shape
    ensures Move(b, dx, dy).rotation == b.rotation
    ensures Move(Move(b, dx, dy), -dx, -dy) == b
  {
  }

  /** Clockwise and counter-clockwise turns undo each other, and four clockwise
      turns restore the block; turning never moves the block or changes its type. */
  lemma RotationInverses(b: Block)
    ensures RotateCCW(RotateCW(b)) == b
    ensures RotateCW(RotateCCW(b)) == b
    ensures RotateCW(RotateCW(RotateCW(RotateCW(b)))) == b
    ensures RotateCW(b).pos == b.pos && RotateCW(b).kind == b.kind && RotateCW(b).shape == b.shape
    ensures RotateCCW(b).pos == b.pos && RotateCCW(b).kind == b.kind && RotateCCW(b).shape == b.shape
  {
  }

  /** Four clockwise turns give back the same occupied cells. */
  lemma RotationClosureCells(b: Block)
    ensures OccupiedCells(RotateCW(RotateCW(RotateCW(RotateCW(b))))) == OccupiedCells(b)
  {
    RotationInverses(b);
  }

  /** `resetRotation` sets rotation 0 and keeps type, shape and position. */
  lemma ResetRotationKeeps(b: Block)
    ensures ResetRotation(b).rotation == 0
    ensures ResetRotation(b).kind == b.kind && ResetRotation(b).shape == b.shape
    ensures ResetRotation(b).pos == b.pos
    ensures ResetRotation(ResetRotation(b)) == ResetRotation(b)
  {
  }

  /** The empty block occupies no cell. */
  lemma EmptyBlockHasNoCells()
    ensures |OccupiedCells(EmptyBlock())| == 0
  {
    var p := BlankPattern(4);
    assert BlockPattern(EmptyBlock()) == p;
    TrueSetSize(p, 4);
    assert TrueSet(p) == {};
  }

  /** A block's number of occupied cells equals the number of true cells of its
      unrotated (square) pattern, whatever its rotation. */
  lemma OccupiedCount(b: Block)
    requires IsSquare(b.shape.pattern)
    ensures |OccupiedCells(b)| == CountTrue(b.shape.pattern)
  {
    RotatedPatternCount(b.shape.pattern, b.rotation);
  }
}
