/** The occupancy grid: cells with an occupied flag and a colour, bounds-checked
    reads and writes, complete-row detection and row removal. */
module Field {
  import opened Blocks
  import opened Sorting

  datatype Cell = Cell(occupied: bool, color: Color)

  type Row = seq<Cell>

  /** The grid is stored row by row: `grid[y][x]` is the cell in column x of row y. */
  datatype GameField = GameField(width: nat, height: nat, grid: seq<Row>)

  const DefaultWidth: nat := 10
  const DefaultHeight: nat := 20

  /** A default-constructed cell: unoccupied and black. */
  function EmptyCell(): (c: Cell)
    ensures !c.occupied && c.color == Black
  {
    Cell(false, Black)
  }

  function EmptyRow(w: nat): (r: Row)
    ensures |r| == w && forall x :: 0 <= x < w ==> r[x] == EmptyCell()
  {
    seq(w, _ => EmptyCell())
  }

  /** The grid has `height` rows of `width` cells each. */
  ghost predicate WellFormed(f: GameField) {
    |f.grid| == f.height && forall y :: 0 <= y < |f.grid| ==> |f.grid[y]| == f.width
  }

  ghost predicate RowEmpty(row: Row) {
    forall x :: 0 <= x < |row| ==> !row[x].occupied
  }

  ghost predicate AllEmpty(f: GameField) {
    forall y :: 0 <= y < |f.grid| ==> RowEmpty(f.grid[y])
  }

  /** The constructor: a height x width grid of default cells. */
  function NewField(width: nat, height: nat): (f: GameField)
    ensures WellFormed(f) && f.width == width && f.height == height
    ensures forall y, x :: 0 <= y < height && 0 <= x < width ==> f.grid[y][x] == EmptyCell()
    ensures AllEmpty(f)
  {
    GameField(width, height, seq(height, _ => EmptyRow(width)))
  }

  predicate InBounds(f: GameField, x: int, y: int) {
    0 <= x < f.width && 0 <= y < f.height
  }

  /** `getBounds`: the rectangle at the origin spanning the field. */
  function Bounds(f: GameField): (r: Rect)
    ensures forall x, y :: InBounds(f, x, y) <==> r.x <= x < r.x + r.width && r.y <= y < r.y + r.height
  {
    Rect(0, 0, f.width, f.height)
  }

  /** `isCellEmpty`: cells outside the field count as occupied. */
  function IsCellEmpty(f: GameField, x: int, y: int): (r: bool)
    requires WellFormed(f)
    ensures !InBounds(f, x, y) ==> !r
    ensures InBounds(f, x, y) ==> (r <==> !f.grid[y][x].occupied)
  {
    if x < 0 || x >= f.width || y < 0 || y >= f.height then false
    else !f.grid[y][x].occupied
  }

  /** `getCellColor`: black outside the field. */
  function CellColor(f: GameField, x: int, y: int): (c: Color)
    requires WellFormed(f)
    ensures !InBounds(f, x, y) ==> c == Black
    ensures InBounds(f, x, y) ==> c == f.grid[y][x].color
  {
    if x < 0 || x >= f.width || y < 0 || y >= f.height then Black
    else f.grid[y][x].color
  }

  /** Replaces the cell at an in-bounds (x, y); anything else leaves the field as it is. */
  function PutCell(f: GameField, x: int, y: int, c: Cell): (r: GameField)
    requires WellFormed(f)
    ensures WellFormed(r) && r.width == f.width && r.height == f.height
    ensures forall y', x' :: InBounds(f, x', y') ==>
      r.grid[y'][x'] == if InBounds(f, x, y) && x' == x && y' == y then c else f.grid[y'][x']
  {
    if x >= 0 && x < f.width && y >= 0 && y < f.height then
      f.(grid := f.grid[y := f.grid[y][x := c]])
    else f
  }

  /** `setCell`: marks an in-bounds cell occupied with the given colour. */
  function SetCell(f: GameField, x: int, y: int, color: Color): (r: GameField)
    requires WellFormed(f)
    ensures WellFormed(r) && r.width == f.width && r.height == f.height
    ensures InBounds(f, x, y) ==> r.grid[y][x] == Cell(true, color)
    ensures forall y', x' :: InBounds(f, x', y') && (x', y') != (x, y) ==> r.grid[y'][x'] == f.grid[y'][x']
    ensures !InBounds(f, x, y) ==> r == f
  {
    PutCell(f, x, y, Cell(true, color))
  }

  /** `clearCell`: resets an in-bounds cell to the default cell. */
  function ClearCell(f: GameField, x: int, y: int): (r: GameField)
    requires WellFormed(f)
    ensures WellFormed(r) && r.width == f.width && r.height == f.height
    ensures InBounds(f, x, y) ==> r.grid[y][x] == EmptyCell()
    ensures forall y', x' :: InBounds(f, x', y') && (x', y') != (x, y) ==> r.grid[y'][x'] == f.grid[y'][x']
    ensures !InBounds(f, x, y) ==> r == f
  {
    PutCell(f, x, y, EmptyCell())
  }

  /** After `setCell`, emptiness changes at the written cell only. */
  lemma SetCellEmptiness(f: GameField, x: int, y: int, color: Color, x': int, y': int)
    requires WellFormed(f)
    ensures IsCellEmpty(SetCell(f, x, y, color), x', y') ==
      if InBounds(f, x, y) && (x', y') == (x, y) then false else IsCellEmpty(f, x', y')
  {
  }

  /** Clearing a cell undoes setting it when the cell was empty before. */
  lemma ClearUndoesSet(f: GameField, x: int, y: int, color: Color)
    requires WellFormed(f)
    requires InBounds(f, x, y) ==> f.grid[y][x] == EmptyCell()
    ensures ClearCell(SetCell(f, x, y, color), x, y) == f
  {
    if InBounds(f, x, y) {
      var r := ClearCell(SetCell(f, x, y, color), x, y);
      assert forall y' :: 0 <= y' < f.height ==> r.grid[y'] == f.grid[y'];
    }
  }

  /** `clearField`: every cell back to the default cell, dimensions unchanged. */
  function ClearField(f: GameField): (r: GameField)
    requires WellFormed(f)
    ensures WellFormed(r) && r.width == f.width && r.height == f.height
    ensures forall y, x :: 0 <= y < r.height && 0 <= x < r.width ==> r.grid[y][x] == EmptyCell()
    ensures AllEmpty(r)
  {
    NewField(f.width, f.height)
  }

  // ---------------------------------------------------------------------------
  // Complete rows

  /** Scans columns x .. |row|-1 for an unoccupied cell, left to right. */
  function RowFullFrom(row: Row, x: nat): (r: bool)
    requires x <= |row|
    ensures r <==> forall i :: x <= i < |row| ==> row[i].occupied
    decreases |row| - x
  {
    if x == |row| then true
    else if !row[x].occupied then false
    else RowFullFrom(row, x + 1)
  }

  ghost predicate RowFull(row: Row) {
    forall i :: 0 <= i < |row| ==> row[i].occupied
  }

  /** `isLineComplete`: false outside 0 .. height-1, otherwise whether every
      column of the row is occupied. */
  function IsLineComplete(f: GameField, y: int): (r: bool)
    requires WellFormed(f)
    ensures r <==> 0 <= y < f.height && RowFull(f.grid[y])
  {
    if y < 0 || y >= f.height then false
    else RowFullFrom(f.grid[y], 0)
  }

  /** The complete rows among rows 0 .. k-1, in ascending order. */
  function CompleteLinesTo(f: GameField, k: nat): (r: seq<int>)
    requires WellFormed(f) && k <= f.height
    ensures StrictlyAscending(r) && |r| <= k
    ensures forall i :: 0 <= i < |r| ==> 0 <= r[i] < k
    ensures forall y :: y in r <==> 0 <= y < k && IsLineComplete(f, y)
  {
    if k == 0 then []
    else
      var front := CompleteLinesTo(f, k - 1);
      if IsLineComplete(f, k - 1) then front + [k - 1] else front
  }

  /** `findCompleteLines`: exactly the complete rows, strictly ascending. */
  function FindCompleteLines(f: GameField): (r: seq<int>)
    requires WellFormed(f)
    ensures StrictlyAscending(r) && |r| <= f.height
    ensures forall i :: 0 <= i < |r| ==> 0 <= r[i] < f.height
    ensures forall y :: y in r <==> IsLineComplete(f, y)
  {
    CompleteLinesTo(f, f.height)
  }

  // ---------------------------------------------------------------------------
  // Row removal

  /** The copy loop of `removeLine`: for row = k down to 1, row k takes the
      contents of row k-1. Row 0 and the rows below k are not written. */
  function ShiftRowsDown(g: seq<Row>, k: nat): (r: seq<Row>)
    requires k < |g|
    ensures |r| == |g|
    ensures r[0] == g[0]
    ensures forall i :: 1 <= i <= k ==> r[i] == g[i - 1]
    ensures forall i :: k < i < |g| ==> r[i] == g[i]
    decreases k
  {
    if k == 0 then g else ShiftRowsDown(g[k := g[k - 1]], k - 1)
  }

  /** `removeLine`: rows 0 .. y-1 move down one, row 0 becomes empty, rows below
      y are untouched; an out-of-range y changes nothing. */
  function RemoveLine(f: GameField, y: int): (r: GameField)
    requires WellFormed(f)
    ensures WellFormed(r) && r.width == f.width && r.height == f.height
    ensures !(0 <= y < f.height) ==> r == f
    ensures 0 <= y < f.height ==> r.grid[0] == EmptyRow(f.width)
    ensures 0 <= y < f.height ==> forall i :: 1 <= i <= y ==> r.grid[i] == f.grid[i - 1]
    ensures forall i :: 0 <= i < f.height && y < i ==> r.grid[i] == f.grid[i]
  {
    if y < 0 || y >= f.height then f
    else f.(grid := ShiftRowsDown(f.grid, y)[0 := EmptyRow(f.width)])
  }

  /** The grid after removing row y: an empty row, then the rows above y, then
      the rows below y. */
  lemma RemoveLineGrid(f: GameField, y: int)
    requires WellFormed(f) && 0 <= y < f.height
    ensures RemoveLine(f, y).grid == [EmptyRow(f.width)] + f.grid[..y] + f.grid[y + 1..]
  {
    var r := RemoveLine(f, y).grid;
    var s := [EmptyRow(f.width)] + f.grid[..y] + f.grid[y + 1..];
    assert |r| == |s|;
    forall i | 0 <= i < |r|
      ensures r[i] == s[i]
    {
      if i == 0 {
      } else if i <= y {
        assert s[i] == f.grid[..y][i - 1];
      } else {
        assert s[i] == f.grid[y + 1..][i - y - 1];
      }
    }
  }

  /** Removes the given rows one after another, in the order given. */
  function RemoveEach(f: GameField, ys: seq<int>): (r: GameField)
    requires WellFormed(f)
    ensures WellFormed(r) && r.width == f.width && r.height == f.height
    decreases |ys|
  {
    if |ys| == 0 then f else RemoveEach(RemoveLine(f, ys[0]), ys[1..])
  }

  /** `removeLines`: sort the requested rows ascending, drop repetitions, then
      remove them one by one. */
  function RemoveLines(f: GameField, lines: seq<int>): (r: GameField)
    requires WellFormed(f)
    ensures WellFormed(r) && r.width == f.width && r.height == f.height
    ensures |lines| == 0 ==> r == f
  {
    if |lines| == 0 then f else RemoveEach(f, SortedUnique(lines))
  }

  /** `removeAllCompleteLines`: removes every complete row and reports how many there were. */
  function RemoveAllCompleteLines(f: GameField): (r: (nat, GameField))
    requires WellFormed(f)
    ensures WellFormed(r.1) && r.1.width == f.width && r.1.height == f.height
    ensures r.0 == |FindCompleteLines(f)|
  {
    var lines := FindCompleteLines(f);
    if |lines| > 0 then (|lines|, RemoveLines(f, lines)) else (0, f)
  }

  // ---------------------------------------------------------------------------
  // Occupied-cell counts

  function CountOccupiedTo(row: Row, k: nat): nat
    requires k <= |row|
  {
    if k == 0 then 0 else CountOccupiedTo(row, k - 1) + (if row[k - 1].occupied then 1 else 0)
  }

  function CountOccupied(row: Row): nat {
    CountOccupiedTo(row, |row|)
  }

  /** The number of occupied cells in a list of rows. */
  function CountRows(g: seq<Row>): nat {
    if |g| == 0 then 0 else CountRows(g[..|g| - 1]) + CountOccupied(g[|g| - 1])
  }

  /** The number of occupied cells of the field. */
  function Occupied(f: GameField): nat {
    CountRows(f.grid)
  }

  lemma {:induction false} CountOccupiedToFull(row: Row, k: nat)
    requires k <= |row| && RowFull(row)
    ensures CountOccupiedTo(row, k) == k
  {
    if k > 0 {
      CountOccupiedToFull(row, k - 1);
    }
  }

  lemma {:induction false} CountOccupiedToEmpty(row: Row, k: nat)
    requires k <= |row| && RowEmpty(row)
    ensures CountOccupiedTo(row, k) == 0
  {
    if k > 0 {
      CountOccupiedToEmpty(row, k - 1);
    }
  }

  lemma {:induction false} CountRowsAppend(a: seq<Row>, b: seq<Row>)
    ensures CountRows(a + b) == CountRows(a) + CountRows(b)
    decreases |b|
  {
    if |b| > 0 {
      var k := |b| - 1;
      assert (a + b)[..|a + b| - 1] == a + b[..k];
      CountRowsAppend(a, b[..k]);
    } else {
      assert a + b == a;
    }
  }

  lemma CountRowsSingle(row: Row)
    ensures CountRows([row]) == CountOccupied(row)
  {
    assert [row][..0] == [];
  }

  /** Removing one complete row lowers the occupied count by exactly the width. */
  lemma RemoveCompleteLineCount(f: GameField, y: int)
    requires WellFormed(f) && IsLineComplete(f, y)
    ensures Occupied(RemoveLine(f, y)) + f.width == Occupied(f)
  {
    var g := f.grid;
    RemoveLineGrid(f, y);
    assert g == g[..y] + [g[y]] + g[y + 1..];
    CountRowsAppend(g[..y] + [g[y]], g[y + 1..]);
    CountRowsAppend(g[..y], [g[y]]);
    CountRowsSingle(g[y]);
    CountOccupiedToFull(g[y], f.width);
    var e := EmptyRow(f.width);
    CountRowsAppend([e] + g[..y], g[y + 1..]);
    CountRowsAppend([e], g[..y]);
    CountRowsSingle(e);
    CountOccupiedToEmpty(e, f.width);
  }

  lemma RemoveLineKeepsLower(f: GameField, y: int, z: int)
    requires WellFormed(f) && y < z
    ensures IsLineComplete(RemoveLine(f, y), z) == IsLineComplete(f, z)
  {
  }

  /** Removing k distinct complete rows, in ascending order, lowers the occupied
      count by k times the width. */
  lemma {:induction false} RemoveEachCount(f: GameField, ys: seq<int>)
    requires WellFormed(f) && StrictlyAscending(ys)
    requires forall i :: 0 <= i < |ys| ==> IsLineComplete(f, ys[i])
    ensures Occupied(RemoveEach(f, ys)) + |ys| * f.width == Occupied(f)
    decreases |ys|
  {
    if |ys| > 0 {
      var f1 := RemoveLine(f, ys[0]);
      RemoveCompleteLineCount(f, ys[0]);
      RestStillComplete(f, ys);
      RemoveEachCount(f1, ys[1..]);
      MulSucc(|ys[1..]|, f.width);
    }
  }

  /** The rows still to be removed are below the one just removed, so they are
      still complete. */
  lemma RestStillComplete(f: GameField, ys: seq<int>)
    requires WellFormed(f) && StrictlyAscending(ys) && |ys| > 0
    requires forall i :: 0 <= i < |ys| ==> IsLineComplete(f, ys[i])
    ensures StrictlyAscending(ys[1..])
    ensures forall i :: 0 <= i < |ys[1..]| ==> IsLineComplete(RemoveLine(f, ys[0]), ys[1..][i])
  {
    forall i | 0 <= i < |ys[1..]|
      ensures IsLineComplete(RemoveLine(f, ys[0]), ys[1..][i])
    {
      assert ys[1..][i] == ys[i + 1] > ys[0];
      RemoveLineKeepsLower(f, ys[0], ys[1..][i]);
    }
  }

  lemma MulSucc(n: nat, w: nat)
    ensures (n + 1) * w == n * w + w
  {
  }

  // ---------------------------------------------------------------------------
  // The shape of the grid after removing rows

  /** The rows among the first k whose index is not in `ys`, in order. */
  function KeepTo(g: seq<Row>, ys: seq<int>, k: nat): (r: seq<Row>)
    requires k <= |g|
    ensures |r| <= k
  {
    if k == 0 then [] else KeepTo(g, ys, k - 1) + (if k - 1 in ys then [] else [g[k - 1]])
  }

  function Blank(w: nat, k: nat): (r: seq<Row>)
    ensures |r| == k && forall i :: 0 <= i < k ==> r[i] == EmptyRow(w)
  {
    seq(k, _ => EmptyRow(w))
  }

  lemma {:induction false} KeepPrefix(g: seq<Row>, ys: seq<int>, k: nat)
    requires k <= |g|
    requires forall y :: y in ys ==> y >= k || y < 0
    ensures KeepTo(g, ys, k) == g[..k]
  {
    if k > 0 {
      KeepPrefix(g, ys, k - 1);
      assert g[..k] == g[..k - 1] + [g[k - 1]];
    }
  }

  /** Every kept row is a row of the original whose index is not in `ys`. */
  lemma {:induction false} KeepMembers(g: seq<Row>, ys: seq<int>, k: nat)
    requires k <= |g|
    ensures forall r :: r in KeepTo(g, ys, k) ==> exists i :: 0 <= i < k && i !in ys && r == g[i]
  {
    if k > 0 {
      KeepMembers(g, ys, k - 1);
    }
  }

  /** After removing row y, keeping the rows of `rest` (all below y) from the new
      grid gives an empty row followed by the rows of the old grid kept for
      `[y] + rest`. */
  lemma {:induction false} KeepAfterRemove(g: seq<Row>, w: nat, y: nat, rest: seq<int>, k: nat)
    requires y < |g| && y + 1 <= k <= |g|
    requires forall z :: z in rest ==> z > y
    ensures KeepTo([EmptyRow(w)] + g[..y] + g[y + 1..], rest, k) == [EmptyRow(w)] + KeepTo(g, [y] + rest, k)
  {
    var g' := [EmptyRow(w)] + g[..y] + g[y + 1..];
    if k == y + 1 {
      KeepPrefix(g', rest, k);
      assert g'[..k] == [EmptyRow(w)] + g[..y];
      KeepPrefix(g, [y] + rest, y);
      assert KeepTo(g, [y] + rest, k) == KeepTo(g, [y] + rest, y);
    } else {
      KeepAfterRemove(g, w, y, rest, k - 1);
      assert g'[k - 1] == g[k - 1];
      assert (k - 1 in rest) <==> (k - 1 in [y] + rest);
    }
  }

  /** Removing strictly ascending in-range rows one by one leaves as many empty
      rows on top, followed by the remaining rows in their original order. */
  lemma {:induction false} RemoveEachShape(f: GameField, ys: seq<int>)
    requires WellFormed(f) && StrictlyAscending(ys)
    requires forall i :: 0 <= i < |ys| ==> 0 <= ys[i] < f.height
    ensures RemoveEach(f, ys).grid == Blank(f.width, |ys|) + KeepTo(f.grid, ys, f.height)
    decreases |ys|
  {
    if |ys| == 0 {
      KeepPrefix(f.grid, ys, f.height);
      assert f.grid[..f.height] == f.grid;
    } else {
      var w, h := f.width, f.height;
      var y, rest := ys[0], ys[1..];
      var f1 := RemoveLine(f, y);
      TailAbove(ys, h);
      RemoveLineGrid(f, y);
      assert [y] + rest == ys;
      calc {
        RemoveEach(f, ys).grid;
        RemoveEach(f1, rest).grid;
        { RemoveEachShape(f1, rest); }
        Blank(w, |rest|) + KeepTo(f1.grid, rest, h);
        { KeepAfterRemove(f.grid, w, y, rest, h); }
        Blank(w, |rest|) + ([EmptyRow(w)] + KeepTo(f.grid, ys, h));
        (Blank(w, |rest|) + [EmptyRow(w)]) + KeepTo(f.grid, ys, h);
        { BlankSucc(w, |rest|); }
        Blank(w, |ys|) + KeepTo(f.grid, ys, h);
      }
    }
  }

  lemma TailAbove(ys: seq<int>, h: int)
    requires StrictlyAscending(ys) && |ys| > 0
    requires forall i :: 0 <= i < |ys| ==> 0 <= ys[i] < h
    ensures StrictlyAscending(ys[1..])
    ensures forall i :: 0 <= i < |ys[1..]| ==> 0 <= ys[1..][i] < h
    ensures forall z :: z in ys[1..] ==> z > ys[0]
  {
  }

  lemma BlankSucc(w: nat, n: nat)
    ensures Blank(w, n) + [EmptyRow(w)] == Blank(w, n + 1)
  {
  }

  /** `removeLines` depends only on which rows are requested: order and
      repetitions in the request do not matter. */
  lemma RemoveLinesOrderFree(f: GameField, a: seq<int>, b: seq<int>)
    requires WellFormed(f)
    requires forall x :: x in a <==> x in b
    ensures RemoveLines(f, a) == RemoveLines(f, b)
  {
    SameMembersEmpty(a, b);
    if |a| > 0 {
      SortedUniqueCanonical(a, b);
    }
  }

  /** With at least one complete row, `removeAllCompleteLines` is the
      row-by-row removal of exactly the complete rows in ascending order. */
  lemma RemoveAllIsRemoveEach(f: GameField)
    requires WellFormed(f) && |FindCompleteLines(f)| > 0
    ensures RemoveAllCompleteLines(f).1 == RemoveEach(f, FindCompleteLines(f))
  {
    SortedUniqueFixed(FindCompleteLines(f));
  }

  /** Removing every complete row lowers the occupied count by the width times
      the number of rows removed. */
  lemma RemoveAllCount(f: GameField)
    requires WellFormed(f)
    ensures Occupied(RemoveAllCompleteLines(f).1) + RemoveAllCompleteLines(f).0 * f.width == Occupied(f)
  {
    var lines := FindCompleteLines(f);
    if |lines| > 0 {
      RemoveAllIsRemoveEach(f);
      RemoveEachCount(f, lines);
    }
  }

  /** After removing every complete row, the top rows (as many as were removed)
      are empty and the rest are the incomplete rows of the original, in order. */
  lemma RemoveAllShape(f: GameField)
    requires WellFormed(f)
    ensures RemoveAllCompleteLines(f).1.grid ==
      Blank(f.width, RemoveAllCompleteLines(f).0) + KeepTo(f.grid, FindCompleteLines(f), f.height)
  {
    var lines := FindCompleteLines(f);
    if |lines| > 0 {
      RemoveAllIsRemoveEach(f);
      RemoveEachShape(f, lines);
    } else {
      RemoveEachShape(f, lines);
    }
  }

  /** In a field at least one column wide, no complete row survives
      `removeAllCompleteLines`. */
  lemma RemoveAllLeavesNoComplete(f: GameField, y: int)
    requires WellFormed(f) && f.width >= 1
    ensures !IsLineComplete(RemoveAllCompleteLines(f).1, y)
  {
    var (n, r) := RemoveAllCompleteLines(f);
    var lines := FindCompleteLines(f);
    var kept := KeepTo(f.grid, lines, f.height);
    RemoveAllShape(f);
    if 0 <= y < f.height {
      if y < n {
        assert r.grid[y] == EmptyRow(f.width);
        assert !r.grid[y][0].occupied;
      } else {
        KeptIncomplete(f);
        AppendIndex(Blank(f.width, n), kept, y);
        assert kept[y - n] in kept;
      }
    }
  }

  lemma AppendIndex(a: seq<Row>, b: seq<Row>, i: int)
    requires |a| <= i < |a| + |b|
    ensures (a + b)[i] == b[i - |a|]
  {
  }

  /** None of the rows kept by `removeAllCompleteLines` is full. */
  lemma KeptIncomplete(f: GameField)
    requires WellFormed(f)
    ensures forall row :: row in KeepTo(f.grid, FindCompleteLines(f), f.height) ==> !RowFull(row)
  {
    var lines := FindCompleteLines(f);
    KeepMembers(f.grid, lines, f.height);
    forall row | row in KeepTo(f.grid, lines, f.height)
      ensures !RowFull(row)
    {
      var i :| 0 <= i < f.height && i !in lines && row == f.grid[i];
      assert !IsLineComplete(f, i);
    }
  }
}
