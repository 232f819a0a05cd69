/**
 * Bounds-checked lookup, neighbours, direction deltas, the virus test and the
 * search for orphaned pill halves ("widows") over an immutable grid value.
 */
module Grid {
  import opened Wrappers
  import opened GridTypes

  datatype GridError = InvalidDirection(direction: GridDirection)

  /** The four neighbours of a cell, each None when it falls off the grid. */
  datatype GridCellNeighbors = GridCellNeighbors(
    up: MaybeGridObject, down: MaybeGridObject, left: MaybeGridObject, right: MaybeGridObject)

  /** `neighbors[direction]` */
  function NeighborIn(neighbors: GridCellNeighbors, direction: GridDirection): MaybeGridObject {
    match direction
    case Up => neighbors.up
    case Down => neighbors.down
    case Left => neighbors.left
    case Right => neighbors.right
  }

  function Abs(x: int): nat {
    if x < 0 then -x else x
  }

  function GetInRow(row: GameGridRow, colIndex: int): (r: MaybeGridObject)
    ensures r.None? <==> colIndex < 0 || colIndex >= |row|
    ensures r.Some? ==> r.value == row[colIndex]
  {
    if colIndex >= |row| || colIndex < 0 then None else Some(row[colIndex])
  }

  function GetInGrid(grid: GameGrid, location: GridCellLocation): (r: MaybeGridObject)
    ensures r.None? <==> !InBounds(grid, location)
    ensures r.Some? ==> r.value == grid[location.row][location.col]
  {
    var Location(rowIndex, colIndex) := location;
    if rowIndex >= |grid| || rowIndex < 0 then None else GetInRow(grid[rowIndex], colIndex)
  }

  /** True iff some cell of the grid is a virus. */
  function HasViruses(grid: GameGrid): (b: bool)
    ensures b <==> exists r, c :: 0 <= r < |grid| && 0 <= c < |grid[r]| && grid[r][c].Virus?
  {
    !EveryRowVirusFree(grid)
  }

  /** `grid.every(row => row.every(cell => !isVirus(cell)))` */
  function EveryRowVirusFree(grid: GameGrid): (b: bool)
    ensures b <==> forall r, c :: 0 <= r < |grid| && 0 <= c < |grid[r]| ==> !grid[r][c].Virus?
  {
    if grid == [] then true else EveryCellVirusFree(grid[0]) && EveryRowVirusFree(grid[1..])
  }

  function EveryCellVirusFree(row: GameGridRow): (b: bool)
    ensures b <==> forall c :: 0 <= c < |row| ==> !row[c].Virus?
  {
    if row == [] then true else !IsVirus(row[0]) && EveryCellVirusFree(row[1..])
  }

  /** A pill is vertical when its first cell holds a PillTop. */
  function IsPillVertical(grid: GameGrid, pillCells: seq<GridCellLocation>): (b: bool)
    requires |pillCells| > 0
    ensures b <==> InBounds(grid, pillCells[0]) && grid[pillCells[0].row][pillCells[0].col].PillTop?
  {
    IsPillTop(GetInGrid(grid, pillCells[0]))
  }

  function GetCellNeighbors(grid: GameGrid, location: GridCellLocation, distance: int): (n: GridCellNeighbors)
    ensures var (r, c) := (location.row - distance, location.col);
      (n.up.Some? <==> InBounds(grid, Location(r, c))) && (n.up.Some? ==> n.up.value == grid[r][c])
    ensures var (r, c) := (location.row + distance, location.col);
      (n.down.Some? <==> InBounds(grid, Location(r, c))) && (n.down.Some? ==> n.down.value == grid[r][c])
    ensures var (r, c) := (location.row, location.col - distance);
      (n.left.Some? <==> InBounds(grid, Location(r, c))) && (n.left.Some? ==> n.left.value == grid[r][c])
    ensures var (r, c) := (location.row, location.col + distance);
      (n.right.Some? <==> InBounds(grid, Location(r, c))) && (n.right.Some? ==> n.right.value == grid[r][c])
  {
    var Location(rowIndex, colIndex) := location;
    GridCellNeighbors(
      GetInGrid(grid, Location(rowIndex - distance, colIndex)),
      GetInGrid(grid, Location(rowIndex + distance, colIndex)),
      GetInGrid(grid, Location(rowIndex, colIndex - distance)),
      GetInGrid(grid, Location(rowIndex, colIndex + distance)))
  }

  /**
   * The [dRow, dCol] of a move. Only a zero total displacement is refused, so with the four
   * cardinal directions the error arises exactly for distance 0.
   */
  function DeltaRowCol(direction: GridDirection, distance: int): (r: Result<(int, int), GridError>)
    ensures r.Err? <==> distance == 0
    ensures r.Ok? ==> Abs(r.value.0) + Abs(r.value.1) == Abs(distance)
    ensures r.Ok? ==> (r.value.0 == 0 <==> direction == Left || direction == Right)
    ensures r.Ok? ==> (direction == Down ==> r.value.0 == distance) && (direction == Up ==> r.value.0 == -distance)
    ensures r.Ok? ==> (direction == Right ==> r.value.1 == distance) && (direction == Left ==> r.value.1 == -distance)
  {
    var dRow := if direction == Down then distance else if direction == Up then -distance else 0;
    var dCol := if direction == Right then distance else if direction == Left then -distance else 0;
    assert Abs(dRow) + Abs(dCol) == Abs(distance) by {
      if direction == Down || direction == Up { assert dCol == 0; } else { assert dRow == 0; }
    }
    if Abs(dRow) + Abs(dCol) == 0 then Err(InvalidDirection(direction)) else Ok((dRow, dCol))
  }

  /** The neighbour `distance` cells away in `direction` is the cell at the offset DeltaRowCol gives. */
  lemma NeighborAtDelta(grid: GameGrid, location: GridCellLocation, direction: GridDirection, distance: int)
    requires distance != 0
    ensures DeltaRowCol(direction, distance).Ok?
    ensures var (dRow, dCol) := DeltaRowCol(direction, distance).value;
      NeighborIn(GetCellNeighbors(grid, location, distance), direction)
        == GetInGrid(grid, Location(location.row + dRow, location.col + dCol))
  {
  }

  /** True iff the adjacent cell in `direction` exists and is Empty. */
  function CanMoveCell(grid: GameGrid, location: GridCellLocation, direction: GridDirection): (b: bool)
    ensures var (dRow, dCol) := DeltaRowCol(direction, 1).value;
      var target := Location(location.row + dRow, location.col + dCol);
      b <==> InBounds(grid, target) && grid[target.row][target.col] == Empty
  {
    IsEmpty(NeighborIn(GetCellNeighbors(grid, location, 1), direction))
  }

  /**
   * The widow test of the scan: a pill half whose partner-direction neighbour is not
   * the opposite half (colours are not compared).
   */
  predicate IsWidow(grid: GameGrid, rowIndex: int, colIndex: int)
    requires 0 <= rowIndex < |grid| && 0 <= colIndex < |grid[rowIndex]|
  {
    var obj := grid[rowIndex][colIndex];
    var neighbors := GetCellNeighbors(grid, Location(rowIndex, colIndex), 1);
    IsPillHalf(obj) &&
    ((obj.PillLeft? && !IsPillRight(neighbors.right)) ||
     (obj.PillRight? && !IsPillLeft(neighbors.left)) ||
     (obj.PillTop? && !IsPillBottom(neighbors.down)) ||
     (obj.PillBottom? && !IsPillTop(neighbors.up)))
  }

  /** The partner of each half, in direct index terms: off-grid counts as missing. */
  predicate HasPartner(grid: GameGrid, r: int, c: int)
    requires 0 <= r < |grid| && 0 <= c < |grid[r]|
  {
    match grid[r][c]
    case PillLeft(_) => c + 1 < |grid[r]| && grid[r][c + 1].PillRight?
    case PillRight(_) => c > 0 && grid[r][c - 1].PillLeft?
    case PillTop(_) => r + 1 < |grid| && c < |grid[r + 1]| && grid[r + 1][c].PillBottom?
    case PillBottom(_) => r > 0 && c < |grid[r - 1]| && grid[r - 1][c].PillTop?
    case _ => false
  }

  lemma WidowIffPartnerMissing(grid: GameGrid, r: int, c: int)
    requires 0 <= r < |grid| && 0 <= c < |grid[r]|
    ensures IsWidow(grid, r, c) <==> IsPillHalf(grid[r][c]) && !HasPartner(grid, r, c)
  {
  }

  /** Both halves of a properly joined pair are never reported, whatever their colours. */
  lemma JoinedHalvesAreNotWidows(grid: GameGrid, r: int, c: int)
    requires 0 <= r < |grid| && 0 <= c < |grid[r]|
    ensures c + 1 < |grid[r]| && grid[r][c].PillLeft? && grid[r][c + 1].PillRight? ==>
      !IsWidow(grid, r, c) && !IsWidow(grid, r, c + 1)
    ensures r + 1 < |grid| && c < |grid[r + 1]| && grid[r][c].PillTop? && grid[r + 1][c].PillBottom? ==>
      !IsWidow(grid, r, c) && !IsWidow(grid, r + 1, c)
  {
  }

  /** Row-major order on cells. */
  predicate Before(a: GridCellLocation, b: GridCellLocation) {
    a.row < b.row || (a.row == b.row && a.col < b.col)
  }

  /** The widows among the first `n` cells of row `r`, left to right. */
  function RowWidowsUpTo(grid: GameGrid, r: int, n: int): seq<GridCellLocation>
    requires 0 <= r < |grid| && 0 <= n <= |grid[r]|
  {
    if n == 0 then []
    else RowWidowsUpTo(grid, r, n - 1) + (if IsWidow(grid, r, n - 1) then [Location(r, n - 1)] else [])
  }

  /** The widows of rows below `n`, in row-major order. */
  function WidowsUpTo(grid: GameGrid, n: int): seq<GridCellLocation>
    requires 0 <= n <= |grid|
  {
    if n == 0 then [] else WidowsUpTo(grid, n - 1) + RowWidowsUpTo(grid, n - 1, |grid[n - 1]|)
  }

  function Widows(grid: GameGrid): seq<GridCellLocation> {
    WidowsUpTo(grid, |grid|)
  }

  /** Every listed cell of row `r` lies before column `n` and is a widow. */
  predicate RowSound(grid: GameGrid, r: int, n: int, ws: seq<GridCellLocation>)
    requires 0 <= r < |grid| && 0 <= n <= |grid[r]|
  {
    forall k :: 0 <= k < |ws| ==> ws[k].row == r && 0 <= ws[k].col < n && IsWidow(grid, r, ws[k].col)
  }

  /** Every widow of row `r` before column `n` is listed. */
  predicate RowComplete(grid: GameGrid, r: int, n: int, ws: seq<GridCellLocation>)
    requires 0 <= r < |grid| && 0 <= n <= |grid[r]|
  {
    forall c {:trigger IsWidow(grid, r, c)} :: 0 <= c < n && IsWidow(grid, r, c) ==> Location(r, c) in ws
  }

  /** Every listed cell is an in-bounds widow of a row before `n`. */
  predicate GridSound(grid: GameGrid, n: int, ws: seq<GridCellLocation>) {
    forall k :: 0 <= k < |ws| ==>
      InBounds(grid, ws[k]) && ws[k].row < n && IsWidow(grid, ws[k].row, ws[k].col)
  }

  /** Every widow of the rows before `n` is listed. */
  predicate GridComplete(grid: GameGrid, n: int, ws: seq<GridCellLocation>)
    requires 0 <= n <= |grid|
  {
    forall r, c {:trigger IsWidow(grid, r, c)} ::
      0 <= r < n && 0 <= c < |grid[r]| && IsWidow(grid, r, c) ==> Location(r, c) in ws
  }

  predicate RowMajorSorted(ws: seq<GridCellLocation>) {
    forall j, k :: 0 <= j < k < |ws| ==> Before(ws[j], ws[k])
  }

  lemma {:induction false} RowWidowsUpToFacts(grid: GameGrid, r: int, n: int)
    requires 0 <= r < |grid| && 0 <= n <= |grid[r]|
    ensures RowSound(grid, r, n, RowWidowsUpTo(grid, r, n))
    ensures RowComplete(grid, r, n, RowWidowsUpTo(grid, r, n))
    ensures RowMajorSorted(RowWidowsUpTo(grid, r, n))
  {
    if n > 0 {
      RowWidowsUpToFacts(grid, r, n - 1);
      var tail := if IsWidow(grid, r, n - 1) then [Location(r, n - 1)] else [];
      RowAppendCell(grid, r, n, RowWidowsUpTo(grid, r, n - 1), tail);
    }
  }

  /** Scanning one more cell of a row keeps the row's list sound, complete and sorted. */
  lemma RowAppendCell(grid: GameGrid, r: int, n: int, prev: seq<GridCellLocation>, tail: seq<GridCellLocation>)
    requires 0 <= r < |grid| && 0 < n <= |grid[r]|
    requires RowSound(grid, r, n - 1, prev) && RowComplete(grid, r, n - 1, prev) && RowMajorSorted(prev)
    requires tail == if IsWidow(grid, r, n - 1) then [Location(r, n - 1)] else []
    ensures RowSound(grid, r, n, prev + tail)
    ensures RowComplete(grid, r, n, prev + tail)
    ensures RowMajorSorted(prev + tail)
  {
    var ws := prev + tail;
    forall k | 0 <= k < |ws|
      ensures ws[k].row == r && 0 <= ws[k].col < n && IsWidow(grid, r, ws[k].col)
    {
      if k < |prev| {
        assert ws[k] == prev[k];
      }
    }
  }

  lemma {:induction false} WidowsUpToFacts(grid: GameGrid, n: int)
    requires 0 <= n <= |grid|
    ensures GridSound(grid, n, WidowsUpTo(grid, n))
    ensures GridComplete(grid, n, WidowsUpTo(grid, n))
    ensures RowMajorSorted(WidowsUpTo(grid, n))
  {
    if n > 0 {
      WidowsUpToFacts(grid, n - 1);
      RowWidowsUpToFacts(grid, n - 1, |grid[n - 1]|);
      var prev, last := WidowsUpTo(grid, n - 1), RowWidowsUpTo(grid, n - 1, |grid[n - 1]|);
      assert WidowsUpTo(grid, n) == prev + last;
      SoundAppendRow(grid, n, prev, last);
      CompleteAppendRow(grid, n, prev, last);
      SortedAppendRow(n - 1, prev, last);
    }
  }

  /** The sound list of rows before `n - 1`, then a sound list of row `n - 1`, is sound for rows before `n`. */
  lemma SoundAppendRow(grid: GameGrid, n: int, prev: seq<GridCellLocation>, last: seq<GridCellLocation>)
    requires 0 < n <= |grid|
    requires GridSound(grid, n - 1, prev) && RowSound(grid, n - 1, |grid[n - 1]|, last)
    ensures GridSound(grid, n, prev + last)
  {
    var ws := prev + last;
    forall k | 0 <= k < |ws|
      ensures InBounds(grid, ws[k]) && ws[k].row < n && IsWidow(grid, ws[k].row, ws[k].col)
    {
      if k >= |prev| {
        assert ws[k] == last[k - |prev|];
      } else {
        assert ws[k] == prev[k];
      }
    }
  }

  /** A complete list of rows before `n - 1`, then a complete list of row `n - 1`, is complete for rows before `n`. */
  lemma CompleteAppendRow(grid: GameGrid, n: int, prev: seq<GridCellLocation>, last: seq<GridCellLocation>)
    requires 0 < n <= |grid|
    requires GridComplete(grid, n - 1, prev) && RowComplete(grid, n - 1, |grid[n - 1]|, last)
    ensures GridComplete(grid, n, prev + last)
  {
  }

  /** Sorted cells of earlier rows, then sorted cells of row `r`, are sorted. */
  lemma SortedAppendRow(r: int, prev: seq<GridCellLocation>, last: seq<GridCellLocation>)
    requires forall k :: 0 <= k < |prev| ==> prev[k].row < r
    requires forall k :: 0 <= k < |last| ==> last[k].row == r
    requires RowMajorSorted(prev) && RowMajorSorted(last)
    ensures RowMajorSorted(prev + last)
  {
    var ws := prev + last;
    forall j, k | 0 <= j < k < |ws|
      ensures Before(ws[j], ws[k])
    {
      if j >= |prev| {
        assert ws[j] == last[j - |prev|] && ws[k] == last[k - |prev|];
      } else if k >= |prev| {
        assert ws[j] == prev[j] && ws[k] == last[k - |prev|];
      } else {
        assert ws[j] == prev[j] && ws[k] == prev[k];
      }
    }
  }

  /**
   * The widow list holds every widow of the grid, each once, in row-major order, and nothing
   * else. Rows are scanned at their own length, so the grid need not be rectangular.
   */
  lemma WidowsExactly(grid: GameGrid)
    ensures GridSound(grid, |grid|, Widows(grid))
    ensures GridComplete(grid, |grid|, Widows(grid))
    ensures RowMajorSorted(Widows(grid))
  {
    WidowsUpToFacts(grid, |grid|);
  }

  /** The nested scan of the source: one pass per row, collecting that row's widows. */
  method FindWidows(grid: GameGrid) returns (widows: seq<GridCellLocation>)
    ensures widows == Widows(grid)
  {
    widows := [];
    var rowIndex := 0;
    while rowIndex < |grid|
      invariant 0 <= rowIndex <= |grid|
      invariant widows == WidowsUpTo(grid, rowIndex)
    {
      var row := grid[rowIndex];
      var rowWidows: seq<GridCellLocation> := [];
      var colIndex := 0;
      while colIndex < |row|
        invariant 0 <= colIndex <= |row|
        invariant rowWidows == RowWidowsUpTo(grid, rowIndex, colIndex)
      {
        var obj := row[colIndex];
        if IsPillHalf(obj) {
          var cell := Location(rowIndex, colIndex);
          var neighbors := GetCellNeighbors(grid, cell, 1);
          var isWidow :=
            (obj.PillLeft? && !IsPillRight(neighbors.right)) ||
            (obj.PillRight? && !IsPillLeft(neighbors.left)) ||
            (obj.PillTop? && !IsPillBottom(neighbors.down)) ||
            (obj.PillBottom? && !IsPillTop(neighbors.up));
          if isWidow {
            rowWidows := rowWidows + [cell];
          }
        }
        colIndex := colIndex + 1;
      }
      widows := widows + rowWidows;
      rowIndex := rowIndex + 1;
    }
  }
}
