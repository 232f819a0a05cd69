/**
 * Same-colour line detection: the scan of one row or column (findLinesIn) and the
 * whole-grid search over rows then columns (findLines).
 */
module GridLines {
  import opened Wrappers
  import opened GridTypes

  function ColorAt(row: GameGridRow, k: int): Option<Color>
    requires 0 <= k < |row|
  {
    ColorOf(row[k])
  }

  /** The first index of the stretch of equal colour (or of colourlessness) that ends at `k`. */
  function RunStart(row: GameGridRow, k: int): (s: int)
    requires 0 <= k < |row|
    ensures 0 <= s <= k
    ensures forall j :: s <= j <= k ==> ColorAt(row, j) == ColorAt(row, k)
    ensures s == 0 || ColorAt(row, s - 1) != ColorAt(row, k)
    decreases k
  {
    if k > 0 && ColorAt(row, k - 1) == ColorAt(row, k) then RunStart(row, k - 1) else k
  }

  /** Reaching index `e`, the scan closes its current line: at a colour change or at the end. */
  predicate IsBoundary(row: GameGridRow, e: int)
    requires 0 < e <= |row|
  {
    e == |row| || ColorAt(row, e) != ColorAt(row, e - 1)
  }

  function Range(s: int, e: int): (r: seq<int>)
    requires s <= e
    ensures |r| == e - s
    ensures forall k :: 0 <= k < |r| ==> r[k] == s + k
  {
    seq(e - s, k => s + k)
  }

  /** The indices gathered since the last colour change when the scan reaches `e`. */
  function Segment(row: GameGridRow, e: int): seq<int>
    requires 0 < e <= |row|
  {
    if ColorAt(row, e - 1).Some? then Range(RunStart(row, e - 1), e) else []
  }

  /** The lines closed at the boundaries 1..i, in scan order. */
  function LinesBefore(row: GameGridRow, lineLength: int, i: int): seq<seq<int>>
    requires 0 <= i <= |row|
  {
    if i == 0 then []
    else
      var closed := if IsBoundary(row, i) && |Segment(row, i)| >= lineLength then [Segment(row, i)] else [];
      LinesBefore(row, lineLength, i - 1) + closed
  }

  /** Specification of findLinesIn: every closed line of length at least `lineLength`. */
  function Lines(row: GameGridRow, lineLength: int): seq<seq<int>> {
    LinesBefore(row, lineLength, |row|)
  }

  /** [s, e) is a maximal stretch of one defined colour. */
  predicate MaximalRun(row: GameGridRow, s: int, e: int) {
    0 <= s < e <= |row| && ColorAt(row, s).Some? &&
    (forall k :: s <= k < e ==> ColorAt(row, k) == ColorAt(row, s)) &&
    (s == 0 || ColorAt(row, s - 1) != ColorAt(row, s)) &&
    (e == |row| || ColorAt(row, e) != ColorAt(row, s))
  }

  function End(line: seq<int>): int
    requires |line| > 0
  {
    line[0] + |line|
  }

  /** A line as findLinesIn reports it: the consecutive indices of a maximal run, long enough. */
  predicate IsRunLine(row: GameGridRow, lineLength: int, line: seq<int>) {
    |line| > 0 && |line| >= lineLength && line == Range(line[0], End(line)) &&
    MaximalRun(row, line[0], End(line))
  }

  predicate Ascending(lines: seq<seq<int>>) {
    forall j, k :: 0 <= j < k < |lines| && |lines[j]| > 0 && |lines[k]| > 0 ==> End(lines[j]) <= lines[k][0]
  }

  /** How the segment grows by one cell: kept on an equal colour, restarted otherwise. */
  lemma SegmentStep(row: GameGridRow, k: int)
    requires 0 <= k < |row|
    ensures Segment(row, k + 1) ==
      (if k > 0 && ColorAt(row, k) == ColorAt(row, k - 1) then Segment(row, k) else []) +
      (if ColorAt(row, k).Some? then [k] else [])
  {
    if ColorAt(row, k).Some? {
      if k > 0 && ColorAt(row, k) == ColorAt(row, k - 1) {
        assert RunStart(row, k) == RunStart(row, k - 1);
        assert Range(RunStart(row, k), k + 1) == Range(RunStart(row, k - 1), k) + [k];
      } else {
        assert RunStart(row, k) == k;
      }
    }
  }

  /** A stretch cannot reach back across a colour change. */
  lemma {:induction false} RunStartAfterBoundary(row: GameGridRow, b: int, k: int)
    requires 0 < b <= k < |row| && IsBoundary(row, b)
    ensures RunStart(row, k) >= b
    decreases k
  {
    if k > b && ColorAt(row, k - 1) == ColorAt(row, k) {
      RunStartAfterBoundary(row, b, k - 1);
    }
  }

  /** A maximal run is exactly the stretch that ends at its last cell. */
  lemma MaximalRunStart(row: GameGridRow, s: int, e: int)
    requires MaximalRun(row, s, e)
    ensures RunStart(row, e - 1) == s
  {
    assert ColorAt(row, e - 1) == ColorAt(row, s);
  }

  /** A coloured segment closed at a boundary is a maximal run. */
  lemma SegmentIsMaximalRun(row: GameGridRow, e: int)
    requires 0 < e <= |row| && IsBoundary(row, e) && ColorAt(row, e - 1).Some?
    ensures MaximalRun(row, RunStart(row, e - 1), e)
  {
    var s := RunStart(row, e - 1);
    assert ColorAt(row, s) == ColorAt(row, e - 1);
  }

  predicate AllRunLines(row: GameGridRow, lineLength: int, lines: seq<seq<int>>) {
    forall j :: 0 <= j < |lines| ==> IsRunLine(row, lineLength, lines[j])
  }

  predicate EndBy(lines: seq<seq<int>>, i: int) {
    forall j :: 0 <= j < |lines| && |lines[j]| > 0 ==> End(lines[j]) <= i
  }

  /** The line the scan closes at boundary `i`, when it is long enough. */
  lemma ClosedLineIsRunLine(row: GameGridRow, lineLength: int, i: int)
    requires lineLength >= 1 && 0 < i <= |row| && IsBoundary(row, i) && |Segment(row, i)| >= lineLength
    ensures IsRunLine(row, lineLength, Segment(row, i))
    ensures Segment(row, i)[0] == RunStart(row, i - 1) && End(Segment(row, i)) == i
  {
    assert ColorAt(row, i - 1).Some?;
    SegmentIsMaximalRun(row, i);
  }

  lemma {:induction false} LinesBeforeRunLines(row: GameGridRow, lineLength: int, i: int)
    requires lineLength >= 1 && 0 <= i <= |row|
    ensures AllRunLines(row, lineLength, LinesBefore(row, lineLength, i))
    ensures EndBy(LinesBefore(row, lineLength, i), i)
  {
    if i > 0 {
      LinesBeforeRunLines(row, lineLength, i - 1);
      var prev := LinesBefore(row, lineLength, i - 1);
      if IsBoundary(row, i) && |Segment(row, i)| >= lineLength {
        ClosedLineIsRunLine(row, lineLength, i);
        var lines := prev + [Segment(row, i)];
        assert LinesBefore(row, lineLength, i) == lines;
        forall j | 0 <= j < |lines|
          ensures IsRunLine(row, lineLength, lines[j]) && End(lines[j]) <= i
        {
          if j < |prev| {
            assert lines[j] == prev[j];
          }
        }
      }
    }
  }

  /** A line closed at or before boundary `b` ends before every stretch through later cells begins. */
  lemma EarlierLineEndsFirst(row: GameGridRow, lineLength: int, line: seq<int>, i: int)
    requires lineLength >= 1 && 0 < i <= |row| && IsRunLine(row, lineLength, line) && End(line) <= i - 1
    ensures End(line) <= RunStart(row, i - 1)
  {
    var b := End(line);
    assert ColorAt(row, b - 1) == ColorAt(row, line[0]);
    RunStartAfterBoundary(row, b, i - 1);
  }

  lemma {:induction false} LinesBeforeAscending(row: GameGridRow, lineLength: int, i: int)
    requires lineLength >= 1 && 0 <= i <= |row|
    ensures Ascending(LinesBefore(row, lineLength, i))
  {
    if i > 0 {
      LinesBeforeAscending(row, lineLength, i - 1);
      var prev := LinesBefore(row, lineLength, i - 1);
      if IsBoundary(row, i) && |Segment(row, i)| >= lineLength {
        var seg := Segment(row, i);
        ClosedLineIsRunLine(row, lineLength, i);
        assert LinesBefore(row, lineLength, i) == prev + [seg];
        LinesEndBefore(row, lineLength, i - 1);
        AppendAscending(prev, seg);
      }
    }
  }

  /** The lines closed by boundary `k` all end before the stretch that ends at cell `k` starts. */
  lemma LinesEndBefore(row: GameGridRow, lineLength: int, k: int)
    requires lineLength >= 1 && 0 <= k < |row|
    ensures forall j :: 0 <= j < |LinesBefore(row, lineLength, k)| && |LinesBefore(row, lineLength, k)[j]| > 0 ==>
              End(LinesBefore(row, lineLength, k)[j]) <= RunStart(row, k)
  {
    LinesBeforeRunLines(row, lineLength, k);
    var prev := LinesBefore(row, lineLength, k);
    forall j | 0 <= j < |prev| && |prev[j]| > 0
      ensures End(prev[j]) <= RunStart(row, k)
    {
      assert IsRunLine(row, lineLength, prev[j]);
      EarlierLineEndsFirst(row, lineLength, prev[j], k + 1);
    }
  }

  /** A line that starts after every earlier line ends keeps the lines ascending. */
  lemma AppendAscending(prev: seq<seq<int>>, seg: seq<int>)
    requires Ascending(prev) && |seg| > 0
    requires forall j :: 0 <= j < |prev| && |prev[j]| > 0 ==> End(prev[j]) <= seg[0]
    ensures Ascending(prev + [seg])
  {
    var lines := prev + [seg];
    forall j, k | 0 <= j < k < |lines| && |lines[j]| > 0 && |lines[k]| > 0
      ensures End(lines[j]) <= lines[k][0]
    {
      assert lines[j] == prev[j];
      if k < |prev| {
        assert lines[k] == prev[k];
      }
    }
  }

  lemma {:induction false} LinesBeforeGrows(row: GameGridRow, lineLength: int, i: int, j: int, line: seq<int>)
    requires 0 <= i <= j <= |row|
    requires line in LinesBefore(row, lineLength, i)
    ensures line in LinesBefore(row, lineLength, j)
    decreases j - i
  {
    if i < j {
      LinesBeforeGrows(row, lineLength, i + 1, j, line);
    }
  }

  /**
   * For lineLength >= 1, findLinesIn reports exactly the maximal same-colour runs of at least
   * lineLength cells, each as its consecutive indices, disjoint and in ascending order.
   */
  lemma LinesExactly(row: GameGridRow, lineLength: int)
    requires lineLength >= 1
    ensures forall line :: line in Lines(row, lineLength) <==> IsRunLine(row, lineLength, line)
    ensures Ascending(Lines(row, lineLength))
  {
    LinesBeforeRunLines(row, lineLength, |row|);
    LinesBeforeAscending(row, lineLength, |row|);
    var lines := Lines(row, lineLength);
    forall line | IsRunLine(row, lineLength, line)
      ensures line in lines
    {
      var s, e := line[0], End(line);
      MaximalRunStart(row, s, e);
      assert ColorAt(row, e - 1) == ColorAt(row, s);
      assert IsBoundary(row, e);
      assert Segment(row, e) == line;
      assert line in LinesBefore(row, lineLength, e);
      LinesBeforeGrows(row, lineLength, e, |row|, line);
    }
    forall line | line in lines
      ensures IsRunLine(row, lineLength, line)
    {
      var j :| 0 <= j < |lines| && lines[j] == line;
    }
  }

  /** Colourless cells never belong to a reported line. */
  lemma ColorlessNeverInLine(row: GameGridRow, lineLength: int, line: seq<int>, k: int)
    requires lineLength >= 1 && line in Lines(row, lineLength) && 0 <= k < |line|
    ensures 0 <= line[k] < |row| && HasColor(row[line[k]])
  {
    LinesExactly(row, lineLength);
    assert IsRunLine(row, lineLength, line);
    assert ColorAt(row, line[k]) == ColorAt(row, line[0]);
  }

  /** The scan of findLinesIn. */
  method FindLinesIn(row: GameGridRow, lineLength: int) returns (result: seq<seq<int>>)
    ensures result == Lines(row, lineLength)
  {
    var lastColor: Option<Color> := None;
    var curLine: seq<int> := [];
    result := [];
    var colIndex := 0;
    while colIndex < |row|
      invariant 0 <= colIndex <= |row|
      invariant colIndex > 0 ==> lastColor == ColorAt(row, colIndex - 1)
      invariant curLine == if colIndex == 0 then [] else Segment(row, colIndex)
      invariant result == if colIndex == |row| then LinesBefore(row, lineLength, colIndex)
        else if colIndex == 0 then [] else LinesBefore(row, lineLength, colIndex - 1)
    {
      var color := ColorOf(row[colIndex]);
      assert color == ColorAt(row, colIndex);
      SegmentStep(row, colIndex);
      ScanStep(row, lineLength, colIndex);
      if colIndex > 0 && color != lastColor {
        if |curLine| >= lineLength {
          result := result + [curLine];
        }
        curLine := [];
      }
      assert result == if colIndex == 0 then [] else LinesBefore(row, lineLength, colIndex);
      assert curLine == if colIndex > 0 && color == lastColor then Segment(row, colIndex) else [];
      if color.Some? {
        curLine := curLine + [colIndex];
      }
      assert curLine == Segment(row, colIndex + 1);
      if colIndex == |row| - 1 && |curLine| >= lineLength {
        result := result + [curLine];
      }
      lastColor := color;
      colIndex := colIndex + 1;
    }
  }

  /** What the scan adds at index `c`: the line closed by a colour change, and at the end the last one. */
  lemma ScanStep(row: GameGridRow, lineLength: int, c: int)
    requires 0 <= c < |row|
    ensures c > 0 ==>
              LinesBefore(row, lineLength, c) == LinesBefore(row, lineLength, c - 1) +
              (if ColorAt(row, c) != ColorAt(row, c - 1) && |Segment(row, c)| >= lineLength then [Segment(row, c)] else [])
    ensures c == 0 ==> LinesBefore(row, lineLength, c) == []
    ensures c == |row| - 1 ==>
              LinesBefore(row, lineLength, c + 1) == LinesBefore(row, lineLength, c) +
              (if |Segment(row, c + 1)| >= lineLength then [Segment(row, c + 1)] else [])
  {
  }

  /** `line.map(colIndex => [rowIndex, colIndex])` */
  function AlongRow(rowIndex: int, line: seq<int>): (cells: seq<GridCellLocation>)
    ensures |cells| == |line|
    ensures forall k :: 0 <= k < |line| ==> cells[k] == Location(rowIndex, line[k])
  {
    seq(|line|, k requires 0 <= k < |line| => Location(rowIndex, line[k]))
  }

  /** `line.map(rowIndex => [rowIndex, colIndex])` */
  function AlongColumn(colIndex: int, line: seq<int>): (cells: seq<GridCellLocation>)
    ensures |cells| == |line|
    ensures forall k :: 0 <= k < |line| ==> cells[k] == Location(line[k], colIndex)
  {
    seq(|line|, k requires 0 <= k < |line| => Location(line[k], colIndex))
  }

  /** The cells (r, s) .. (r, e - 1). */
  function RowCells(r: int, s: int, e: int): seq<GridCellLocation>
    requires s <= e
  {
    seq(e - s, k => Location(r, s + k))
  }

  /** The cells (s, c) .. (e - 1, c). */
  function ColumnCells(c: int, s: int, e: int): seq<GridCellLocation>
    requires s <= e
  {
    seq(e - s, k => Location(s + k, c))
  }

  /** The cells of a line of consecutive indices along a row are that row's cell range. */
  lemma AlongRowRange(r: int, s: int, e: int)
    requires s <= e
    ensures AlongRow(r, Range(s, e)) == RowCells(r, s, e)
  {
  }

  /** The cells of a line of consecutive indices down a column are that column's cell range. */
  lemma AlongColumnRange(c: int, s: int, e: int)
    requires s <= e
    ensures AlongColumn(c, Range(s, e)) == ColumnCells(c, s, e)
  {
  }

  /** Column `colIndex` read top to bottom: `grid.map(row => row[colIndex])`. */
  function Column(grid: GameGrid, colIndex: int): (col: GameGridRow)
    requires |grid| > 0 && IsRectangular(grid) && 0 <= colIndex < |grid[0]|
    ensures |col| == |grid| && forall r :: 0 <= r < |grid| ==> col[r] == grid[r][colIndex]
  {
    seq(|grid|, r requires 0 <= r < |grid| => grid[r][colIndex])
  }

  function RowGroups(row: GameGridRow, rowIndex: int, lineLength: int): seq<seq<GridCellLocation>> {
    var lines := Lines(row, lineLength);
    seq(|lines|, j requires 0 <= j < |lines| => AlongRow(rowIndex, lines[j]))
  }

  function ColumnGroups(col: GameGridRow, colIndex: int, lineLength: int): seq<seq<GridCellLocation>> {
    var lines := Lines(col, lineLength);
    seq(|lines|, j requires 0 <= j < |lines| => AlongColumn(colIndex, lines[j]))
  }

  /** The flattened groups of rows r.. in row order. */
  function HorizontalFrom(grid: GameGrid, lineLength: int, r: int): seq<seq<GridCellLocation>>
    requires 0 <= r <= |grid|
    decreases |grid| - r
  {
    if r == |grid| then [] else RowGroups(grid[r], r, lineLength) + HorizontalFrom(grid, lineLength, r + 1)
  }

  /** The flattened groups of columns c.. in column order. */
  function VerticalFrom(grid: GameGrid, lineLength: int, c: int): seq<seq<GridCellLocation>>
    requires |grid| > 0 && IsRectangular(grid) && 0 <= c <= |grid[0]|
    decreases |grid[0]| - c
  {
    if c == |grid[0]| then []
    else ColumnGroups(Column(grid, c), c, lineLength) + VerticalFrom(grid, lineLength, c + 1)
  }

  function HorizontalLines(grid: GameGrid, lineLength: int): seq<seq<GridCellLocation>> {
    HorizontalFrom(grid, lineLength, 0)
  }

  function VerticalLines(grid: GameGrid, lineLength: int): seq<seq<GridCellLocation>>
    requires |grid| > 0 && IsRectangular(grid)
  {
    VerticalFrom(grid, lineLength, 0)
  }

  /**
   * findLines: the horizontal groups of every row, then the vertical groups of every column,
   * with no deduplication. The source reads grid[0].length, so the grid must be non-empty.
   */
  function FindLines(grid: GameGrid, lineLength: int): (lines: seq<seq<GridCellLocation>>)
    requires |grid| > 0 && IsRectangular(grid)
    ensures |lines| == |HorizontalLines(grid, lineLength)| + |VerticalLines(grid, lineLength)|
    ensures lines[..|HorizontalLines(grid, lineLength)|] == HorizontalLines(grid, lineLength)
    ensures lines[|HorizontalLines(grid, lineLength)|..] == VerticalLines(grid, lineLength)
  {
    HorizontalLines(grid, lineLength) + VerticalLines(grid, lineLength)
  }

  /** A horizontal group: consecutive cells of one row forming a maximal run of the row. */
  predicate IsRowGroup(grid: GameGrid, lineLength: int, g: seq<GridCellLocation>) {
    |g| > 0 && |g| >= lineLength && 0 <= g[0].row < |grid| &&
    g == RowCells(g[0].row, g[0].col, g[0].col + |g|) &&
    MaximalRun(grid[g[0].row], g[0].col, g[0].col + |g|)
  }

  /** A vertical group: consecutive cells of one column forming a maximal run of the column. */
  predicate IsColumnGroup(grid: GameGrid, lineLength: int, g: seq<GridCellLocation>)
    requires |grid| > 0 && IsRectangular(grid)
  {
    |g| > 0 && |g| >= lineLength && 0 <= g[0].col < |grid[0]| &&
    g == ColumnCells(g[0].col, g[0].row, g[0].row + |g|) &&
    MaximalRun(Column(grid, g[0].col), g[0].row, g[0].row + |g|)
  }

  predicate AllRowGroups(grid: GameGrid, lineLength: int, r: int, gs: seq<seq<GridCellLocation>>) {
    forall j :: 0 <= j < |gs| ==> IsRowGroup(grid, lineLength, gs[j]) && gs[j][0].row >= r
  }

  predicate AllColumnGroups(grid: GameGrid, lineLength: int, c: int, gs: seq<seq<GridCellLocation>>)
    requires |grid| > 0 && IsRectangular(grid)
  {
    forall j :: 0 <= j < |gs| ==> IsColumnGroup(grid, lineLength, gs[j]) && gs[j][0].col >= c
  }

  /** Groups by row, and left to right without overlap inside a row. */
  predicate RowOrdered(gs: seq<seq<GridCellLocation>>) {
    forall i, j :: 0 <= i < j < |gs| && |gs[i]| > 0 && |gs[j]| > 0 ==>
      gs[i][0].row < gs[j][0].row ||
      (gs[i][0].row == gs[j][0].row && gs[i][0].col + |gs[i]| <= gs[j][0].col)
  }

  /** Groups by column, and top to bottom without overlap inside a column. */
  predicate ColumnOrdered(gs: seq<seq<GridCellLocation>>) {
    forall i, j :: 0 <= i < j < |gs| && |gs[i]| > 0 && |gs[j]| > 0 ==>
      gs[i][0].col < gs[j][0].col ||
      (gs[i][0].col == gs[j][0].col && gs[i][0].row + |gs[i]| <= gs[j][0].row)
  }

  ghost predicate RowsCovered(grid: GameGrid, lineLength: int, r0: int, gs: seq<seq<GridCellLocation>>) {
    forall r, s, e :: 0 <= r0 <= r < |grid| && MaximalRun(grid[r], s, e) && e - s >= lineLength ==>
      RowCells(r, s, e) in gs
  }

  ghost predicate ColumnsCovered(grid: GameGrid, lineLength: int, c0: int, gs: seq<seq<GridCellLocation>>)
    requires |grid| > 0 && IsRectangular(grid)
  {
    forall c, s, e :: 0 <= c0 <= c < |grid[0]| && MaximalRun(Column(grid, c), s, e) && e - s >= lineLength ==>
      ColumnCells(c, s, e) in gs
  }

  /** The groups of one row are that row's lines, placed in row `r`. */
  lemma RowGroupsExactly(grid: GameGrid, lineLength: int, r: int)
    requires lineLength >= 1 && 0 <= r < |grid|
    ensures AllRowGroups(grid, lineLength, r, RowGroups(grid[r], r, lineLength))
    ensures RowOrdered(RowGroups(grid[r], r, lineLength))
    ensures forall j :: 0 <= j < |RowGroups(grid[r], r, lineLength)| ==> RowGroups(grid[r], r, lineLength)[j][0].row == r
    ensures forall s, e :: MaximalRun(grid[r], s, e) && e - s >= lineLength ==>
      RowCells(r, s, e) in RowGroups(grid[r], r, lineLength)
  {
    RowGroupsAreGroups(grid, lineLength, r);
    RowGroupsCover(grid, lineLength, r);
    RowGroupsInOrder(grid, lineLength, r);
  }

  /** Each group built from a row's lines is a row group placed in that row. */
  lemma RowGroupsAreGroups(grid: GameGrid, lineLength: int, r: int)
    requires lineLength >= 1 && 0 <= r < |grid|
    ensures forall j :: 0 <= j < |RowGroups(grid[r], r, lineLength)| ==>
              IsRowGroup(grid, lineLength, RowGroups(grid[r], r, lineLength)[j]) && RowGroups(grid[r], r, lineLength)[j][0].row == r
  {
    var lines := Lines(grid[r], lineLength);
    var gs: seq<seq<GridCellLocation>> := RowGroups(grid[r], r, lineLength);
    LinesExactly(grid[r], lineLength);
    forall j | 0 <= j < |gs|
      ensures IsRowGroup(grid, lineLength, gs[j]) && gs[j][0].row == r
    {
      assert lines[j] in lines;
      assert IsRunLine(grid[r], lineLength, lines[j]);
      AlongRowRange(r, lines[j][0], End(lines[j]));
      assert gs[j] == RowCells(r, lines[j][0], End(lines[j]));
    }
  }

  /** Every long maximal run of the row is among its groups. */
  lemma RowGroupsCover(grid: GameGrid, lineLength: int, r: int)
    requires lineLength >= 1 && 0 <= r < |grid|
    ensures forall s, e :: MaximalRun(grid[r], s, e) && e - s >= lineLength ==>
              RowCells(r, s, e) in RowGroups(grid[r], r, lineLength)
  {
    var lines := Lines(grid[r], lineLength);
    var gs: seq<seq<GridCellLocation>> := RowGroups(grid[r], r, lineLength);
    LinesExactly(grid[r], lineLength);
    forall s, e | MaximalRun(grid[r], s, e) && e - s >= lineLength
      ensures RowCells(r, s, e) in gs
    {
      var line := Range(s, e);
      assert IsRunLine(grid[r], lineLength, line);
      var j :| 0 <= j < |lines| && lines[j] == line;
      AlongRowRange(r, s, e);
      assert gs[j] == RowCells(r, s, e);
    }
  }

  /** The groups of one row follow each other without overlap. */
  lemma RowGroupsInOrder(grid: GameGrid, lineLength: int, r: int)
    requires lineLength >= 1 && 0 <= r < |grid|
    ensures forall i, j :: 0 <= i < j < |RowGroups(grid[r], r, lineLength)| && |RowGroups(grid[r], r, lineLength)[i]| > 0 && |RowGroups(grid[r], r, lineLength)[j]| > 0 ==>
              RowGroups(grid[r], r, lineLength)[i][0].row == RowGroups(grid[r], r, lineLength)[j][0].row && RowGroups(grid[r], r, lineLength)[i][0].col + |RowGroups(grid[r], r, lineLength)[i]| <= RowGroups(grid[r], r, lineLength)[j][0].col
  {
    var lines := Lines(grid[r], lineLength);
    var gs: seq<seq<GridCellLocation>> := RowGroups(grid[r], r, lineLength);
    LinesExactly(grid[r], lineLength);
    forall i, j | 0 <= i < j < |gs| && |gs[i]| > 0 && |gs[j]| > 0
      ensures gs[i][0].row == gs[j][0].row && gs[i][0].col + |gs[i]| <= gs[j][0].col
    {
      assert |lines[i]| > 0 && |lines[j]| > 0;
      assert End(lines[i]) <= lines[j][0];
    }
  }

  /** The groups of one column are that column's lines, placed in column `c`. */
  lemma ColumnGroupsExactly(grid: GameGrid, lineLength: int, c: int)
    requires lineLength >= 1 && |grid| > 0 && IsRectangular(grid) && 0 <= c < |grid[0]|
    ensures AllColumnGroups(grid, lineLength, c, ColumnGroups(Column(grid, c), c, lineLength))
    ensures ColumnOrdered(ColumnGroups(Column(grid, c), c, lineLength))
    ensures forall j :: 0 <= j < |ColumnGroups(Column(grid, c), c, lineLength)| ==>
      ColumnGroups(Column(grid, c), c, lineLength)[j][0].col == c
    ensures forall s, e :: MaximalRun(Column(grid, c), s, e) && e - s >= lineLength ==>
      ColumnCells(c, s, e) in ColumnGroups(Column(grid, c), c, lineLength)
  {
    ColumnGroupsAreGroups(grid, lineLength, c);
    ColumnGroupsCover(grid, lineLength, c);
    ColumnGroupsInOrder(grid, lineLength, c);
  }

  /** Each group built from a column's lines is a column group placed in that column. */
  lemma ColumnGroupsAreGroups(grid: GameGrid, lineLength: int, c: int)
    requires lineLength >= 1 && |grid| > 0 && IsRectangular(grid) && 0 <= c < |grid[0]|
    ensures forall j :: 0 <= j < |ColumnGroups(Column(grid, c), c, lineLength)| ==>
              IsColumnGroup(grid, lineLength, ColumnGroups(Column(grid, c), c, lineLength)[j]) && ColumnGroups(Column(grid, c), c, lineLength)[j][0].col == c
  {
    var lines := Lines(Column(grid, c), lineLength);
    var gs: seq<seq<GridCellLocation>> := ColumnGroups(Column(grid, c), c, lineLength);
    LinesExactly(Column(grid, c), lineLength);
    forall j | 0 <= j < |gs|
      ensures IsColumnGroup(grid, lineLength, gs[j]) && gs[j][0].col == c
    {
      assert lines[j] in lines;
      assert IsRunLine(Column(grid, c), lineLength, lines[j]);
      AlongColumnRange(c, lines[j][0], End(lines[j]));
      assert gs[j] == ColumnCells(c, lines[j][0], End(lines[j]));
    }
  }

  /** Every long maximal run of the column is among its groups. */
  lemma ColumnGroupsCover(grid: GameGrid, lineLength: int, c: int)
    requires lineLength >= 1 && |grid| > 0 && IsRectangular(grid) && 0 <= c < |grid[0]|
    ensures forall s, e :: MaximalRun(Column(grid, c), s, e) && e - s >= lineLength ==>
              ColumnCells(c, s, e) in ColumnGroups(Column(grid, c), c, lineLength)
  {
    var lines := Lines(Column(grid, c), lineLength);
    var gs: seq<seq<GridCellLocation>> := ColumnGroups(Column(grid, c), c, lineLength);
    LinesExactly(Column(grid, c), lineLength);
    forall s, e | MaximalRun(Column(grid, c), s, e) && e - s >= lineLength
      ensures ColumnCells(c, s, e) in gs
    {
      var line := Range(s, e);
      assert IsRunLine(Column(grid, c), lineLength, line);
      var j :| 0 <= j < |lines| && lines[j] == line;
      AlongColumnRange(c, s, e);
      assert gs[j] == ColumnCells(c, s, e);
    }
  }

  /** The groups of one column follow each other without overlap. */
  lemma ColumnGroupsInOrder(grid: GameGrid, lineLength: int, c: int)
    requires lineLength >= 1 && |grid| > 0 && IsRectangular(grid) && 0 <= c < |grid[0]|
    ensures forall i, j :: 0 <= i < j < |ColumnGroups(Column(grid, c), c, lineLength)| && |ColumnGroups(Column(grid, c), c, lineLength)[i]| > 0 && |ColumnGroups(Column(grid, c), c, lineLength)[j]| > 0 ==>
              ColumnGroups(Column(grid, c), c, lineLength)[i][0].col == ColumnGroups(Column(grid, c), c, lineLength)[j][0].col && ColumnGroups(Column(grid, c), c, lineLength)[i][0].row + |ColumnGroups(Column(grid, c), c, lineLength)[i]| <= ColumnGroups(Column(grid, c), c, lineLength)[j][0].row
  {
    var lines := Lines(Column(grid, c), lineLength);
    var gs: seq<seq<GridCellLocation>> := ColumnGroups(Column(grid, c), c, lineLength);
    LinesExactly(Column(grid, c), lineLength);
    forall i, j | 0 <= i < j < |gs| && |gs[i]| > 0 && |gs[j]| > 0
      ensures gs[i][0].col == gs[j][0].col && gs[i][0].row + |gs[i]| <= gs[j][0].row
    {
      assert |lines[i]| > 0 && |lines[j]| > 0;
      assert End(lines[i]) <= lines[j][0];
    }
  }

  lemma {:induction false} HorizontalFromExactly(grid: GameGrid, lineLength: int, r: int)
    requires lineLength >= 1 && 0 <= r <= |grid|
    ensures AllRowGroups(grid, lineLength, r, HorizontalFrom(grid, lineLength, r))
    ensures RowOrdered(HorizontalFrom(grid, lineLength, r))
    ensures RowsCovered(grid, lineLength, r, HorizontalFrom(grid, lineLength, r))
    decreases |grid| - r
  {
    if r < |grid| {
      HorizontalFromExactly(grid, lineLength, r + 1);
      RowGroupsExactly(grid, lineLength, r);
      var here, rest := RowGroups(grid[r], r, lineLength), HorizontalFrom(grid, lineLength, r + 1);
      assert HorizontalFrom(grid, lineLength, r) == here + rest;
      RowGroupsConcat(grid, lineLength, r, here, rest);
      RowOrderedConcat(r, here, rest);
      RowsCoveredConcat(grid, lineLength, r, here, rest);
    }
  }

  /** The groups of row `r` followed by those of the later rows are all groups from row `r` on. */
  lemma RowGroupsConcat(grid: GameGrid, lineLength: int, r: int, here: seq<seq<GridCellLocation>>, rest: seq<seq<GridCellLocation>>)
    requires forall j :: 0 <= j < |here| ==> IsRowGroup(grid, lineLength, here[j]) && here[j][0].row == r
    requires AllRowGroups(grid, lineLength, r + 1, rest)
    ensures AllRowGroups(grid, lineLength, r, here + rest)
  {
    var gs: seq<seq<GridCellLocation>> := here + rest;
    forall j | 0 <= j < |gs|
      ensures IsRowGroup(grid, lineLength, gs[j]) && gs[j][0].row >= r
    {
      if j < |here| { assert gs[j] == here[j]; } else { assert gs[j] == rest[j - |here|]; }
    }
  }

  /** Ordered groups of row `r` followed by ordered groups of later rows stay in reading order. */
  lemma RowOrderedConcat(r: int, here: seq<seq<GridCellLocation>>, rest: seq<seq<GridCellLocation>>)
    requires forall j :: 0 <= j < |here| ==> |here[j]| > 0 && here[j][0].row == r
    requires forall j :: 0 <= j < |rest| ==> |rest[j]| > 0 && rest[j][0].row > r
    requires RowOrdered(here) && RowOrdered(rest)
    ensures RowOrdered(here + rest)
  {
    var gs: seq<seq<GridCellLocation>> := here + rest;
    forall i, j | 0 <= i < j < |gs| && |gs[i]| > 0 && |gs[j]| > 0
      ensures gs[i][0].row < gs[j][0].row ||
        (gs[i][0].row == gs[j][0].row && gs[i][0].col + |gs[i]| <= gs[j][0].col)
    {
      if j < |here| {
        assert gs[i] == here[i] && gs[j] == here[j];
      } else if i < |here| {
        assert gs[i] == here[i] && gs[j] == rest[j - |here|];
      } else {
        assert gs[i] == rest[i - |here|] && gs[j] == rest[j - |here|];
      }
    }
  }

  /** Every long maximal run of row `r` or a later row is among the concatenated groups. */
  lemma RowsCoveredConcat(grid: GameGrid, lineLength: int, r: int, here: seq<seq<GridCellLocation>>, rest: seq<seq<GridCellLocation>>)
    requires 0 <= r < |grid|
    requires forall s, e :: MaximalRun(grid[r], s, e) && e - s >= lineLength ==> RowCells(r, s, e) in here
    requires RowsCovered(grid, lineLength, r + 1, rest)
    ensures RowsCovered(grid, lineLength, r, here + rest)
  {
    var gs: seq<seq<GridCellLocation>> := here + rest;
    forall q, s, e | 0 <= r <= q < |grid| && MaximalRun(grid[q], s, e) && e - s >= lineLength
      ensures RowCells(q, s, e) in gs
    {
      if q > r {
        assert RowCells(q, s, e) in rest;
      } else {
        assert RowCells(q, s, e) in here;
      }
    }
  }

  lemma {:induction false} VerticalFromGroups(grid: GameGrid, lineLength: int, c: int)
    requires lineLength >= 1 && |grid| > 0 && IsRectangular(grid) && 0 <= c <= |grid[0]|
    ensures AllColumnGroups(grid, lineLength, c, VerticalFrom(grid, lineLength, c))
    decreases |grid[0]| - c
  {
    if c < |grid[0]| {
      VerticalFromGroups(grid, lineLength, c + 1);
      ColumnGroupsExactly(grid, lineLength, c);
      var here, rest := ColumnGroups(Column(grid, c), c, lineLength), VerticalFrom(grid, lineLength, c + 1);
      assert VerticalFrom(grid, lineLength, c) == here + rest;
      ColumnGroupsConcat(grid, lineLength, c, here, rest);
    }
  }

  lemma {:induction false} VerticalFromOrdered(grid: GameGrid, lineLength: int, c: int)
    requires lineLength >= 1 && |grid| > 0 && IsRectangular(grid) && 0 <= c <= |grid[0]|
    ensures ColumnOrdered(VerticalFrom(grid, lineLength, c))
    decreases |grid[0]| - c
  {
    if c < |grid[0]| {
      VerticalFromOrdered(grid, lineLength, c + 1);
      VerticalFromGroups(grid, lineLength, c + 1);
      ColumnGroupsExactly(grid, lineLength, c);
      var here, rest := ColumnGroups(Column(grid, c), c, lineLength), VerticalFrom(grid, lineLength, c + 1);
      assert VerticalFrom(grid, lineLength, c) == here + rest;
      ColumnOrderedConcat(c, here, rest);
    }
  }

  lemma {:induction false} VerticalFromCovers(grid: GameGrid, lineLength: int, c: int)
    requires lineLength >= 1 && |grid| > 0 && IsRectangular(grid) && 0 <= c <= |grid[0]|
    ensures ColumnsCovered(grid, lineLength, c, VerticalFrom(grid, lineLength, c))
    decreases |grid[0]| - c
  {
    if c < |grid[0]| {
      VerticalFromCovers(grid, lineLength, c + 1);
      ColumnGroupsExactly(grid, lineLength, c);
      var here, rest := ColumnGroups(Column(grid, c), c, lineLength), VerticalFrom(grid, lineLength, c + 1);
      assert VerticalFrom(grid, lineLength, c) == here + rest;
      ColumnsCoveredConcat(grid, lineLength, c, here, rest);
    }
  }

  /** The groups of column `c` followed by those of the later columns are all groups from column `c` on. */
  lemma ColumnGroupsConcat(grid: GameGrid, lineLength: int, c: int, here: seq<seq<GridCellLocation>>, rest: seq<seq<GridCellLocation>>)
    requires |grid| > 0 && IsRectangular(grid)
    requires forall j :: 0 <= j < |here| ==> IsColumnGroup(grid, lineLength, here[j]) && here[j][0].col == c
    requires AllColumnGroups(grid, lineLength, c + 1, rest)
    ensures AllColumnGroups(grid, lineLength, c, here + rest)
  {
    var gs: seq<seq<GridCellLocation>> := here + rest;
    forall j | 0 <= j < |gs|
      ensures IsColumnGroup(grid, lineLength, gs[j]) && gs[j][0].col >= c
    {
      if j < |here| { assert gs[j] == here[j]; } else { assert gs[j] == rest[j - |here|]; }
    }
  }

  /** Ordered groups of column `c` followed by ordered groups of later columns stay in column order. */
  lemma ColumnOrderedConcat(c: int, here: seq<seq<GridCellLocation>>, rest: seq<seq<GridCellLocation>>)
    requires forall j :: 0 <= j < |here| ==> |here[j]| > 0 && here[j][0].col == c
    requires forall j :: 0 <= j < |rest| ==> |rest[j]| > 0 && rest[j][0].col > c
    requires ColumnOrdered(here) && ColumnOrdered(rest)
    ensures ColumnOrdered(here + rest)
  {
    var gs: seq<seq<GridCellLocation>> := here + rest;
    forall i, j | 0 <= i < j < |gs| && |gs[i]| > 0 && |gs[j]| > 0
      ensures gs[i][0].col < gs[j][0].col ||
        (gs[i][0].col == gs[j][0].col && gs[i][0].row + |gs[i]| <= gs[j][0].row)
    {
      if j < |here| {
        assert gs[i] == here[i] && gs[j] == here[j];
      } else if i < |here| {
        assert gs[i] == here[i] && gs[j] == rest[j - |here|];
      } else {
        assert gs[i] == rest[i - |here|] && gs[j] == rest[j - |here|];
      }
    }
  }

  /** Every long maximal run of column `c` or a later column is among the concatenated groups. */
  lemma ColumnsCoveredConcat(grid: GameGrid, lineLength: int, c: int, here: seq<seq<GridCellLocation>>, rest: seq<seq<GridCellLocation>>)
    requires |grid| > 0 && IsRectangular(grid) && 0 <= c < |grid[0]|
    requires forall s, e :: MaximalRun(Column(grid, c), s, e) && e - s >= lineLength ==> ColumnCells(c, s, e) in here
    requires ColumnsCovered(grid, lineLength, c + 1, rest)
    ensures ColumnsCovered(grid, lineLength, c, here + rest)
  {
    var gs: seq<seq<GridCellLocation>> := here + rest;
    forall q, s, e | 0 <= c <= q < |grid[0]| && MaximalRun(Column(grid, q), s, e) && e - s >= lineLength
      ensures ColumnCells(q, s, e) in gs
    {
      if q > c {
        assert ColumnCells(q, s, e) in rest;
      } else {
        assert ColumnCells(q, s, e) in here;
      }
    }
  }

  /**
   * For lineLength >= 1 on a non-empty rectangular grid: findLines lists every horizontal
   * maximal run of at least lineLength cells (each a row group, in row order), then every
   * vertical one (each a column group: one column, consecutive rows, in column order).
   */
  lemma FindLinesExactly(grid: GameGrid, lineLength: int)
    requires lineLength >= 1 && |grid| > 0 && IsRectangular(grid)
    ensures var lines := FindLines(grid, lineLength);
      var h := |HorizontalLines(grid, lineLength)|;
      AllRowGroups(grid, lineLength, 0, lines[..h]) && RowOrdered(lines[..h]) &&
      RowsCovered(grid, lineLength, 0, lines[..h]) &&
      AllColumnGroups(grid, lineLength, 0, lines[h..]) && ColumnOrdered(lines[h..]) &&
      ColumnsCovered(grid, lineLength, 0, lines[h..])
  {
    HorizontalFromExactly(grid, lineLength, 0);
    VerticalFromGroups(grid, lineLength, 0);
    VerticalFromOrdered(grid, lineLength, 0);
    VerticalFromCovers(grid, lineLength, 0);
  }

  /**
   * findLines does not deduplicate: with lineLength 1, the single virus of a 1x1 grid is
   * reported once as a row group and once as a column group.
   */
  lemma CellInBothDirections()
    ensures FindLines([[Virus(Color1)]], 1) == [[Location(0, 0)], [Location(0, 0)]]
  {
    var grid := [[Virus(Color1)]];
    assert Segment(grid[0], 1) == [0];
    assert Lines(grid[0], 1) == [[0]];
    assert Column(grid, 0) == grid[0];
    assert AlongRow(0, [0]) == [Location(0, 0)];
    assert AlongColumn(0, [0]) == [Location(0, 0)];
    assert HorizontalLines(grid, 1) == RowGroups(grid[0], 0, 1) == [AlongRow(0, [0])];
    assert VerticalLines(grid, 1) == ColumnGroups(grid[0], 0, 1) == [AlongColumn(0, [0])];
  }
}
