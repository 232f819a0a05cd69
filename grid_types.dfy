/** The grid data model: colours, grid objects, locations, directions and the type guards. */
module GridTypes {
  import opened Wrappers

  datatype Color = Color1 | Color2 | Color3

  /** One cell of the playfield. The colourless kinds are Empty and Destroyed. */
  datatype GridObject =
    | Empty
    | Destroyed
    | Virus(color: Color)
    | PillSegment(color: Color)
    | PillTop(color: Color)
    | PillBottom(color: Color)
    | PillLeft(color: Color)
    | PillRight(color: Color)

  type GameGridRow = seq<GridObject>

  /** Rows top to bottom; row 0 is the hidden spawn row. */
  type GameGrid = seq<GameGridRow>

  /** A lookup that may fall off the grid. */
  type MaybeGridObject = Option<GridObject>

  datatype GridCellLocation = Location(row: int, col: int)

  datatype GridDirection = Up | Down | Left | Right

  /** Every kind except Empty and Destroyed carries a colour. */
  predicate HasColor(obj: GridObject) {
    !obj.Empty? && !obj.Destroyed?
  }

  /** The colour of a cell, or None for a colourless one. */
  function ColorOf(obj: GridObject): Option<Color> {
    if HasColor(obj) then Some(obj.color) else None
  }

  /** A missing (off-grid) cell is not empty. */
  predicate IsEmpty(obj: MaybeGridObject) {
    obj == Some(Empty)
  }

  predicate IsVirus(obj: GridObject) {
    obj.Virus?
  }

  predicate IsPillTop(obj: MaybeGridObject) {
    obj.Some? && obj.value.PillTop?
  }

  predicate IsPillBottom(obj: MaybeGridObject) {
    obj.Some? && obj.value.PillBottom?
  }

  predicate IsPillLeft(obj: MaybeGridObject) {
    obj.Some? && obj.value.PillLeft?
  }

  predicate IsPillRight(obj: MaybeGridObject) {
    obj.Some? && obj.value.PillRight?
  }

  /** The four kinds that belong to a two-cell pill; a loose PillSegment is not one of them. */
  predicate IsPillHalf(obj: GridObject) {
    obj.PillTop? || obj.PillBottom? || obj.PillLeft? || obj.PillRight?
  }

  predicate InBounds(grid: GameGrid, loc: GridCellLocation) {
    0 <= loc.row < |grid| && 0 <= loc.col < |grid[loc.row]|
  }

  predicate IsRectangular(grid: GameGrid) {
    forall r :: 0 <= r < |grid| ==> |grid[r]| == |grid[0]|
  }
}
