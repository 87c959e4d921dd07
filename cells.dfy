/** The cell record of the maze: its fixed coordinates, the two walls it
    owns (south and east; north and west belong to its neighbours) and the
    two traversal marks. */
module CellRecord {

  class Cell {
    const x: int
    const y: int
    /** The wall on this cell's south side; true means the wall stands. */
    var bottom: bool
    /** The wall on this cell's east side; true means the wall stands. */
    var right: bool
    var visited: bool
    var onPath: bool

    /** A new cell at column x, row y with both of its walls standing. */
    constructor (x: int, y: int)
      ensures this.x == x && this.y == y
      ensures bottom && right
      ensures !visited && !onPath
    {
      this.x := x;
      this.y := y;
      bottom := true;
      right := true;
      visited := false;
      onPath := false;
    }
  }
}
