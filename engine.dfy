/** The order in which the program runs the engine once: build the board,
    carve a maze into it, clear the visited marks, and solve it. */
module Engine {
  import opened CellRecord
  import opened Board
  import opened Spanning
  import opened Generator
  import opened Solver

  /** The first three phases of a run: a fresh height-by-width board carved
      into a perfect maze with the raw random values rng, its visited marks
      cleared again, and no cell yet on the path. */
  method BuildMaze(height: nat, width: nat, rng: nat -> nat)
    returns (board: array2<Cell?>, ghost cells: set<Cell>, ghost parent: map<Cell, Cell>, ghost depth: map<Cell, nat>)
    requires height > 0 && width > 0
    ensures Valid(board, cells) && board.Length0 == height && board.Length1 == width
    ensures PerfectMaze(board, cells, parent, depth)
    ensures |TreeWalls(parent)| == height * width - 1
    ensures NoneVisited(board, cells) && NoneOnPath(board, cells)
    ensures fresh(board) && fresh(cells)
  {
    board, cells := NewMaze(height, width);
    parent, depth := GenerateMaze(board, cells, rng);
    ResetVisited(board, cells);
  }

  /** The path from the bottom-right cell of a perfect maze back to the
      top-left one: it starts and ends there and every step goes through an
      open passage. It passes no cell twice, so the walk back takes at most
      height times width minus one steps. */
  lemma SolutionPath(board: array2<Cell?>, cells: set<Cell>, parent: map<Cell, Cell>, depth: map<Cell, nat>)
    returns (path: seq<Cell>)
    requires Valid(board, cells) && PerfectMaze(board, cells, parent, depth)
    ensures path == PathToRoot(cells, board[0, 0], parent, depth, board[board.Length0 - 1, board.Length1 - 1])
    ensures |path| > 0 && path[0] == board[board.Length0 - 1, board.Length1 - 1] && path[|path| - 1] == board[0, 0]
    ensures forall k :: 0 <= k < |path| - 1 ==> Open(path[k], path[k + 1])
    ensures (forall k, l :: 0 <= k < l < |path| ==> path[k] != path[l]) && |path| <= board.Length0 * board.Length1
  {
    path := PathToRoot(cells, board[0, 0], parent, depth, board[board.Length0 - 1, board.Length1 - 1]);
    PathToRootIsPassage(board, cells, parent, depth, board[board.Length0 - 1, board.Length1 - 1]);
    PathToRootDistinct(cells, board[0, 0], parent, depth, board[board.Length0 - 1, board.Length1 - 1]);
    PathWithinBoard(board, cells, board[0, 0], parent, depth, board[board.Length0 - 1, board.Length1 - 1]);
  }

  /** One run of the engine on a height-by-width board with the raw random
      values rng: the walls form a perfect maze, and the cells marked as on
      the path are exactly those of path, the tree path from the
      bottom-right cell back to the top-left one, each step of which goes
      through an open passage; the path holds each cell at most once. The
      search leaves the bottom-right cell unvisited and every other cell of
      the path visited. */
  method Run(height: nat, width: nat, rng: nat -> nat)
    returns (board: array2<Cell?>, ghost cells: set<Cell>, ghost parent: map<Cell, Cell>, ghost depth: map<Cell, nat>,
             ghost path: seq<Cell>)
    requires height > 0 && width > 0
    ensures Valid(board, cells) && board.Length0 == height && board.Length1 == width
    ensures PerfectMaze(board, cells, parent, depth)
    ensures |TreeWalls(parent)| == height * width - 1
    ensures |path| > 0 && path[0] == board[board.Length0 - 1, board.Length1 - 1] && path[|path| - 1] == board[0, 0]
    ensures forall k :: 0 <= k < |path| - 1 ==> Open(path[k], path[k + 1])
    ensures (forall k, l :: 0 <= k < l < |path| ==> path[k] != path[l]) && |path| <= height * width
    ensures forall c :: c in cells ==> (c.onPath <==> c in path)
    ensures !path[0].visited && forall c :: c in path && c != path[0] ==> c.visited
  {
    board, cells, parent, depth := BuildMaze(height, width, rng);
    SolveMaze(board, cells, parent, depth);
    path := SolutionPath(board, cells, parent, depth);
  }
}
