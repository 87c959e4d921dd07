/** Maze generation by randomised depth-first search with an explicit
    stack: starting from the top-left cell, repeatedly pop the cell on top
    of the stack; if it has unvisited neighbours, push it back, knock down
    the wall to one of them chosen at random, mark that neighbour visited
    and push it too.

    The loop body is split into Examine (the query), Advance (push back
    and choose) and Extend (carve, mark and push) so that each proof deals
    with few heap states. The ghost state beside the stack is the set vis
    of visited cells, the stack contents st, and the spanning tree the
    search has grown so far (parent and depth). */
module Generator {
  import opened CellRecord
  import opened Board
  import opened Spanning
  import opened Stack

  /** gen_rand: brings a raw value of the C library's rand() into the range
      min..max by taking it modulo the size of the range. */
  function GenRand(min: int, max: int, raw: nat): (r: int)
    requires min <= max
    ensures min <= r <= max
  {
    raw % (max - min + 1) + min
  }

  /** Every value of the range comes out of gen_rand for some raw value. */
  lemma GenRandCovers(min: int, max: int, r: int)
    requires min <= r <= max
    ensures GenRand(min, max, r - min) == r
  {
  }

  /** The stack holds distinct visited cells, and a visited cell that is no
      longer on the stack has no unvisited neighbour left. */
  ghost predicate Frontier(cells: set<Cell>, vis: set<Cell>, st: seq<Cell>) {
    vis <= cells &&
    (forall k, l :: 0 <= k < l < |st| ==> st[k] != st[l]) &&
    (forall k :: 0 <= k < |st| ==> st[k] in vis) &&
    (forall c, b {:trigger Adjacent(c, b)} :: c in vis && c !in st && b in cells && Adjacent(c, b) ==> b in vis)
  }

  /** Visiting a new cell and pushing it keeps the frontier. */
  lemma FrontierGrow(cells: set<Cell>, vis: set<Cell>, st: seq<Cell>, n: Cell)
    requires Frontier(cells, vis, st) && n in cells && n !in vis
    ensures Frontier(cells, vis + {n}, st + [n])
  {
  }

  /** Dropping the top cell keeps the frontier once all its neighbours are
      visited. */
  lemma FrontierRetreat(cells: set<Cell>, vis: set<Cell>, st: seq<Cell>)
    requires Frontier(cells, vis, st) && |st| > 0
    requires forall b :: b in cells && Adjacent(st[|st| - 1], b) ==> b in vis
    ensures Frontier(cells, vis, st[..|st| - 1])
  {
  }

  /** A set of visited cells that misses a cell of the board is smaller
      than the board. */
  lemma {:induction false} SmallerThanBoard<T>(vis: set<T>, cells: set<T>, n: T)
    requires vis <= cells && n in cells && n !in vis
    ensures |vis| < |cells|
  {
    assert cells == (vis + {n}) + (cells - (vis + {n}));
  }

  /** The wall knocked down between the current cell and the chosen
      neighbour: the neighbour's bottom wall when it lies north, the
      current cell's right wall when it lies east, the current cell's
      bottom wall when it lies south, the neighbour's right wall when it
      lies west. Exactly that wall joins the walls that are down. */
  method Carve(curr: Cell, n: Cell, ghost cells: set<Cell>, ghost down: set<Wall>)
    requires curr in cells && n in cells && Adjacent(curr, n)
    requires WallsDownExactly(cells, down)
    modifies curr`right, curr`bottom, n`right, n`bottom
    ensures WallsDownExactly(cells, down + {SharedWall(curr, n)})
  {
    if curr.y - 1 == n.y {
      n.bottom := false;
    } else if curr.x + 1 == n.x {
      curr.right := false;
    } else if curr.y + 1 == n.y {
      curr.bottom := false;
    } else if curr.x - 1 == n.x {
      n.right := false;
    }
  }

  /** Carves from curr, a visited cell, to its unvisited neighbour n, marks
      n visited and pushes it: n joins the tree under curr. */
  method Extend(board: array2<Cell?>, ghost cells: set<Cell>, stack: array<Cell?>, top: nat, curr: Cell, n: Cell,
                ghost init: Cell, ghost vis: set<Cell>, ghost st: seq<Cell>, ghost parent: map<Cell, Cell>, ghost depth: map<Cell, nat>)
    returns (newTop: nat, ghost vis': set<Cell>, ghost st': seq<Cell>, ghost parent': map<Cell, Cell>, ghost depth': map<Cell, nat>)
    requires Valid(board, cells) && stack.Length == board.Length0 * board.Length1
    requires StackHolds(stack, top, st) && Marked(cells, vis) && Frontier(cells, vis, st)
    requires TreeOver(vis, init, parent, depth) && WallsDownExactly(cells, TreeWalls(parent))
    requires curr in vis && n in cells && n !in vis && Adjacent(curr, n)
    modifies stack, curr`right, curr`bottom, n`right, n`bottom, n`visited
    ensures StackHolds(stack, newTop, st') && Marked(cells, vis') && Frontier(cells, vis', st')
    ensures TreeOver(vis', init, parent', depth') && WallsDownExactly(cells, TreeWalls(parent'))
    ensures vis' == vis + {n} && st' == st + [n] && parent' == parent[n := curr]
    ensures cells - vis' < cells - vis
  {
    CellCount(board, cells);
    DistinctBound(st, vis);
    SmallerThanBoard(vis, cells, n);
    GrowTree(vis, init, parent, depth, curr, n);
    FrontierGrow(cells, vis, st, n);
    vis', st', parent', depth' := vis + {n}, st + [n], parent[n := curr], depth[n := depth[curr] + 1];
    Carve(curr, n, cells, TreeWalls(parent));
    MarkVisited(n, cells, vis);
    newTop := Push(n, stack, top);
  }

  /** Collects the unvisited neighbours of the popped cell curr into the
      four-slot buffer: they are its unvisited neighbours in the order
      north, east, south, west, and when there are none every neighbour of
      curr is visited. */
  method Examine(board: array2<Cell?>, ghost cells: set<Cell>, curr: Cell, unvis: array<Cell?>, ghost vis: set<Cell>)
    returns (count: nat)
    requires Valid(board, cells) && curr in cells && Marked(cells, vis) && unvis.Length == 4
    modifies unvis
    ensures count <= 4
    ensures unvis[..count] == old(UnvisitedNeighbors(board, cells, curr.x, curr.y))
    ensures forall k :: 0 <= k < count ==> unvis[k] != null && unvis[k] in cells && Adjacent(curr, unvis[k]) && unvis[k] !in vis
    ensures count == 0 ==> forall b :: b in cells && Adjacent(curr, b) ==> b in vis
  {
    ghost var ns := UnvisitedNeighbors(board, cells, curr.x, curr.y);
    UnvisitedNeighborsMembers(board, cells, curr.x, curr.y);
    count := GetUnvisitedNeighbors(board, cells, curr.x, curr.y, unvis);
    forall k | 0 <= k < count
      ensures unvis[k] != null && unvis[k] in cells && Adjacent(curr, unvis[k]) && unvis[k] !in vis
    {
      assert unvis[k] == ns[k] && ns[k] in ns;
    }
    if count == 0 {
      forall b | b in cells && Adjacent(curr, b) ensures b in vis {
        assert b !in ns;
      }
    }
  }

  /** Pushes the popped cell back, picks one of its count unvisited
      neighbours with the next raw random value rng(calls) and extends the
      tree to it. */
  method Advance(board: array2<Cell?>, ghost cells: set<Cell>, rng: nat -> nat, stack: array<Cell?>, top: nat, calls: nat,
                 curr: Cell, unvis: array<Cell?>, count: nat,
                 ghost init: Cell, ghost vis: set<Cell>, ghost st: seq<Cell>, ghost parent: map<Cell, Cell>, ghost depth: map<Cell, nat>)
    returns (top': nat, calls': nat, ghost vis': set<Cell>, ghost st': seq<Cell>, ghost parent': map<Cell, Cell>, ghost depth': map<Cell, nat>)
    requires Valid(board, cells) && stack.Length == board.Length0 * board.Length1
    requires |st| > 0 && |st| <= stack.Length && curr == st[|st| - 1] && StackHolds(stack, top, st[..|st| - 1])
    requires Marked(cells, vis) && Frontier(cells, vis, st)
    requires TreeOver(vis, init, parent, depth) && WallsDownExactly(cells, TreeWalls(parent))
    requires 0 < count <= unvis.Length && unvis != stack
    requires forall k :: 0 <= k < count ==> unvis[k] != null && unvis[k] in cells && Adjacent(curr, unvis[k]) && unvis[k] !in vis
    modifies stack, cells`visited, cells`right, cells`bottom
    ensures calls' == calls + 1
    ensures StackHolds(stack, top', st') && Marked(cells, vis') && Frontier(cells, vis', st')
    ensures TreeOver(vis', init, parent', depth') && WallsDownExactly(cells, TreeWalls(parent'))
    ensures var n := old(unvis[GenRand(0, count - 1, rng(calls))]);
      n != null && n in cells && vis' == vis + {n} && st' == st + [n] && parent' == parent[n := curr] && n !in vis
    ensures cells - vis' < cells - vis
  {
    top' := Push(curr, stack, top);
    assert st[..|st| - 1] + [curr] == st;
    var index := GenRand(0, count - 1, rng(calls));
    calls' := calls + 1;
    var neighbour := unvis[index];
    top', vis', st', parent', depth' := Extend(board, cells, stack, top', curr, neighbour, init, vis, st, parent, depth);
  }

  /** One pass of generate_maze's loop: either the tree grows by one cell,
      or the top cell, all of whose neighbours are visited, leaves the
      stack. */
  method GenerateStep(board: array2<Cell?>, ghost cells: set<Cell>, rng: nat -> nat, stack: array<Cell?>, top: nat, calls: nat,
                      ghost init: Cell, ghost vis: set<Cell>, ghost st: seq<Cell>, ghost parent: map<Cell, Cell>, ghost depth: map<Cell, nat>)
    returns (top': nat, calls': nat, ghost vis': set<Cell>, ghost st': seq<Cell>, ghost parent': map<Cell, Cell>, ghost depth': map<Cell, nat>)
    requires Valid(board, cells) && stack.Length == board.Length0 * board.Length1 && top != 0
    requires StackHolds(stack, top, st) && Marked(cells, vis) && Frontier(cells, vis, st)
    requires TreeOver(vis, init, parent, depth) && WallsDownExactly(cells, TreeWalls(parent))
    modifies stack, cells`visited, cells`right, cells`bottom
    ensures StackHolds(stack, top', st') && Marked(cells, vis') && Frontier(cells, vis', st')
    ensures TreeOver(vis', init, parent', depth') && WallsDownExactly(cells, TreeWalls(parent'))
    ensures cells - vis' < cells - vis || (vis' == vis && top' < top)
    ensures (exists n :: n in cells && n !in vis && vis' == vis + {n} && st' == st + [n] && parent' == parent[n := st[|st| - 1]]) ||
      (vis' == vis && st' == st[..|st| - 1] && parent' == parent)
  {
    var curr;
    curr, top' := PopHeld(stack, top, st);
    var unvis := new Cell?[4];
    var count := Examine(board, cells, curr, unvis, vis);
    if count > 0 {
      top', calls', vis', st', parent', depth' := Advance(board, cells, rng, stack, top', calls, curr, unvis, count, init, vis, st, parent, depth);
    } else {
      calls' := calls;
      FrontierRetreat(cells, vis, st);
      vis', st', parent', depth' := vis, st[..|st| - 1], parent, depth;
    }
  }

  /** generate_maze: carves a perfect maze into a board whose walls all
      stand and whose cells are all unvisited; rng(k) is the k-th value
      rand() returns. On return every cell is visited, the walls that are
      down are exactly those of a spanning tree rooted at the top-left cell
      (the ghost parent and depth maps), and there are height * width - 1
      of them. Only visited marks and walls change (the modifies clause):
      path marks are left alone. */
  method GenerateMaze(board: array2<Cell?>, ghost cells: set<Cell>, rng: nat -> nat)
    returns (ghost parent: map<Cell, Cell>, ghost depth: map<Cell, nat>)
    requires Valid(board, cells) && board.Length0 > 0 && board.Length1 > 0
    requires AllWallsUp(board, cells) && NoneVisited(board, cells)
    modifies cells`visited, cells`right, cells`bottom
    ensures AllVisited(board, cells)
    ensures PerfectMaze(board, cells, parent, depth)
    ensures |TreeWalls(parent)| == board.Length0 * board.Length1 - 1
  {
    var stack := new Cell?[board.Length0 * board.Length1];
    var top: nat := 0;
    var init: Cell := board[0, 0];
    init.visited := true;
    top := Push(init, stack, top);
    ghost var vis := {init};
    ghost var st: seq<Cell> := [init];
    parent, depth := map[], map[init := 0];
    var calls := 0;
    while top != 0
      invariant StackHolds(stack, top, st)
      invariant Marked(cells, vis) && Frontier(cells, vis, st)
      invariant TreeOver(vis, init, parent, depth) && WallsDownExactly(cells, TreeWalls(parent))
      decreases cells - vis, top
    {
      top, calls, vis, st, parent, depth := GenerateStep(board, cells, rng, stack, top, calls, init, vis, st, parent, depth);
    }
    ClosedIsAll(board, cells, vis);
    assert vis == cells;
    TreeWallsCount(board, cells, parent, depth);
  }
}
