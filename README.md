# Maze engine: generation and solving, verified

This project models the engine of a small maze program. The board is a grid
of cells, and each cell owns two walls: the one on its south side (`bottom`)
and the one on its east side (`right`). It also carries two marks, `visited`
and `onPath`.

The engine runs in three stages:

- **Generation.** A randomised depth-first search with an explicit stack
  starts at the top-left cell. It knocks down one wall at a time until every
  cell has been reached.
- **Reset.** The visited marks are cleared.
- **Solving.** A second depth-first search runs from the top-left cell
  through the open passages until the bottom-right cell comes off the stack.
  Each cell's predecessor is recorded in a table with one slot per cell, in
  row-major order. A walk back along that table from the bottom-right cell
  then marks the path.

The model is imperative, like the C code:

- Cells are objects whose fields the methods update.
- The board is a two-dimensional array of cell references.
- The stack and the predecessor table are arrays.
- Every loop of the modelled functions is a `while` or `for` loop with its
  invariants.

The proofs use ghost state alongside the arrays:

- The generator returns, as a ghost witness, the spanning tree it grows. For
  each cell except the first, `parent` records the cell it was carved from
  and `depth` its distance from the first cell.
- The main theorem about generation: every cell ends up visited, and the
  walls that are down are exactly the tree's walls (`Spanning.PerfectMaze`).
  There are height × width − 1 of them.
- The solver takes that witness. It proves that the search never runs out
  of cells before it pops the goal, that no cell is pushed twice, that the
  stack never overflows, and that every recorded predecessor is the tree
  parent.
- Consequently, the walk back marks exactly the cells of the tree path from
  the bottom-right cell to the top-left cell. Each step of that path goes
  through an open passage (`Engine.Run`).
- The search leaves the bottom-right cell unvisited and every other cell of
  that path visited.

Modules, one per part of the program:

- `CellRecord` (cells.dfy): the cell record.
- `Stack` (stack.dfy): push and pop over an array with a top index.
- `Board` (board.dfy):
  - board construction and the bounds-checked lookup;
  - the walls: a wall is named by the cell that stores it;
  - the two neighbour queries, and resetting the visited marks.
- `Spanning` (spanning.dfy): spanning trees, perfect mazes, wall counting.
- `Generator` (generator.dfy): `generate_maze` and `gen_rand`.
- `Solver` (solver.dfy): `solve_maze`.
- `Engine` (engine.dfy): the order in which `main` runs the stages.

Parameters and dimensions:

- The C program fixes the board at 45 rows by 80 columns. The model takes
  any positive height (`board.Length0`) and width (`board.Length1`).
- `rand()` becomes a parameter `rng: nat -> nat`: `rng(k)` is the k-th raw
  value that `rand()` returns.

## Model

| member | source | states |
|---|---|---|
| CellRecord.Cell.constructor | maze.c:27-37 | a new cell has the given column and row, both of its walls standing, and neither mark set |
| Stack.Pop | stack.c:4-9 | the index drops by one; the element in that slot is returned; the slot is cleared; the slots below are unchanged |
| Stack.PopHeld | stack.c:4-9 | popping a stack that holds the sequence st returns its last element, and the stack then holds st without it |
| Stack.Push | stack.c:11-15 | the item is written at the index and the index rises by one; the stack holds the old contents followed by the item |
| Stack.PushThenPop | stack.c:4-15 | a push followed by a pop returns the pushed item, restores the index, and leaves that slot empty |
| Board.NewMaze | maze.c:39-47 | a fresh height-by-width board; every slot holds a new cell with that slot's coordinates; all walls stand; no marks are set |
| Board.CellCount | maze.c:41-45 | a board holds exactly height × width distinct cells |
| Board.GetCell | maze.c:59-65 | the result is null exactly when (x, y) is off the board; otherwise it is the board's cell with those coordinates |
| Board.MarkVisited | maze.c:217 | setting one cell's visited flag adds exactly that cell to the visited set |
| Board.SharedWall | maze.c:201-216 | the wall between two adjacent cells belongs to one of them and separates exactly their two squares |
| Board.UnvisitedAtSpec | maze.c:80-95 | the lookup in one direction yields at most one cell, and it yields a cell exactly when the square holds an unvisited cell |
| Board.UnvisitedNeighborsMembers | maze.c:67-97 | the unvisited neighbours are exactly the unvisited cells on the four adjacent squares, and there are at most four |
| Board.UnvisitedNeighborsOrder | maze.c:80-95 | the unvisited neighbours are listed north, east, south, west |
| Board.Offer | maze.c:80-83 | one direction of a query: when the cell is kept it goes into the slot at the count and the count rises by one; otherwise nothing changes |
| Board.GetUnvisitedNeighbors | maze.c:67-97 | the front of the buffer holds the unvisited neighbours in direction order; the count says how many; the other slots are unchanged |
| Board.PassageAtSpec | maze.c:113-128 | a neighbour in one direction is kept exactly when it exists, is unvisited, and the wall between it and the current cell is down |
| Board.ConnectedNeighborsMembers | maze.c:99-130 | the connected unvisited neighbours are exactly the unvisited cells joined to the current cell by an open passage, and there are at most four |
| Board.ConnectedNeighborsOrder | maze.c:113-128 | the connected unvisited neighbours are listed north, east, south, west |
| Board.GetUnvisitedConnectedNeighbors | maze.c:99-130 | the front of the buffer holds the connected unvisited neighbours in direction order; the count says how many; the other slots are unchanged |
| Board.ClosedIsAll | maze.c:193-221 | a set of cells that holds the top-left cell and every cell beside each of its cells is the whole board |
| Board.ResetVisited | maze.c:258-265 | afterwards no cell is visited; walls and path marks are as before |
| Generator.GenRand | maze.c:132-134 | the result lies in min..max |
| Generator.GenRandCovers | maze.c:132-134 | every value of min..max comes out for some raw value |
| Generator.FrontierGrow | maze.c:217-218 | visiting a new cell and pushing it keeps the frontier invariant |
| Generator.FrontierRetreat | maze.c:194-197 | a popped cell with no unvisited neighbour may leave the stack without breaking the frontier invariant |
| Generator.Carve | maze.c:201-216 | exactly the wall between the current cell and the chosen neighbour joins the walls that are down |
| Generator.Extend | maze.c:201-218 | the neighbour joins the tree under the current cell, is marked visited and is pushed; tree, frontier and walls stay consistent, and fewer cells remain unvisited |
| Generator.Examine | maze.c:195-196 | the buffer holds the popped cell's unvisited neighbours; each is an adjacent unvisited board cell; a zero count means every neighbour is visited |
| Generator.Advance | maze.c:197-218 | the popped cell is pushed back, and the neighbour n in slot GenRand(0, count − 1, rng(calls)) of the buffer is chosen; n goes onto the stack above it, joins the visited set, and hangs under the popped cell in the tree; the call counter rises by one |
| Generator.GenerateStep | maze.c:194-219 | one pass keeps the invariants. Either an unvisited cell n becomes visited, is pushed above the top cell and hangs under it in the tree, or nothing changes but the top cell leaves the stack |
| Generator.GenerateMaze | maze.c:187-223 | every cell ends up visited; the walls that are down are exactly those of a spanning tree rooted at the top-left cell; there are height × width − 1 of them |
| Spanning.GrowTree | maze.c:201-218 | hanging a new adjacent cell under a tree cell keeps a tree, and adds exactly one wall that was not a tree wall before |
| Spanning.PathToRoot | maze.c:250-255 | the path from a cell to the root has depth + 1 cells, starts at the cell, ends at the root, and steps from each cell to its parent |
| Spanning.DownClosedIsAll | maze.c:234-247 | a set that holds the root and, with each cell, all of its children holds the whole tree |
| Spanning.PassageIsTreeEdge | maze.c:187-223 | in a perfect maze two cells are joined by a passage exactly when one is the other's parent |
| Spanning.PathToRootDistinct | maze.c:250-255 | the path from a cell to the root passes no cell twice |
| Spanning.PathWithinBoard | maze.c:250-255 | the path from any cell to the root has at most height × width cells, so the walk back takes at most height × width − 1 steps |
| Spanning.PathToRootIsPassage | maze.c:250-255 | in a perfect maze consecutive cells on the path to the root are joined by an open passage |
| Spanning.TreeWallsCount | maze.c:187-223 | a tree that spans the board knocks down one wall fewer than there are cells |
| Solver.SlotInRange | maze.c:244 | the table slot of every board cell lies inside the table |
| Solver.SlotInjective | maze.c:244 | two cells have the same slot exactly when they are the same cell |
| Solver.BacklinksExtend | maze.c:244 | recording one more cell's predecessor changes only that cell's slot |
| Solver.BacklinksArePassages | maze.c:240-245 | every recorded predecessor is non-null and joined to its cell by an open passage |
| Solver.NeverEmpty | maze.c:234-238 | while the goal is unvisited the stack is not empty, so the search pops the goal before the stack runs out |
| Solver.ConnectedAreChildren | maze.c:241 | in a perfect maze the connected unvisited neighbours of a visited cell are exactly its unvisited tree children, each listed once |
| Solver.VisitKeepsDistinct | maze.c:242-243 | after a visit the stack still holds no cell twice |
| Solver.VisitKeepsEntries | maze.c:239-245 | after a visit every stacked cell is an unvisited board cell, and it is either the start or has a recorded predecessor |
| Solver.VisitKeepsClosure | maze.c:239-245 | after a visit every child of a visited cell is visited or on the stack |
| Solver.VisitKeeps | maze.c:239-245 | visiting the top cell and pushing its unvisited children keeps the search state |
| Solver.Room | maze.c:230 | once a cell is visited, the stack of distinct unvisited cells is smaller than the board, so a push fits |
| Solver.PushAll | maze.c:242-245 | each neighbour is pushed in order and gets the current cell as its predecessor; the other slots stay |
| Solver.Expand | maze.c:240-245 | the pushed cells ns are exactly the connected unvisited neighbours of the current cell, which are its unvisited tree children, in direction order. The stack becomes the old one without its top, followed by ns, and ns joins the recorded cells. The stack, table and search state stay consistent |
| Solver.Visit | maze.c:239-245 | the popped cell, which is not the goal, joins the visited set. Its unvisited tree children are pushed in direction order in place of it, and they join the recorded cells. The state stays consistent |
| Solver.Pass | maze.c:235-246 | the search ends exactly when the popped cell is the goal; then the goal is reachable through recorded predecessors, the visited marks are unchanged, the goal is not among them, and the start is unless it is the goal. Otherwise the popped cell joins the visited set, its unvisited tree children take its place on the stack in direction order, the state stays consistent, and the stack is non-empty |
| Solver.SearchPath | maze.c:227-249 | the search ends with the goal popped, so the goal stays unvisited; the cells marked visited are the start (unless it is the goal) and cells whose predecessor was recorded, and the parent of every recorded cell is visited; the table holds the tree parent of every cell reached and the initial contents elsewhere; predecessors lead back to the start |
| Solver.PathInSeen | maze.c:250-255 | every cell on the tree path from the goal, except the root, has a recorded predecessor |
| Solver.NextOnPath | maze.c:253 | with a null-initialised table, the slot of each cell on the path holds the next cell on the path, and the root's slot holds null |
| Solver.MarkPath | maze.c:250-255 | the walk back marks exactly the cells of the tree path from the goal to the start and clears no mark; walls and visited marks are unchanged |
| Solver.PathVisited | maze.c:239-245 | every cell of the tree path from the goal other than the goal itself is visited when the parent of every recorded cell is |
| Solver.SolveMaze | maze.c:225-256 | with the table null-initialised, exactly the cells on the tree path from the bottom-right cell to the top-left cell become marked on the path; walls are unchanged; the bottom-right cell is left unvisited and every other cell of the path visited |
| Solver.StartSlotUntouched | maze.c:242-245 | the search never writes the start cell's slot |
| Solver.UninitialisedWalkNeverEnds | maze.c:250-255 | when the unwritten start slot happens to hold the start cell, the walk from the start never reaches null |
| Solver.WalkAlongPath | maze.c:250-254 | whatever the table held before the search, the walk from a reached cell stands on the k-th cell of its tree path after k moves, up to the start |
| Solver.UninitialisedWalkFromGoalNeverEnds | maze.c:250-254 | as written, the walk from the goal reaches the start after depth(goal) moves; when the start's unwritten slot holds the start cell, it never reaches null |
| Solver.NullWalkFollowsPath | maze.c:250-255 | with a null-initialised table, the walk from a reached cell visits the tree path cell by cell and then reaches null |
| Engine.BuildMaze | maze.c:317-334 | a fresh board carved into a perfect maze with height × width − 1 open walls; afterwards no cell is visited or on the path |
| Engine.SolutionPath | maze.c:227-228 | the tree path from the bottom-right cell starts there and ends at the top-left cell. Every step goes through an open passage. It holds no cell twice and has at most height × width cells |
| Engine.Run | maze.c:312-337 | one run yields a perfect maze. The cells marked on the path are exactly those of the tree path from the bottom-right cell to the top-left cell. Every step of that path is an open passage. It holds no cell twice and has at most height × width cells. Its first cell is not visited and every other one is |

## Left out

- Rendering is not modelled: `draw_maze`, SDL set-up and teardown
  (`init_sdl`, `close_sdl`), and the calls to them inside the loops. They
  only read the board.
- The event loop of `main` is not modelled, apart from its stage order. That
  covers polling for quit and the `visited_maze` flag. `Engine.Run` runs
  that order once.
- `delete_maze` and every `malloc` and `free` are not modelled. Dafny
  manages memory itself.
- `rand()` itself is not modelled. The generator takes the raw values as a
  parameter. The modulo bias of `gen_rand` is kept but not quantified.
- The bit-field widths of the cell record are not modelled. The flags
  become `bool` fields, the coordinates `int`.
- The fixed 45 × 80 board size is not kept. Every operation works for any
  positive height and width.
- Board.GetCell: it checks bounds against the board's own dimensions, not
  the fixed 45 × 80 constants.
- Generator.GenerateMaze: it requires a board with every wall standing and
  no cell visited, which is what `new_maze` produces. The C function has no
  such precondition.
- Generator.GenerateMaze: it states that path marks are untouched only
  through its modifies clause, not as an ensures.
- The ghost spanning tree is not in the C program. The generator returns it
  and the solver takes it, so that solving can be specified against the maze
  that was generated.
- Solver.SolveMaze: it requires a perfect maze whose tree is rooted at the
  top-left cell, with no cell visited. The C function states no
  precondition, but the program only ever solves the maze it has just
  generated and reset.
- The loop bodies of `generate_maze` and `solve_maze` are split into helper
  methods so that each proof stays small. The helpers are Examine, Advance,
  Extend and GenerateStep for generation, and Pass, Visit, Expand and PushAll
  for solving. They perform the same steps in the same order, with one
  harmless exception: Pass allocates the four-slot neighbour buffer before
  Visit marks the popped cell, whereas maze.c:239-240 marks the cell and then
  declares the buffer filled with null. A fresh local buffer does not touch
  the board, so the order does not matter.
- The search has no check that skips a cell already visited when it is
  popped. The model proves that in a perfect maze the stack never holds a
  visited cell, so such a check would never fire (`Solver.SearchState`,
  kept by `Solver.Pass`).
- The start cell's slot of the predecessor table is never written. See
  Findings.

## Findings

| source | as written | input that shows it | evidently intended | confidence | as-written member | corrected member |
|---|---|---|---|---|---|---|
| maze.c:231 | the predecessor table `prev` is a local array with no initialiser. The search never writes the start cell's slot. The walk at maze.c:250-255 stops only on a null entry, so when it reaches the start it reads an indeterminate value | any board, e.g. 1 × 1, where the start is the goal and the walk reads `prev[0]` before anything is stored; if that slot holds the start cell, the walk never ends | the table starts out all null, so the walk stops right after marking the start | not executed | Solver.UninitialisedWalkFromGoalNeverEnds | Solver.SolveMaze |
