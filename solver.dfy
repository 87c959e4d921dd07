/** Maze solving: a depth-first search from the top-left cell through the
    open passages, recording in a predecessor table (one slot per cell, in
    row-major order) the cell each cell was reached from, stopping when the
    bottom-right cell comes off the stack; then a walk back from that cell
    along the predecessor table that marks every cell it passes as being on
    the path.

    The solver runs on the perfect maze the generator carved, after the
    visited marks were cleared; the generator's spanning tree (parent and
    depth) is passed along as a ghost witness. Because that tree is rooted
    at the search's own start, the search reaches every cell from its tree
    parent, and the predecessor of a cell is its parent. */
module Solver {
  import opened CellRecord
  import opened Board
  import opened Spanning
  import opened Stack

  // ---- the predecessor table ----

  /** The slot of cell c in the predecessor table: rows of board.Length1
      slots, one after another. */
  function Slot(board: array2<Cell?>, c: Cell): int {
    c.y * board.Length1 + c.x
  }

  lemma RowMajorBound(height: int, width: int, x: int, y: int)
    requires 0 <= x < width && 0 <= y < height
    ensures 0 <= y * width + x < height * width
  {
    assert (height - 1) * width - y * width == (height - 1 - y) * width;
    assert 0 <= (height - 1 - y) * width;
    assert (height - 1) * width + width == height * width;
  }

  lemma RowMajorOrder(width: int, x1: int, y1: int, x2: int, y2: int)
    requires 0 <= x1 < width && 0 <= x2 < width && 0 <= y1 < y2
    ensures y1 * width + x1 < y2 * width + x2
  {
    var d := y2 - y1 - 1;
    assert 0 <= d * width;
    assert y2 * width == y1 * width + d * width + width;
  }

  /** Every cell of the board has a slot inside the table. */
  lemma SlotInRange(board: array2<Cell?>, cells: set<Cell>, c: Cell)
    requires Valid(board, cells) && c in cells
    ensures 0 <= Slot(board, c) < board.Length0 * board.Length1
  {
    RowMajorBound(board.Length0, board.Length1, c.x, c.y);
  }

  /** Distinct cells of the board have distinct slots. */
  lemma SlotInjective(board: array2<Cell?>, cells: set<Cell>, a: Cell, b: Cell)
    requires Valid(board, cells) && a in cells && b in cells
    ensures Slot(board, a) == Slot(board, b) <==> a == b
  {
    if a.y < b.y {
      RowMajorOrder(board.Length1, a.x, a.y, b.x, b.y);
    } else if b.y < a.y {
      RowMajorOrder(board.Length1, b.x, b.y, a.x, a.y);
    } else if a.x == b.x {
      SameCoordinatesSameCell(board, cells, a, b);
    }
  }

  /** The table prev holds, for every cell of seen, its tree parent, and for
      every other cell whatever init, the table's initial contents, held in
      that slot. */
  ghost predicate Backlinks(board: array2<Cell?>, cells: set<Cell>, prev: seq<Cell?>, parent: map<Cell, Cell>,
                            seen: set<Cell>, init: seq<Cell?>)
  {
    seen <= parent.Keys && |prev| == |init| == board.Length0 * board.Length1 &&
    forall c {:trigger Slot(board, c)} :: c in cells ==>
      0 <= Slot(board, c) < |prev| && prev[Slot(board, c)] == (if c in seen then parent[c] else init[Slot(board, c)])
  }

  /** Recording the parent of one more cell in its slot keeps every other
      cell's entry. */
  lemma BacklinksExtend(board: array2<Cell?>, cells: set<Cell>, prev: seq<Cell?>, parent: map<Cell, Cell>,
                        seen: set<Cell>, init: seq<Cell?>, n: Cell)
    requires Valid(board, cells) && Backlinks(board, cells, prev, parent, seen, init)
    requires n in cells && n in parent
    ensures 0 <= Slot(board, n) < |prev|
    ensures Backlinks(board, cells, prev[Slot(board, n) := parent[n]], parent, seen + {n}, init)
  {
    forall c | c in cells
      ensures prev[Slot(board, n) := parent[n]][Slot(board, c)] == (if c in seen + {n} then parent[c] else init[Slot(board, c)])
    {
      SlotInjective(board, cells, c, n);
    }
  }

  // ---- the search ----

  /** In a perfect maze every predecessor the search records is an
      adjacent cell joined to its successor by an open passage. */
  lemma BacklinksArePassages(board: array2<Cell?>, cells: set<Cell>, parent: map<Cell, Cell>, depth: map<Cell, nat>,
                             prev: seq<Cell?>, seen: set<Cell>, init: seq<Cell?>)
    requires Valid(board, cells) && PerfectMaze(board, cells, parent, depth)
    requires Backlinks(board, cells, prev, parent, seen, init)
    ensures forall c :: c in seen ==>
      0 <= Slot(board, c) < |prev| && prev[Slot(board, c)] != null && Open(prev[Slot(board, c)], c)
  {
    forall c | c in seen ensures 0 <= Slot(board, c) < |prev| && prev[Slot(board, c)] != null && Open(prev[Slot(board, c)], c) {
      assert c in cells && prev[Slot(board, c)] == parent[c] && parent[c] in cells;
      PassageIsTreeEdge(board, cells, parent, depth, parent[c], c);
    }
  }

  /** The state of the search between two passes of its loop, in terms of
      the visited set vis, the stack contents st (bottom first) and the set
      seen of cells whose predecessor is recorded:
      - the goal has not been visited;
      - the stack holds distinct unvisited cells, each of them the start or
        a cell of seen;
      - until the first pass the stack holds just the start, and from then
        on the start is visited;
      - every cell of seen hangs from a visited parent, and every visited
        cell other than the start is in seen;
      - every child of a visited cell is visited or on the stack. */
  ghost predicate SearchState(cells: set<Cell>, start: Cell, goal: Cell, parent: map<Cell, Cell>,
                              vis: set<Cell>, st: seq<Cell>, seen: set<Cell>)
  {
    vis <= cells && goal !in vis && seen <= parent.Keys &&
    (forall k, l :: 0 <= k < l < |st| ==> st[k] != st[l]) &&
    (forall k :: 0 <= k < |st| ==> st[k] in cells && st[k] !in vis && (st[k] == start || st[k] in seen)) &&
    (start in vis || (vis == {} && st == [start])) &&
    (forall c :: c in seen ==> parent[c] in vis) &&
    (forall c :: c in vis && c != start ==> c in seen) &&
    (forall d {:trigger parent[d]} :: d in parent && parent[d] in vis ==> d in vis || d in st)
  }

  /** While the goal is unvisited the stack is not empty: otherwise the
      visited cells would hold the start and every child of each of their
      cells, hence the whole board, the goal included. So the search never
      runs out of cells before it pops the goal. */
  lemma NeverEmpty(cells: set<Cell>, start: Cell, goal: Cell, parent: map<Cell, Cell>, depth: map<Cell, nat>,
                   vis: set<Cell>, st: seq<Cell>, seen: set<Cell>)
    requires TreeOver(cells, start, parent, depth) && goal in cells
    requires SearchState(cells, start, goal, parent, vis, st, seen)
    ensures |st| > 0
  {
    if |st| == 0 {
      DownClosedIsAll(cells, start, parent, depth, vis);
    }
  }

  /** In a perfect maze under search, the unvisited cells an open passage
      leads to from a visited cell whose own parent is visited are exactly
      that cell's unvisited children, and the query lists each of them once. */
  lemma ConnectedAreChildren(board: array2<Cell?>, cells: set<Cell>, parent: map<Cell, Cell>, depth: map<Cell, nat>,
                             start: Cell, vis: set<Cell>, cur: Cell, ns: seq<Cell>)
    requires Valid(board, cells) && PerfectMaze(board, cells, parent, depth) && start == board[0, 0]
    requires Marked(cells, vis) && cur in vis && vis <= cells && (cur == start || parent[cur] in vis)
    requires ns == ConnectedNeighbors(board, cells, cur.x, cur.y)
    ensures forall k, l :: 0 <= k < l < |ns| ==> ns[k] != ns[l]
    ensures forall n :: n in ns <==> n in cells && n in parent && parent[n] == cur && n !in vis
    ensures forall n :: n in ns ==> n in cells && n in parent && parent[n] == cur
    ensures InDirectionOrder(cur.x, cur.y, ns)
  {
    ConnectedNeighborsMembers(board, cells, cur.x, cur.y);
    ConnectedNeighborsOrder(board, cells, cur.x, cur.y);
    OrderedDistinct(cur.x, cur.y, ns);
    forall n | n in cells ensures Open(cur, n) <==> (n in parent && parent[n] == cur) || (cur in parent && parent[cur] == n) {
      PassageIsTreeEdge(board, cells, parent, depth, cur, n);
    }
  }

  /** A list in direction order holds no cell twice. */
  lemma OrderedDistinct(x: int, y: int, q: seq<Cell>)
    requires InDirectionOrder(x, y, q)
    ensures forall k, l :: 0 <= k < l < |q| ==> q[k] != q[l]
  {
  }

  /** After a visit the stack still holds no cell twice. */
  lemma VisitKeepsDistinct(cells: set<Cell>, start: Cell, goal: Cell, parent: map<Cell, Cell>, depth: map<Cell, nat>,
                           vis: set<Cell>, st: seq<Cell>, seen: set<Cell>, cur: Cell, vis': set<Cell>, ns: seq<Cell>, st': seq<Cell>)
    requires TreeOver(cells, start, parent, depth)
    requires SearchState(cells, start, goal, parent, vis, st, seen)
    requires |st| > 0 && cur == st[|st| - 1] && cur != goal && vis' == vis + {cur}
    requires forall k, l :: 0 <= k < l < |ns| ==> ns[k] != ns[l]
    requires forall n :: n in ns <==> n in cells && n in parent && parent[n] == cur && n !in vis'
    requires st' == st[..|st| - 1] + ns
    ensures forall k, l :: 0 <= k < l < |st'| ==> st'[k] != st'[l]
  {
    var rest := st[..|st| - 1];
    forall k, l | 0 <= k < l < |st'| ensures st'[k] != st'[l] {
      if l >= |rest| {
        var n := st'[l];
        assert n == ns[l - |rest|] && parent[n] == cur;
        if k < |rest| {
          assert st'[k] == st[k] && st[k] != cur;
          assert n != start && n !in seen;
        }
      } else {
        assert st'[k] == st[k] && st'[l] == st[l];
      }
    }
  }

  /** After a visit every cell on the stack is an unvisited cell of the
      board, and the start or a cell with a recorded predecessor. */
  lemma VisitKeepsEntries(cells: set<Cell>, start: Cell, goal: Cell, parent: map<Cell, Cell>, depth: map<Cell, nat>,
                          vis: set<Cell>, st: seq<Cell>, seen: set<Cell>, cur: Cell, vis': set<Cell>, ns: seq<Cell>,
                          st': seq<Cell>, seen': set<Cell>)
    requires TreeOver(cells, start, parent, depth)
    requires SearchState(cells, start, goal, parent, vis, st, seen)
    requires |st| > 0 && cur == st[|st| - 1] && cur != goal && vis' == vis + {cur}
    requires forall k, l :: 0 <= k < l < |ns| ==> ns[k] != ns[l]
    requires forall n :: n in ns <==> n in cells && n in parent && parent[n] == cur && n !in vis'
    requires forall c :: c in seen' <==> c in seen || c in ns
    requires st' == st[..|st| - 1] + ns
    ensures forall k :: 0 <= k < |st'| ==> st'[k] in cells && st'[k] !in vis' && (st'[k] == start || st'[k] in seen')
  {
    var rest := st[..|st| - 1];
    forall k | 0 <= k < |st'| ensures st'[k] in cells && st'[k] !in vis' && (st'[k] == start || st'[k] in seen') {
      if k < |rest| {
        assert st'[k] == st[k] && st[k] != st[|st| - 1];
      }
    }
  }

  /** After a visit every child of a visited cell is visited or on the
      stack. */
  lemma VisitKeepsClosure(cells: set<Cell>, start: Cell, goal: Cell, parent: map<Cell, Cell>, depth: map<Cell, nat>,
                          vis: set<Cell>, st: seq<Cell>, seen: set<Cell>, cur: Cell, vis': set<Cell>, ns: seq<Cell>, st': seq<Cell>)
    requires TreeOver(cells, start, parent, depth)
    requires SearchState(cells, start, goal, parent, vis, st, seen)
    requires |st| > 0 && cur == st[|st| - 1] && cur != goal && vis' == vis + {cur}
    requires forall k, l :: 0 <= k < l < |ns| ==> ns[k] != ns[l]
    requires forall n :: n in ns <==> n in cells && n in parent && parent[n] == cur && n !in vis'
    requires st' == st[..|st| - 1] + ns
    ensures forall d {:trigger parent[d]} :: d in parent && parent[d] in vis' ==> d in vis' || d in st'
  {
    var rest := st[..|st| - 1];
    forall d | d in parent && parent[d] in vis' ensures d in vis' || d in st' {
      if parent[d] in vis && d in st && d != cur {
        var k :| 0 <= k < |st| && st[k] == d;
        assert st'[k] == d;
      } else if d !in vis' && parent[d] == cur {
        assert d in ns;
        var k :| 0 <= k < |ns| && ns[k] == d;
        assert st'[|rest| + k] == d;
      }
    }
  }

  /** Visiting the top cell cur of the stack, which is not the goal, and
      pushing its unvisited children ns, each recorded with cur as its
      predecessor, keeps the search state. */
  lemma VisitKeeps(cells: set<Cell>, start: Cell, goal: Cell, parent: map<Cell, Cell>, depth: map<Cell, nat>,
                   vis: set<Cell>, st: seq<Cell>, seen: set<Cell>, cur: Cell, vis': set<Cell>, ns: seq<Cell>)
    returns (seen': set<Cell>)
    requires TreeOver(cells, start, parent, depth)
    requires SearchState(cells, start, goal, parent, vis, st, seen)
    requires |st| > 0 && cur == st[|st| - 1] && cur != goal && vis' == vis + {cur}
    requires forall k, l :: 0 <= k < l < |ns| ==> ns[k] != ns[l]
    requires forall n :: n in ns <==> n in cells && n in parent && parent[n] == cur && n !in vis'
    ensures forall c :: c in seen' <==> c in seen || c in ns
    ensures SearchState(cells, start, goal, parent, vis', st[..|st| - 1] + ns, seen')
  {
    seen' := seen + set n | n in ns;
    var st' := st[..|st| - 1] + ns;
    VisitKeepsDistinct(cells, start, goal, parent, depth, vis, st, seen, cur, vis', ns, st');
    VisitKeepsEntries(cells, start, goal, parent, depth, vis, st, seen, cur, vis', ns, st', seen');
    VisitKeepsClosure(cells, start, goal, parent, depth, vis, st, seen, cur, vis', ns, st');
  }

  /** A stack of distinct unvisited cells leaves a slot free once any cell
      has been visited. */
  lemma Room(cells: set<Cell>, start: Cell, goal: Cell, parent: map<Cell, Cell>, vis: set<Cell>, st: seq<Cell>,
             seen: set<Cell>, cur: Cell)
    requires SearchState(cells, start, goal, parent, vis, st, seen) && cur in vis
    ensures |st| < |cells|
  {
    DistinctBound(st, cells - {cur});
    assert cells == (cells - {cur}) + {cur};
  }

  /** The for loop of solve_maze's search: pushes the count cells of unvis,
      bottom first, and records the visited cell current as each one's
      predecessor; each of them is a child of current. */
  method PushAll(board: array2<Cell?>, ghost cells: set<Cell>, ghost parent: map<Cell, Cell>,
                 stack: array<Cell?>, top: nat, prev: array<Cell?>, unvis: array<Cell?>, count: nat, current: Cell,
                 ghost init: seq<Cell?>, ghost rest: seq<Cell>, ghost seen: set<Cell>, ghost ns: seq<Cell>, ghost seen': set<Cell>)
    returns (top': nat)
    requires Valid(board, cells) && stack != prev && unvis != stack && unvis != prev
    requires count <= unvis.Length && unvis[..count] == ns && |rest + ns| < |cells| && |cells| == stack.Length
    requires StackHolds(stack, top, rest) && Backlinks(board, cells, prev[..], parent, seen, init)
    requires forall n :: n in ns ==> n in cells && n in parent && parent[n] == current
    requires forall c :: c in seen' <==> c in seen || c in ns
    modifies stack, prev
    ensures StackHolds(stack, top', rest + ns) && Backlinks(board, cells, prev[..], parent, seen', init)
  {
    top' := top;
    ghost var s: set<Cell> := seen;
    for i := 0 to count
      invariant top' == top + i && StackHolds(stack, top', rest + ns[..i])
      invariant Backlinks(board, cells, prev[..], parent, s, init)
      invariant forall c :: c in s <==> c in seen || c in ns[..i]
    {
      var n := unvis[i];
      assert n == ns[i] && ns[i] in ns;
      top' := Push(n, stack, top');
      assert rest + ns[..i + 1] == rest + ns[..i] + [n];
      BacklinksExtend(board, cells, prev[..], parent, s, init, n);
      prev[Slot(board, n)] := current;
      s := s + {ns[i]};
      assert ns[..i + 1] == ns[..i] + [n];
    }
    assert ns[..count] == ns;
    assert s == seen';
  }

  /** The rest of a pass once the popped cell current is marked visited:
      collects its unvisited connected neighbours and pushes them, each
      with current as its predecessor. */
  method Expand(board: array2<Cell?>, ghost cells: set<Cell>, ghost parent: map<Cell, Cell>, ghost depth: map<Cell, nat>,
                stack: array<Cell?>, top: nat, prev: array<Cell?>, unvis: array<Cell?>, current: Cell,
                ghost start: Cell, ghost goal: Cell,
                ghost init: seq<Cell?>, ghost vis: set<Cell>, ghost st: seq<Cell>, ghost seen: set<Cell>)
    returns (top': nat, ghost st': seq<Cell>, ghost seen': set<Cell>, ghost ns: seq<Cell>)
    requires Valid(board, cells) && PerfectMaze(board, cells, parent, depth)
    requires start == board[0, 0] && goal == board[board.Length0 - 1, board.Length1 - 1]
    requires stack.Length == board.Length0 * board.Length1 && stack != prev
    requires unvis.Length == 4 && unvis != stack && unvis != prev
    requires SearchState(cells, start, goal, parent, vis, st, seen)
    requires |st| > 0 && current == st[|st| - 1] && current != goal
    requires StackHolds(stack, top, st[..|st| - 1]) && Marked(cells, vis + {current})
    requires Backlinks(board, cells, prev[..], parent, seen, init)
    modifies stack, prev, unvis
    ensures StackHolds(stack, top', st') && Backlinks(board, cells, prev[..], parent, seen', init)
    ensures SearchState(cells, start, goal, parent, vis + {current}, st', seen')
    ensures ns == old(ConnectedNeighbors(board, cells, current.x, current.y))
    ensures forall n :: n in ns <==> n in cells && n in parent && parent[n] == current && n !in vis + {current}
    ensures InDirectionOrder(current.x, current.y, ns)
    ensures st' == st[..|st| - 1] + ns && forall c :: c in seen' <==> c in seen || c in ns
  {
    ns := ConnectedNeighbors(board, cells, current.x, current.y);
    ghost var rest := st[..|st| - 1];
    ghost var vis' := vis + {current};
    assert current == start || parent[current] in vis';
    ConnectedAreChildren(board, cells, parent, depth, start, vis', current, ns);
    seen' := VisitKeeps(cells, start, goal, parent, depth, vis, st, seen, current, vis', ns);
    st' := rest + ns;
    CellCount(board, cells);
    Room(cells, start, goal, parent, vis', st', seen', current);
    var count := GetUnvisitedConnectedNeighbors(board, cells, current.x, current.y, unvis);
    top' := PushAll(board, cells, parent, stack, top, prev, unvis, count, current, init, rest, seen, ns, seen');
  }

  /** The pass of the search loop after the popped cell turned out not to be
      the goal: marks it visited and expands it. */
  method Visit(board: array2<Cell?>, ghost cells: set<Cell>, ghost parent: map<Cell, Cell>, ghost depth: map<Cell, nat>,
               stack: array<Cell?>, top: nat, prev: array<Cell?>, unvis: array<Cell?>, current: Cell,
               ghost start: Cell, ghost goal: Cell,
               ghost init: seq<Cell?>, ghost vis: set<Cell>, ghost st: seq<Cell>, ghost seen: set<Cell>)
    returns (top': nat, ghost vis': set<Cell>, ghost st': seq<Cell>, ghost seen': set<Cell>, ghost ns: seq<Cell>)
    requires Valid(board, cells) && PerfectMaze(board, cells, parent, depth)
    requires start == board[0, 0] && goal == board[board.Length0 - 1, board.Length1 - 1]
    requires stack.Length == board.Length0 * board.Length1 && stack != prev
    requires unvis.Length == 4 && unvis != stack && unvis != prev
    requires SearchState(cells, start, goal, parent, vis, st, seen)
    requires |st| > 0 && current == st[|st| - 1] && current != goal
    requires StackHolds(stack, top, st[..|st| - 1]) && Marked(cells, vis)
    requires Backlinks(board, cells, prev[..], parent, seen, init)
    modifies stack, prev, unvis, current`visited
    ensures StackHolds(stack, top', st') && Marked(cells, vis') && Backlinks(board, cells, prev[..], parent, seen', init)
    ensures SearchState(cells, start, goal, parent, vis', st', seen')
    ensures cells - vis' < cells - vis
    ensures vis' == vis + {current}
    ensures forall n :: n in ns <==> n in cells && n in parent && parent[n] == current && n !in vis'
    ensures InDirectionOrder(current.x, current.y, ns)
    ensures st' == st[..|st| - 1] + ns && forall c :: c in seen' <==> c in seen || c in ns
  {
    MarkVisited(current, cells, vis);
    vis' := vis + {current};
    top', st', seen', ns := Expand(board, cells, parent, depth, stack, top, prev, unvis, current, start, goal, init, vis, st, seen);
  }

  /** One pass of the search loop: pops the top cell; when it is the goal
      the search is over, and otherwise the cell is visited and its
      unvisited connected neighbours are pushed. */
  method Pass(board: array2<Cell?>, ghost cells: set<Cell>, ghost parent: map<Cell, Cell>, ghost depth: map<Cell, nat>,
              stack: array<Cell?>, top: nat, prev: array<Cell?>, start: Cell, goal: Cell,
              ghost init: seq<Cell?>, ghost vis: set<Cell>, ghost st: seq<Cell>, ghost seen: set<Cell>)
    returns (found: bool, top': nat, ghost vis': set<Cell>, ghost st': seq<Cell>, ghost seen': set<Cell>, ghost ns: seq<Cell>)
    requires Valid(board, cells) && PerfectMaze(board, cells, parent, depth)
    requires start == board[0, 0] && goal == board[board.Length0 - 1, board.Length1 - 1]
    requires stack.Length == board.Length0 * board.Length1 && stack != prev
    requires StackHolds(stack, top, st) && |st| > 0
    requires Marked(cells, vis) && Backlinks(board, cells, prev[..], parent, seen, init)
    requires SearchState(cells, start, goal, parent, vis, st, seen)
    modifies stack, prev, cells`visited
    ensures found <==> st[|st| - 1] == goal
    ensures StackHolds(stack, top', st')
    ensures found ==> vis' == vis && st' == st[..|st| - 1] && seen' == seen && ns == []
    ensures !found ==> vis' == vis + {st[|st| - 1]} && st' == st[..|st| - 1] + ns
    ensures !found ==> forall n :: n in ns <==> n in cells && n in parent && parent[n] == st[|st| - 1] && n !in vis'
    ensures !found ==> InDirectionOrder(st[|st| - 1].x, st[|st| - 1].y, ns)
    ensures found ==> Marked(cells, vis') && Backlinks(board, cells, prev[..], parent, seen', init)
    ensures found ==> goal !in vis' && (goal != start ==> start in vis')
    ensures found ==> (forall c :: c in vis' && c != start ==> c in seen') && forall c :: c in seen' ==> parent[c] in vis'
    ensures found ==> (goal == start || goal in seen') && forall c :: c in seen' ==> parent[c] == start || parent[c] in seen'
    ensures !found ==> StackHolds(stack, top', st') && |st'| > 0
    ensures !found ==> Marked(cells, vis') && Backlinks(board, cells, prev[..], parent, seen', init)
    ensures !found ==> SearchState(cells, start, goal, parent, vis', st', seen')
    ensures !found ==> cells - vis' < cells - vis
  {
    var current;
    current, top' := PopHeld(stack, top, st);
    found := current == goal;
    if found {
      vis', st', seen', ns := vis, st[..|st| - 1], seen, [];
      assert forall c :: c in seen ==> parent[c] in vis;
      return;
    }
    var unvis := new Cell?[4];
    top', vis', st', seen', ns := Visit(board, cells, parent, depth, stack, top', prev, unvis, current, start, goal, init, vis, st, seen);
    NeverEmpty(cells, start, goal, parent, depth, vis', st', seen');
  }

  /** solve_maze's search (the loop and what precedes it): from the start,
      pop a cell; stop if it is the goal; otherwise visit it. It never runs
      out of cells before the goal comes off the stack. On return the table
      holds the tree parent of every cell of seen, the other slots are as
      they were, the goal is the start or in seen, and the parent of every
      cell of seen is the start or in seen. The cells marked visited are
      those of vis, the cells popped before the goal: the goal is not among
      them, the start is unless it is the goal, every other one is in seen,
      and the parent of every cell of seen is one of them. */
  method SearchPath(board: array2<Cell?>, ghost cells: set<Cell>, ghost parent: map<Cell, Cell>, ghost depth: map<Cell, nat>,
                    prev: array<Cell?>)
    returns (ghost seen: set<Cell>, ghost vis: set<Cell>)
    requires Valid(board, cells) && board.Length0 > 0 && board.Length1 > 0
    requires PerfectMaze(board, cells, parent, depth) && NoneVisited(board, cells)
    requires prev.Length == board.Length0 * board.Length1
    modifies cells`visited, prev
    ensures Marked(cells, vis) && board[board.Length0 - 1, board.Length1 - 1] !in vis
    ensures board[board.Length0 - 1, board.Length1 - 1] != board[0, 0] ==> board[0, 0] in vis
    ensures vis - {board[0, 0]} <= seen && forall c :: c in seen ==> c in parent && parent[c] in vis
    ensures Backlinks(board, cells, prev[..], parent, seen, old(prev[..]))
    ensures board[board.Length0 - 1, board.Length1 - 1] == board[0, 0] || board[board.Length0 - 1, board.Length1 - 1] in seen
    ensures forall c :: c in seen ==> parent[c] == board[0, 0] || parent[c] in seen
  {
    var start := board[0, 0];
    var end := board[board.Length0 - 1, board.Length1 - 1];
    forall c | c in cells ensures 0 <= Slot(board, c) < prev.Length {
      SlotInRange(board, cells, c);
    }
    ghost var init := prev[..];
    var stack := new Cell?[board.Length0 * board.Length1];
    var top: nat := 0;
    top := Push(start, stack, top);
    vis := {};
    ghost var st: seq<Cell> := [start];
    seen := {};
    while top != 0
      invariant StackHolds(stack, top, st) && |st| > 0
      invariant Marked(cells, vis) && Backlinks(board, cells, prev[..], parent, seen, init)
      invariant SearchState(cells, start, end, parent, vis, st, seen)
      decreases cells - vis
    {
      var found;
      ghost var ns;
      found, top, vis, st, seen, ns := Pass(board, cells, parent, depth, stack, top, prev, start, end, init, vis, st, seen);
      if found {
        break;
      }
    }
  }

  // ---- the walk back ----

  /** The cells from c up to the root other than the root itself are all
      in seen when c is the root or in seen and seen holds, with every cell,
      its parent unless that is the root. */
  lemma {:induction false} PathInSeen(cells: set<Cell>, root: Cell, parent: map<Cell, Cell>, depth: map<Cell, nat>,
                                      seen: set<Cell>, c: Cell)
    requires TreeOver(cells, root, parent, depth) && c in cells && (c == root || c in seen)
    requires seen <= parent.Keys && forall d :: d in seen ==> parent[d] == root || parent[d] in seen
    ensures forall k :: 0 <= k < |PathToRoot(cells, root, parent, depth, c)| - 1 ==> PathToRoot(cells, root, parent, depth, c)[k] in seen
    decreases depth[c]
  {
    if c != root {
      PathInSeen(cells, root, parent, depth, seen, parent[c]);
      var p, q := PathToRoot(cells, root, parent, depth, c), PathToRoot(cells, root, parent, depth, parent[c]);
      assert p == [c] + q;
      forall k | 0 <= k < |p| - 1 ensures p[k] in seen {
        if k > 0 {
          assert p[k] == q[k - 1];
        }
      }
    }
  }

  /** Every cell other than c on the path from c up to the root is in
      vis when the parent of every cell of seen is, and c and seen are as
      in PathInSeen. */
  lemma PathVisited(cells: set<Cell>, root: Cell, parent: map<Cell, Cell>, depth: map<Cell, nat>,
                    seen: set<Cell>, vis: set<Cell>, c: Cell)
    requires TreeOver(cells, root, parent, depth) && c in cells && (c == root || c in seen)
    requires seen <= parent.Keys && forall d :: d in seen ==> parent[d] == root || parent[d] in seen
    requires forall d :: d in seen ==> parent[d] in vis
    ensures forall d :: d in PathToRoot(cells, root, parent, depth, c) && d != c ==> d in vis
  {
    var p := PathToRoot(cells, root, parent, depth, c);
    PathInSeen(cells, root, parent, depth, seen, c);
    forall d | d in p && d != c ensures d in vis {
      var k :| 0 <= k < |p| && p[k] == d;
      assert p[k - 1] in seen && parent[p[k - 1]] == d;
    }
  }

  /** With predecessors recorded for the cells of seen only, and seen closed
      under taking parents up to the root, the slot of the k-th cell on the
      path from goal to the root holds the next cell on that path, and the
      root's slot holds null. */
  lemma NextOnPath(board: array2<Cell?>, cells: set<Cell>, root: Cell, parent: map<Cell, Cell>, depth: map<Cell, nat>,
                   links: seq<Cell?>, seen: set<Cell>, init: seq<Cell?>, goal: Cell, k: nat)
    requires TreeOver(cells, root, parent, depth) && goal in cells
    requires Backlinks(board, cells, links, parent, seen, init) && forall i :: 0 <= i < |init| ==> init[i] == null
    requires goal == root || goal in seen
    requires forall c :: c in seen ==> parent[c] == root || parent[c] in seen
    requires k < |PathToRoot(cells, root, parent, depth, goal)|
    ensures 0 <= Slot(board, PathToRoot(cells, root, parent, depth, goal)[k]) < |links|
    ensures links[Slot(board, PathToRoot(cells, root, parent, depth, goal)[k])] ==
      if k + 1 < |PathToRoot(cells, root, parent, depth, goal)| then PathToRoot(cells, root, parent, depth, goal)[k + 1] else null
  {
    var p := PathToRoot(cells, root, parent, depth, goal);
    PathInSeen(cells, root, parent, depth, seen, goal);
    if k + 1 < |p| {
      assert p[k] in seen;
    } else {
      assert p[k] == root && root !in seen;
    }
  }

  /** The walk at the end of solve_maze: from the goal, mark the cell and
      move to its predecessor, until the predecessor is null. With a table
      that was all null before the search, the walk follows the tree from
      the goal to the start and stops there: exactly the cells of that path
      become marked, and no mark is cleared. Walls and visited marks are
      left as they were. */
  method MarkPath(board: array2<Cell?>, ghost cells: set<Cell>, ghost root: Cell, ghost parent: map<Cell, Cell>,
                  ghost depth: map<Cell, nat>, prev: array<Cell?>, goal: Cell, ghost seen: set<Cell>, ghost init: seq<Cell?>,
                  ghost vis: set<Cell>)
    requires TreeOver(cells, root, parent, depth) && goal in cells && Marked(cells, vis)
    requires Backlinks(board, cells, prev[..], parent, seen, init) && forall i :: 0 <= i < |init| ==> init[i] == null
    requires goal == root || goal in seen
    requires forall c :: c in seen ==> parent[c] == root || parent[c] in seen
    modifies cells`onPath
    ensures forall c :: c in cells ==> c.onPath == (old(c.onPath) || c in PathToRoot(cells, root, parent, depth, goal))
    ensures forall c :: c in cells ==> c.right == old(c.right) && c.bottom == old(c.bottom)
    ensures Marked(cells, vis)
  {
    ghost var path := PathToRoot(cells, root, parent, depth, goal);
    ghost var links := prev[..];
    var current: Cell? := goal;
    ghost var k := 0;
    while current != null
      invariant 0 <= k <= |path| && current == (if k < |path| then path[k] else null)
      invariant prev[..] == links
      invariant forall c {:trigger c.onPath} :: c in cells ==> c.onPath == (old(c.onPath) || c in path[..k])
      decreases |path| - k
    {
      NextOnPath(board, cells, root, parent, depth, links, seen, init, goal, k);
      assert path[..k + 1] == path[..k] + [current];
      current.onPath := true;
      current := prev[Slot(board, current)];
      k := k + 1;
    }
    assert path[..k] == path;
  }

  /** solve_maze with the predecessor table filled with null before the
      search: the cells marked on return are those marked before and the
      cells of the tree path from the bottom-right cell to the top-left
      cell. The search leaves the bottom-right cell unvisited, and every
      other cell of that path visited. Walls are not touched. */
  method SolveMaze(board: array2<Cell?>, ghost cells: set<Cell>, ghost parent: map<Cell, Cell>, ghost depth: map<Cell, nat>)
    requires Valid(board, cells) && board.Length0 > 0 && board.Length1 > 0
    requires PerfectMaze(board, cells, parent, depth) && NoneVisited(board, cells)
    modifies cells`visited, cells`onPath
    ensures forall c :: c in cells ==> c.right == old(c.right) && c.bottom == old(c.bottom)
    ensures forall c :: c in cells ==>
      c.onPath == (old(c.onPath) || c in PathToRoot(cells, board[0, 0], parent, depth, board[board.Length0 - 1, board.Length1 - 1]))
    ensures !board[board.Length0 - 1, board.Length1 - 1].visited
    ensures forall c :: c in PathToRoot(cells, board[0, 0], parent, depth, board[board.Length0 - 1, board.Length1 - 1]) ==>
      c == board[board.Length0 - 1, board.Length1 - 1] || c.visited
  {
    var prev := new Cell?[board.Length0 * board.Length1](_ => null);
    ghost var init := prev[..];
    ghost var seen, vis := SearchPath(board, cells, parent, depth, prev);
    assert board[board.Length0 - 1, board.Length1 - 1] in cells;
    PathVisited(cells, board[0, 0], parent, depth, seen, vis, board[board.Length0 - 1, board.Length1 - 1]);
    MarkPath(board, cells, board[0, 0], parent, depth, prev, board[board.Length0 - 1, board.Length1 - 1], seen, init, vis);
  }

  // ---- the table as written ----

  /** Where the walk at the end of solve_maze stands after steps moves from
      c, with table prev: it stops at null, and a slot outside the table
      counts as null. */
  function WalkFrom(board: array2<Cell?>, prev: seq<Cell?>, c: Cell?, steps: nat): Cell?
    decreases steps
  {
    if c == null || steps == 0 then c
    else if 0 <= Slot(board, c) < |prev| then WalkFrom(board, prev, prev[Slot(board, c)], steps - 1)
    else null
  }

  /** The search never writes the start cell's slot, so after it the slot
      holds what it held before the search. */
  lemma StartSlotUntouched(board: array2<Cell?>, cells: set<Cell>, parent: map<Cell, Cell>, depth: map<Cell, nat>,
                           prev: seq<Cell?>, seen: set<Cell>, init: seq<Cell?>)
    requires Valid(board, cells) && board.Length0 > 0 && board.Length1 > 0
    requires TreeOver(cells, board[0, 0], parent, depth) && Backlinks(board, cells, prev, parent, seen, init)
    ensures 0 <= Slot(board, board[0, 0]) < |init| && prev[Slot(board, board[0, 0])] == init[Slot(board, board[0, 0])]
  {
    assert board[0, 0] in cells;
  }

  /** As written, solve_maze declares the table without initialising it.
      If the start cell's slot happens to hold the start cell itself, the
      walk, once it reaches the start, stays there for ever: every number of
      moves from the start lands on the start, never on null, so the loop
      never ends. */
  lemma {:induction false} UninitialisedWalkNeverEnds(board: array2<Cell?>, cells: set<Cell>, parent: map<Cell, Cell>,
                                                      depth: map<Cell, nat>, prev: seq<Cell?>, seen: set<Cell>,
                                                      init: seq<Cell?>, steps: nat)
    requires Valid(board, cells) && board.Length0 > 0 && board.Length1 > 0
    requires TreeOver(cells, board[0, 0], parent, depth) && Backlinks(board, cells, prev, parent, seen, init)
    requires 0 <= Slot(board, board[0, 0]) < |init| && init[Slot(board, board[0, 0])] == board[0, 0]
    ensures WalkFrom(board, prev, board[0, 0], steps) == board[0, 0]
    decreases steps
  {
    if steps > 0 {
      StartSlotUntouched(board, cells, parent, depth, prev, seen, init);
      UninitialisedWalkNeverEnds(board, cells, parent, depth, prev, seen, init, steps - 1);
    }
  }

  /** Moving a + b steps is moving a steps and then b more. */
  lemma {:induction false} WalkConcat(board: array2<Cell?>, prev: seq<Cell?>, c: Cell?, a: nat, b: nat)
    ensures WalkFrom(board, prev, c, a + b) == WalkFrom(board, prev, WalkFrom(board, prev, c, a), b)
    decreases a
  {
    if c != null && a > 0 && 0 <= Slot(board, c) < |prev| {
      WalkConcat(board, prev, prev[Slot(board, c)], a - 1, b);
    } else if c == null && b > 0 {
      assert WalkFrom(board, prev, null, b) == null;
    }
  }

  /** Whatever the table held before the search, the walk from a reached
      cell follows the tree path: after k moves, for k up to the cell's
      depth, it stands on the k-th cell of the path, the last being the
      start. */
  lemma {:induction false} WalkAlongPath(board: array2<Cell?>, cells: set<Cell>, parent: map<Cell, Cell>,
                                         depth: map<Cell, nat>, prev: seq<Cell?>, seen: set<Cell>,
                                         init: seq<Cell?>, c: Cell, k: nat)
    requires Valid(board, cells) && board.Length0 > 0 && board.Length1 > 0
    requires TreeOver(cells, board[0, 0], parent, depth) && Backlinks(board, cells, prev, parent, seen, init)
    requires c in cells && (c == board[0, 0] || c in seen)
    requires forall d :: d in seen ==> parent[d] == board[0, 0] || parent[d] in seen
    requires k <= depth[c]
    ensures WalkFrom(board, prev, c, k) == PathToRoot(cells, board[0, 0], parent, depth, c)[k]
    decreases k
  {
    if k > 0 {
      assert c != board[0, 0] && prev[Slot(board, c)] == parent[c];
      WalkAlongPath(board, cells, parent, depth, prev, seen, init, parent[c], k - 1);
      assert PathToRoot(cells, board[0, 0], parent, depth, c) == [c] + PathToRoot(cells, board[0, 0], parent, depth, parent[c]);
    }
  }

  /** solve_maze as written: the walk starts at the goal, reaches the start
      after as many moves as the goal's depth, and, when the start's
      unwritten slot happens to hold the start cell, never reaches null,
      so the loop at the end of solve_maze never ends. */
  lemma UninitialisedWalkFromGoalNeverEnds(board: array2<Cell?>, cells: set<Cell>, parent: map<Cell, Cell>,
                                           depth: map<Cell, nat>, prev: seq<Cell?>, seen: set<Cell>,
                                           init: seq<Cell?>, goal: Cell, steps: nat)
    requires Valid(board, cells) && board.Length0 > 0 && board.Length1 > 0
    requires TreeOver(cells, board[0, 0], parent, depth) && Backlinks(board, cells, prev, parent, seen, init)
    requires 0 <= Slot(board, board[0, 0]) < |init| && init[Slot(board, board[0, 0])] == board[0, 0]
    requires goal == board[board.Length0 - 1, board.Length1 - 1] && (goal == board[0, 0] || goal in seen)
    requires forall d :: d in seen ==> parent[d] == board[0, 0] || parent[d] in seen
    ensures WalkFrom(board, prev, goal, depth[goal]) == board[0, 0]
    ensures WalkFrom(board, prev, goal, steps) != null
  {
    var d := depth[goal];
    WalkAlongPath(board, cells, parent, depth, prev, seen, init, goal, d);
    if steps <= d {
      WalkAlongPath(board, cells, parent, depth, prev, seen, init, goal, steps);
    } else {
      var more := steps - d;
      WalkConcat(board, prev, goal, d, more);
      UninitialisedWalkNeverEnds(board, cells, parent, depth, prev, seen, init, more);
      assert WalkFrom(board, prev, goal, d + more) == board[0, 0];
    }
  }

  /** With the table null before the search, the walk from the goal is the
      tree path: after k moves, for k up to the path's length less one, it
      stands on the k-th cell of the path, and one move later on null. */
  lemma {:induction false} NullWalkFollowsPath(board: array2<Cell?>, cells: set<Cell>, parent: map<Cell, Cell>,
                                               depth: map<Cell, nat>, prev: seq<Cell?>, seen: set<Cell>,
                                               init: seq<Cell?>, c: Cell, k: nat)
    requires Valid(board, cells) && board.Length0 > 0 && board.Length1 > 0
    requires TreeOver(cells, board[0, 0], parent, depth) && Backlinks(board, cells, prev, parent, seen, init)
    requires forall i :: 0 <= i < |init| ==> init[i] == null
    requires c in cells && (c == board[0, 0] || c in seen)
    requires forall d :: d in seen ==> parent[d] == board[0, 0] || parent[d] in seen
    requires k <= depth[c] + 1
    ensures WalkFrom(board, prev, c, k) == (if k <= depth[c] then PathToRoot(cells, board[0, 0], parent, depth, c)[k] else null)
    decreases k
  {
    var p := PathToRoot(cells, board[0, 0], parent, depth, c);
    if k > 0 {
      var next := prev[Slot(board, c)];
      if c == board[0, 0] {
        assert c !in seen && next == null;
      } else {
        assert next == parent[c];
        NullWalkFollowsPath(board, cells, parent, depth, prev, seen, init, parent[c], k - 1);
        var q := PathToRoot(cells, board[0, 0], parent, depth, parent[c]);
        assert p == [c] + q;
      }
    }
  }
}
