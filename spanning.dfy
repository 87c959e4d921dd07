/** Spanning trees over the cells of a board. The generator grows one,
    recording for every cell but the first the cell it was carved from;
    the wall between a cell and that parent is the one it knocked down.
    The solver relies on the result being a perfect maze: the passages are
    exactly the tree's edges. */
module Spanning {
  import opened CellRecord
  import opened Board

  /** parent and depth describe a tree over vis rooted at root: every other
      cell of vis has a parent in vis on an adjacent square, one level
      nearer the root. */
  ghost predicate TreeOver(vis: set<Cell>, root: Cell, parent: map<Cell, Cell>, depth: map<Cell, nat>) {
    root in vis && parent.Keys == vis - {root} && depth.Keys == vis && depth[root] == 0 &&
    forall c {:trigger parent[c]} :: c in parent ==> parent[c] in vis && Adjacent(parent[c], c) && depth[c] == depth[parent[c]] + 1
  }

  /** The walls between each cell of the tree and its parent. */
  ghost function TreeWalls(parent: map<Cell, Cell>): set<Wall>
    requires forall c :: c in parent ==> Adjacent(parent[c], c)
  {
    set c | c in parent :: SharedWall(parent[c], c)
  }

  /** The walls that are down are exactly those in down. */
  ghost predicate WallsDownExactly(cells: set<Cell>, down: set<Wall>)
    reads cells`right, cells`bottom
  {
    forall c {:trigger c.right} {:trigger c.bottom} :: c in cells ==> (c.right <==> RightWall(c) !in down) && (c.bottom <==> BottomWall(c) !in down)
  }

  /** A perfect maze: a tree spans the board from its top-left cell, and
      the walls that are down are exactly the tree's walls. */
  ghost predicate PerfectMaze(board: array2<Cell?>, cells: set<Cell>, parent: map<Cell, Cell>, depth: map<Cell, nat>)
    requires Valid(board, cells)
    reads board, cells`right, cells`bottom
  {
    board.Length0 > 0 && board.Length1 > 0 &&
    TreeOver(cells, board[0, 0], parent, depth) && WallsDownExactly(cells, TreeWalls(parent))
  }

  /** Hanging a new cell n under an adjacent tree cell keeps a tree, and adds
      exactly one wall, the one between them, which was not a tree wall. */
  lemma GrowTree(vis: set<Cell>, root: Cell, parent: map<Cell, Cell>, depth: map<Cell, nat>, curr: Cell, n: Cell)
    requires TreeOver(vis, root, parent, depth)
    requires curr in vis && n !in vis && Adjacent(curr, n)
    requires forall c :: c in vis ==> c.x != n.x || c.y != n.y
    ensures TreeOver(vis + {n}, root, parent[n := curr], depth[n := depth[curr] + 1])
    ensures SharedWall(curr, n) !in TreeWalls(parent)
    ensures TreeWalls(parent[n := curr]) == TreeWalls(parent) + {SharedWall(curr, n)}
  {
    var p := parent[n := curr];
    forall c | c in parent ensures SharedWall(parent[c], c) != SharedWall(curr, n) {
      assert (n.x, n.y) !in Sides(SharedWall(parent[c], c));
    }
    assert TreeWalls(p) == TreeWalls(parent) + {SharedWall(curr, n)} by {
      forall w | w in TreeWalls(p) ensures w in TreeWalls(parent) + {SharedWall(curr, n)} {
        var c: Cell :| c in p && w == SharedWall(p[c], c);
        if c != n {
          assert w == SharedWall(parent[c], c);
        }
      }
      assert SharedWall(p[n], n) in TreeWalls(p);
      forall w | w in TreeWalls(parent) ensures w in TreeWalls(p) {
        var c: Cell :| c in parent && w == SharedWall(parent[c], c);
        assert p[c] == parent[c];
      }
    }
  }

  /** The cells from c up to the root, each followed by its parent. */
  ghost function PathToRoot(vis: set<Cell>, root: Cell, parent: map<Cell, Cell>, depth: map<Cell, nat>, c: Cell): (p: seq<Cell>)
    requires TreeOver(vis, root, parent, depth) && c in vis
    ensures |p| == depth[c] + 1 && p[0] == c && p[|p| - 1] == root
    ensures forall k :: 0 <= k < |p| ==> p[k] in vis
    ensures forall k :: 0 <= k < |p| - 1 ==> p[k] in parent && parent[p[k]] == p[k + 1]
    decreases depth[c]
  {
    if c == root then [c] else [c] + PathToRoot(vis, root, parent, depth, parent[c])
  }

  /** Depth falls by one at each step of the path to the root. */
  lemma {:induction false} PathToRootDepths(vis: set<Cell>, root: Cell, parent: map<Cell, Cell>, depth: map<Cell, nat>, c: Cell)
    requires TreeOver(vis, root, parent, depth) && c in vis
    ensures forall k :: 0 <= k < |PathToRoot(vis, root, parent, depth, c)| ==>
      depth[PathToRoot(vis, root, parent, depth, c)[k]] == depth[c] - k
    decreases depth[c]
  {
    if c != root {
      PathToRootDepths(vis, root, parent, depth, parent[c]);
      var p, q := PathToRoot(vis, root, parent, depth, c), PathToRoot(vis, root, parent, depth, parent[c]);
      assert p == [c] + q;
      forall k | 0 <= k < |p| ensures depth[p[k]] == depth[c] - k {
        if k > 0 {
          assert p[k] == q[k - 1];
        }
      }
    }
  }

  /** The path to the root passes no cell twice. */
  lemma PathToRootDistinct(vis: set<Cell>, root: Cell, parent: map<Cell, Cell>, depth: map<Cell, nat>, c: Cell)
    requires TreeOver(vis, root, parent, depth) && c in vis
    ensures forall k, l :: 0 <= k < l < |PathToRoot(vis, root, parent, depth, c)| ==>
      PathToRoot(vis, root, parent, depth, c)[k] != PathToRoot(vis, root, parent, depth, c)[l]
  {
    PathToRootDepths(vis, root, parent, depth, c);
  }

  /** On a board, the path from any cell to the root has at most height
      times width cells, so a walk along it takes at most height times
      width minus one steps. */
  lemma PathWithinBoard(board: array2<Cell?>, cells: set<Cell>, root: Cell, parent: map<Cell, Cell>, depth: map<Cell, nat>, c: Cell)
    requires Valid(board, cells) && TreeOver(cells, root, parent, depth) && c in cells
    ensures |PathToRoot(cells, root, parent, depth, c)| <= board.Length0 * board.Length1
  {
    PathToRootDistinct(cells, root, parent, depth, c);
    DistinctBound(PathToRoot(cells, root, parent, depth, c), cells);
    CellCount(board, cells);
  }

  /** A set holding the root and, with every cell, each of its children
      holds the whole tree. */
  lemma {:induction false} DownClosedIsAll(vis: set<Cell>, root: Cell, parent: map<Cell, Cell>, depth: map<Cell, nat>, s: set<Cell>)
    requires TreeOver(vis, root, parent, depth)
    requires root in s
    requires forall d :: d in parent && parent[d] in s ==> d in s
    ensures vis <= s
  {
    forall c | c in vis ensures c in s {
      AncestorsIn(vis, root, parent, depth, s, c);
    }
  }

  lemma {:induction false} AncestorsIn(vis: set<Cell>, root: Cell, parent: map<Cell, Cell>, depth: map<Cell, nat>, s: set<Cell>, c: Cell)
    requires TreeOver(vis, root, parent, depth) && c in vis
    requires root in s
    requires forall d :: d in parent && parent[d] in s ==> d in s
    ensures c in s
    decreases depth[c]
  {
    if c != root {
      AncestorsIn(vis, root, parent, depth, s, parent[c]);
    }
  }

  lemma PairsEqual(a1: (int, int), a2: (int, int), b1: (int, int), b2: (int, int))
    requires {a1, a2} == {b1, b2}
    ensures (a1 == b1 && a2 == b2) || (a1 == b2 && a2 == b1)
  {
    assert a1 in {b1, b2} && a2 in {b1, b2} && b1 in {a1, a2} && b2 in {a1, a2};
  }

  /** Two pairs of adjacent cells on a board share a wall only when they are
      the same pair. */
  lemma SameWallSamePair(board: array2<Cell?>, cells: set<Cell>, a: Cell, b: Cell, p: Cell, c: Cell)
    requires Valid(board, cells) && a in cells && b in cells && p in cells && c in cells
    requires Adjacent(a, b) && Adjacent(p, c) && SharedWall(a, b) == SharedWall(p, c)
    ensures (a == p && b == c) || (a == c && b == p)
  {
    PairsEqual((a.x, a.y), (b.x, b.y), (p.x, p.y), (c.x, c.y));
  }

  /** In a perfect maze two cells are joined by a passage exactly when one
      is the other's parent. */
  lemma PassageIsTreeEdge(board: array2<Cell?>, cells: set<Cell>, parent: map<Cell, Cell>, depth: map<Cell, nat>, a: Cell, b: Cell)
    requires Valid(board, cells) && PerfectMaze(board, cells, parent, depth)
    requires a in cells && b in cells
    ensures Open(a, b) <==> (a in parent && parent[a] == b) || (b in parent && parent[b] == a)
  {
    if Open(a, b) {
      var w := SharedWall(a, b);
      assert w in TreeWalls(parent) by {
        assert w.cell in cells && !Stands(w);
      }
      var c: Cell :| c in parent && SharedWall(parent[c], c) == w;
      SameWallSamePair(board, cells, a, b, parent[c], c);
    }
    if a in parent && parent[a] == b {
      SharedWallSymmetric(b, a);
      assert SharedWall(parent[a], a) in TreeWalls(parent);
    }
    if b in parent && parent[b] == a {
      assert SharedWall(parent[b], b) in TreeWalls(parent);
    }
  }

  /** In a perfect maze consecutive cells of a path to the root are joined
      by a passage. */
  lemma PathToRootIsPassage(board: array2<Cell?>, cells: set<Cell>, parent: map<Cell, Cell>, depth: map<Cell, nat>, c: Cell)
    requires Valid(board, cells) && PerfectMaze(board, cells, parent, depth) && c in cells
    ensures forall k :: 0 <= k < |PathToRoot(cells, board[0, 0], parent, depth, c)| - 1 ==>
      Open(PathToRoot(cells, board[0, 0], parent, depth, c)[k], PathToRoot(cells, board[0, 0], parent, depth, c)[k + 1])
  {
    var p := PathToRoot(cells, board[0, 0], parent, depth, c);
    forall k | 0 <= k < |p| - 1 ensures Open(p[k], p[k + 1]) {
      PassageIsTreeEdge(board, cells, parent, depth, p[k], p[k + 1]);
    }
  }

  /** Distinct cells of a tree on a board hang from their parents by
      distinct walls. */
  lemma TreeWallsInjective(board: array2<Cell?>, cells: set<Cell>, vis: set<Cell>, root: Cell,
                           parent: map<Cell, Cell>, depth: map<Cell, nat>, a: Cell, b: Cell)
    requires Valid(board, cells) && vis <= cells && TreeOver(vis, root, parent, depth)
    requires a in parent && b in parent
    ensures SharedWall(parent[a], a) == SharedWall(parent[b], b) ==> a == b
  {
    if SharedWall(parent[a], a) == SharedWall(parent[b], b) {
      SameWallSamePair(board, cells, parent[a], a, parent[b], b);
    }
  }

  /** The walls by which the cells of keys hang from their parents. */
  ghost function WallsOf(parent: map<Cell, Cell>, keys: set<Cell>): set<Wall>
    requires forall c :: c in parent ==> Adjacent(parent[c], c)
    requires keys <= parent.Keys
  {
    set c | c in keys :: SharedWall(parent[c], c)
  }

  /** Taking one cell k out of keys takes out exactly its wall, which no
      other cell of keys hangs by. */
  lemma WallsOfRemove(board: array2<Cell?>, cells: set<Cell>, vis: set<Cell>, root: Cell,
                      parent: map<Cell, Cell>, depth: map<Cell, nat>, keys: set<Cell>, k: Cell)
    requires Valid(board, cells) && vis <= cells && TreeOver(vis, root, parent, depth)
    requires keys <= parent.Keys && k in keys
    ensures WallsOf(parent, keys) == WallsOf(parent, keys - {k}) + {SharedWall(parent[k], k)}
    ensures SharedWall(parent[k], k) !in WallsOf(parent, keys - {k})
  {
    var rest := keys - {k};
    assert keys == rest + {k};
    forall c | c in rest ensures SharedWall(parent[c], c) != SharedWall(parent[k], k) {
      TreeWallsInjective(board, cells, vis, root, parent, depth, c, k);
    }
  }

  /** Each cell of keys contributes a wall of its own. */
  lemma {:induction false} WallsOfSize(board: array2<Cell?>, cells: set<Cell>, vis: set<Cell>, root: Cell,
                                       parent: map<Cell, Cell>, depth: map<Cell, nat>, keys: set<Cell>)
    requires Valid(board, cells) && vis <= cells && TreeOver(vis, root, parent, depth)
    requires keys <= parent.Keys
    ensures |WallsOf(parent, keys)| == |keys|
    decreases keys
  {
    if keys == {} {
      assert WallsOf(parent, keys) == {};
    } else {
      var k :| k in keys;
      WallsOfSize(board, cells, vis, root, parent, depth, keys - {k});
      WallsOfRemove(board, cells, vis, root, parent, depth, keys, k);
      assert keys == (keys - {k}) + {k};
    }
  }

  /** A tree spanning the board knocks down one wall fewer than the board
      has cells. */
  lemma TreeWallsCount(board: array2<Cell?>, cells: set<Cell>, parent: map<Cell, Cell>, depth: map<Cell, nat>)
    requires Valid(board, cells) && board.Length0 > 0 && board.Length1 > 0
    requires TreeOver(cells, board[0, 0], parent, depth)
    ensures |TreeWalls(parent)| == board.Length0 * board.Length1 - 1
  {
    CellCount(board, cells);
    WallsOfSize(board, cells, cells, board[0, 0], parent, depth, parent.Keys);
    assert TreeWalls(parent) == WallsOf(parent, parent.Keys);
    assert cells == parent.Keys + {board[0, 0]};
  }
}
