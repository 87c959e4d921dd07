/** The board: a height-by-width array of cell references, with the
    bounds-checked lookup, the wall accessors and the two neighbour queries
    the generator and the solver use. The height is board.Length0 and the
    width board.Length1. */
module Board {
  import opened CellRecord

  /** Every slot of the board holds a cell of cells whose coordinates are
      the slot's column and row. */
  ghost predicate Filled(board: array2<Cell?>, cells: set<Cell>)
    reads board
  {
    forall i, j :: 0 <= i < board.Length0 && 0 <= j < board.Length1 ==>
      board[i, j] != null && board[i, j].x == j && board[i, j].y == i && board[i, j] in cells
  }

  /** Every slot of the board holds a cell whose coordinates are the slot's
      column and row, and cells is exactly the set of cells on the board. */
  ghost predicate Valid(board: array2<Cell?>, cells: set<Cell>)
    reads board
  {
    Filled(board, cells) && forall c :: c in cells ==> OnBoard(board, c)
  }

  /** Cell c sits on the board in the slot its coordinates name. */
  ghost predicate OnBoard(board: array2<Cell?>, c: Cell)
    reads board
  {
    0 <= c.y < board.Length0 && 0 <= c.x < board.Length1 && board[c.y, c.x] == c
  }

  /** Two cells with the same coordinates on one board are the same cell. */
  lemma SameCoordinatesSameCell(board: array2<Cell?>, cells: set<Cell>, a: Cell, b: Cell)
    requires Valid(board, cells) && a in cells && b in cells
    requires a.x == b.x && a.y == b.y
    ensures a == b
  {
  }

  /** The first w cells of row i. */
  ghost function RowPrefix(board: array2<Cell?>, cells: set<Cell>, i: nat, w: nat): set<Cell>
    requires Filled(board, cells) && i < board.Length0 && w <= board.Length1
    reads board
  {
    if w == 0 then {} else RowPrefix(board, cells, i, w - 1) + {board[i, w - 1] as Cell}
  }

  /** The cells of the first h rows. */
  ghost function TopRows(board: array2<Cell?>, cells: set<Cell>, h: nat): set<Cell>
    requires Filled(board, cells) && h <= board.Length0
    reads board
  {
    if h == 0 then {} else TopRows(board, cells, h - 1) + RowPrefix(board, cells, h - 1, board.Length1)
  }

  lemma {:induction false} RowPrefixSize(board: array2<Cell?>, cells: set<Cell>, i: nat, w: nat)
    requires Filled(board, cells) && i < board.Length0 && w <= board.Length1
    ensures |RowPrefix(board, cells, i, w)| == w
    ensures forall c :: c in RowPrefix(board, cells, i, w) ==> c in cells && c.y == i && c.x < w
  {
    if w > 0 {
      RowPrefixSize(board, cells, i, w - 1);
      assert board[i, w - 1] !in RowPrefix(board, cells, i, w - 1);
    }
  }

  lemma {:induction false} TopRowsIn(board: array2<Cell?>, cells: set<Cell>, h: nat)
    requires Filled(board, cells) && h <= board.Length0
    ensures forall c :: c in TopRows(board, cells, h) ==> c in cells && c.y < h
  {
    if h > 0 {
      TopRowsIn(board, cells, h - 1);
      RowPrefixSize(board, cells, h - 1, board.Length1);
      var above, row := TopRows(board, cells, h - 1), RowPrefix(board, cells, h - 1, board.Length1);
      forall c | c in TopRows(board, cells, h) ensures c in cells && c.y < h {
        assert c in above || c in row;
      }
    }
  }

  lemma {:induction false} TopRowsSize(board: array2<Cell?>, cells: set<Cell>, h: nat)
    requires Filled(board, cells) && h <= board.Length0
    ensures |TopRows(board, cells, h)| == Rows(h, board.Length1)
  {
    if h > 0 {
      TopRowsSize(board, cells, h - 1);
      TopRowsIn(board, cells, h - 1);
      RowPrefixSize(board, cells, h - 1, board.Length1);
      NextRows(cells, TopRows(board, cells, h - 1), RowPrefix(board, cells, h - 1, board.Length1), h, board.Length1);
    }
  }

  lemma DisjointUnionSize<T>(a: set<T>, b: set<T>)
    requires forall c :: c in a ==> c !in b
    ensures |a + b| == |a| + |b|
  {
    assert a * b == {};
  }

  /** The number of cells in h rows of w cells, counted row by row. */
  ghost function Rows(h: nat, w: nat): nat
  {
    if h == 0 then 0 else Rows(h - 1, w) + w
  }

  lemma {:induction false} RowsProduct(h: nat, w: nat)
    ensures Rows(h, w) == h * w
  {
    if h > 0 {
      RowsProduct(h - 1, w);
      assert (h - 1) * w + w == h * w;
    }
  }

  /** A further row of w cells below h - 1 rows of cells makes h rows of
      cells. */
  lemma NextRows(cells: set<Cell>, above: set<Cell>, row: set<Cell>, h: nat, w: nat)
    requires h > 0 && |above| == Rows(h - 1, w) && |row| == w
    requires forall c :: c in above ==> c in cells && c.y < h - 1
    requires forall c :: c in row ==> c in cells && c.y == h - 1 && c.x < w
    ensures |above + row| == Rows(h, w)
  {
    DisjointUnionSize(above, row);
  }

  lemma {:induction false} RowPrefixCovers(board: array2<Cell?>, cells: set<Cell>, i: nat, w: nat)
    requires Filled(board, cells) && i < board.Length0 && w <= board.Length1
    ensures forall j :: 0 <= j < w ==> board[i, j] in RowPrefix(board, cells, i, w)
  {
    if w > 0 {
      RowPrefixCovers(board, cells, i, w - 1);
    }
  }

  lemma {:induction false} TopRowsCover(board: array2<Cell?>, cells: set<Cell>, h: nat)
    requires Valid(board, cells) && h <= board.Length0
    ensures forall c :: c in cells && c.y < h ==> c in TopRows(board, cells, h)
  {
    if h > 0 {
      TopRowsCover(board, cells, h - 1);
      RowPrefixCovers(board, cells, h - 1, board.Length1);
    }
  }

  /** The board holds exactly height times width distinct cells. */
  lemma CellCount(board: array2<Cell?>, cells: set<Cell>)
    requires Valid(board, cells)
    ensures |cells| == board.Length0 * board.Length1
  {
    TopRowsSize(board, cells, board.Length0);
    RowsProduct(board.Length0, board.Length1);
    TopRowsIn(board, cells, board.Length0);
    TopRowsCover(board, cells, board.Length0);
    assert cells == TopRows(board, cells, board.Length0);
  }

  /** A sequence without repeats whose elements lie in s is no longer than s
      is large. */
  lemma {:induction false} DistinctBound<T>(q: seq<T>, s: set<T>)
    requires forall k, l :: 0 <= k < l < |q| ==> q[k] != q[l]
    requires forall k :: 0 <= k < |q| ==> q[k] in s
    ensures |q| <= |s|
  {
    if |q| > 0 {
      var rest := q[1..];
      forall k | 0 <= k < |rest| ensures rest[k] in s - {q[0]} {
        assert rest[k] == q[k + 1];
      }
      DistinctBound(rest, s - {q[0]});
    }
  }

  ghost predicate AllWallsUp(board: array2<Cell?>, cells: set<Cell>)
    requires Valid(board, cells)
    reads board, cells`bottom, cells`right
  {
    forall c :: c in cells ==> c.bottom && c.right
  }

  ghost predicate NoneVisited(board: array2<Cell?>, cells: set<Cell>)
    requires Valid(board, cells)
    reads board, cells`visited
  {
    forall c :: c in cells ==> !c.visited
  }

  ghost predicate AllVisited(board: array2<Cell?>, cells: set<Cell>)
    requires Valid(board, cells)
    reads board, cells`visited
  {
    forall c :: c in cells ==> c.visited
  }

  ghost predicate NoneOnPath(board: array2<Cell?>, cells: set<Cell>)
    requires Valid(board, cells)
    reads board, cells`onPath
  {
    forall c :: c in cells ==> !c.onPath
  }

  /** Exactly the cells of vis are marked visited. */
  ghost predicate Marked(cells: set<Cell>, vis: set<Cell>)
    reads cells`visited
  {
    forall c {:trigger c.visited} :: c in cells ==> (c.visited <==> c in vis)
  }

  /** Sets the visited flag of a cell of the board: the marked cells become
      vis and that cell. */
  method MarkVisited(c: Cell, ghost cells: set<Cell>, ghost vis: set<Cell>)
    requires c in cells && Marked(cells, vis)
    modifies c`visited
    ensures Marked(cells, vis + {c})
  {
    c.visited := true;
  }

  /** Builds a height-by-width board of new cells, each knowing its own
      coordinates, with every wall standing and no cell marked. */
  method NewMaze(height: nat, width: nat) returns (board: array2<Cell?>, ghost cells: set<Cell>)
    ensures fresh(board) && board.Length0 == height && board.Length1 == width
    ensures Valid(board, cells) && fresh(cells)
    ensures AllWallsUp(board, cells) && NoneVisited(board, cells) && NoneOnPath(board, cells)
  {
    board := new Cell?[height, width];
    cells := {};
    for i := 0 to height
      invariant fresh(cells)
      invariant forall i', j :: 0 <= i' < i && 0 <= j < width ==>
        board[i', j] != null && board[i', j].x == j && board[i', j].y == i' && board[i', j] in cells
      invariant forall c :: c in cells ==>
        c.y < i && OnBoard(board, c) && c.bottom && c.right && !c.visited && !c.onPath
    {
      for j := 0 to width
        invariant fresh(cells)
        invariant forall i', j' :: (0 <= i' < i && 0 <= j' < width) || (i' == i && 0 <= j' < j) ==>
          board[i', j'] != null && board[i', j'].x == j' && board[i', j'].y == i' && board[i', j'] in cells
        invariant forall c :: c in cells ==>
          (c.y < i || (c.y == i && c.x < j)) && OnBoard(board, c) && c.bottom && c.right && !c.visited && !c.onPath
      {
        var c := new Cell(j, i);
        board[i, j] := c;
        cells := cells + {c};
      }
    }
  }

  /** The cell at column x, row y, or null when that square is off the board. */
  function GetCell(board: array2<Cell?>, ghost cells: set<Cell>, x: int, y: int): (c: Cell?)
    requires Valid(board, cells)
    reads board
    ensures c == null <==> x < 0 || y < 0 || x >= board.Length1 || y >= board.Length0
    ensures c != null ==> c.x == x && c.y == y && OnBoard(board, c)
  {
    if x < 0 || y < 0 || x > board.Length1 - 1 || y > board.Length0 - 1 then null else board[y, x]
  }

  /** Square (u, v) is one step north, east, south or west of square (x, y). */
  predicate Orthogonal(x: int, y: int, u: int, v: int) {
    (u == x && (v == y - 1 || v == y + 1)) || (v == y && (u == x + 1 || u == x - 1))
  }

  predicate Adjacent(a: Cell, b: Cell) {
    Orthogonal(a.x, a.y, b.x, b.y)
  }

  /** The position of a neighbour of (x, y) in the order north, east, south, west. */
  function Rank(x: int, y: int, c: Cell): nat {
    if c.y == y - 1 then 0 else if c.x == x + 1 then 1 else if c.y == y + 1 then 2 else 3
  }

  /** The cells of q are listed in strictly increasing direction rank. */
  predicate InDirectionOrder(x: int, y: int, q: seq<Cell>) {
    forall k, l :: 0 <= k < l < |q| ==> Rank(x, y, q[k]) < Rank(x, y, q[l])
  }

  lemma OrderedConcat(x: int, y: int, p: seq<Cell>, q: seq<Cell>)
    requires InDirectionOrder(x, y, p) && InDirectionOrder(x, y, q)
    requires forall a, b :: a in p && b in q ==> Rank(x, y, a) < Rank(x, y, b)
    ensures InDirectionOrder(x, y, p + q)
  {
    forall k, l | 0 <= k < l < |p + q| ensures Rank(x, y, (p + q)[k]) < Rank(x, y, (p + q)[l]) {
      if l < |p| {
      } else if k >= |p| {
        assert (p + q)[k] == q[k - |p|] && (p + q)[l] == q[l - |p|];
      } else {
        assert (p + q)[k] in p && (p + q)[l] in q;
      }
    }
  }

  /** A set of cells that holds the top-left cell and, with every cell, each
      cell beside it, holds the whole board. */
  lemma ClosedIsAll(board: array2<Cell?>, cells: set<Cell>, s: set<Cell>)
    requires Valid(board, cells) && board.Length0 > 0 && board.Length1 > 0
    requires board[0, 0] in s
    requires forall a, b :: a in s && b in cells && Adjacent(a, b) ==> b in s
    ensures cells <= s
  {
    forall c | c in cells ensures c in s {
      Reached(board, cells, s, c.y, c.x);
    }
  }

  lemma {:induction false} Reached(board: array2<Cell?>, cells: set<Cell>, s: set<Cell>, i: nat, j: nat)
    requires Valid(board, cells) && i < board.Length0 && j < board.Length1
    requires board[0, 0] in s
    requires forall a, b :: a in s && b in cells && Adjacent(a, b) ==> b in s
    ensures board[i, j] in s
    decreases i, j
  {
    if j > 0 {
      Reached(board, cells, s, i, j - 1);
      assert Adjacent(board[i, j - 1], board[i, j]);
    } else if i > 0 {
      Reached(board, cells, s, i - 1, 0);
      assert Adjacent(board[i - 1, 0], board[i, 0]);
    }
  }

  // ---- walls ----

  /** A wall, named by the cell that stores it: that cell's east wall or its south wall. */
  datatype Wall = RightWall(cell: Cell) | BottomWall(cell: Cell)

  /** Whether the wall stands. */
  function Stands(w: Wall): bool
    reads w.cell`right, w.cell`bottom
  {
    match w
    case RightWall(c) => c.right
    case BottomWall(c) => c.bottom
  }

  /** The two squares a wall separates. */
  function Sides(w: Wall): set<(int, int)> {
    match w
    case RightWall(c) => {(c.x, c.y), (c.x + 1, c.y)}
    case BottomWall(c) => {(c.x, c.y), (c.x, c.y + 1)}
  }

  /** The wall between two adjacent cells: a northern neighbour's south wall,
      a's own east wall, a's own south wall, or a western neighbour's east wall. */
  function SharedWall(a: Cell, b: Cell): (w: Wall)
    requires Adjacent(a, b)
    ensures Sides(w) == {(a.x, a.y), (b.x, b.y)}
    ensures w.cell == a || w.cell == b
  {
    if b.y == a.y - 1 then BottomWall(b)
    else if b.x == a.x + 1 then RightWall(a)
    else if b.y == a.y + 1 then BottomWall(a)
    else RightWall(b)
  }

  lemma SharedWallSymmetric(a: Cell, b: Cell)
    requires Adjacent(a, b)
    ensures Adjacent(b, a) && SharedWall(a, b) == SharedWall(b, a)
  {
  }

  /** There is a passage between a and b: they are adjacent and the wall between them is down. */
  ghost predicate Open(a: Cell, b: Cell)
    reads a`right, a`bottom, b`right, b`bottom
  {
    Adjacent(a, b) && !Stands(SharedWall(a, b))
  }

  // ---- neighbour queries ----

  /** The cell at (x, y) as a list of at most one element: present when it
      exists and is unvisited. */
  ghost function UnvisitedAt(board: array2<Cell?>, cells: set<Cell>, x: int, y: int): seq<Cell>
    requires Valid(board, cells)
    reads board, cells`visited
  {
    var c := GetCell(board, cells, x, y);
    if c != null && !c.visited then [c] else []
  }

  /** The unvisited cells beside (x, y), in the order north, east, south, west. */
  ghost function UnvisitedNeighbors(board: array2<Cell?>, cells: set<Cell>, x: int, y: int): seq<Cell>
    requires Valid(board, cells)
    reads board, cells`visited
  {
    UnvisitedAt(board, cells, x, y - 1) + UnvisitedAt(board, cells, x + 1, y) +
    UnvisitedAt(board, cells, x, y + 1) + UnvisitedAt(board, cells, x - 1, y)
  }

  lemma UnvisitedAtSpec(board: array2<Cell?>, cells: set<Cell>, u: int, v: int)
    requires Valid(board, cells)
    ensures |UnvisitedAt(board, cells, u, v)| <= 1
    ensures forall c {:trigger c in UnvisitedAt(board, cells, u, v)} :: c in UnvisitedAt(board, cells, u, v) <==> c in cells && c.x == u && c.y == v && !c.visited
  {
  }

  /** The unvisited neighbours of (x, y) are exactly the unvisited cells on
      an adjacent square, and there are at most four. */
  lemma UnvisitedNeighborsMembers(board: array2<Cell?>, cells: set<Cell>, x: int, y: int)
    requires Valid(board, cells)
    ensures |UnvisitedNeighbors(board, cells, x, y)| <= 4
    ensures forall c {:trigger c in UnvisitedNeighbors(board, cells, x, y)} :: c in UnvisitedNeighbors(board, cells, x, y) <==>
      c in cells && Orthogonal(x, y, c.x, c.y) && !c.visited
  {
    var n, e := UnvisitedAt(board, cells, x, y - 1), UnvisitedAt(board, cells, x + 1, y);
    var s, w := UnvisitedAt(board, cells, x, y + 1), UnvisitedAt(board, cells, x - 1, y);
    assert UnvisitedNeighbors(board, cells, x, y) == n + e + s + w;
    UnvisitedAtSpec(board, cells, x, y - 1);
    UnvisitedAtSpec(board, cells, x + 1, y);
    UnvisitedAtSpec(board, cells, x, y + 1);
    UnvisitedAtSpec(board, cells, x - 1, y);
  }

  /** The unvisited neighbours are listed north, east, south, west. */
  lemma UnvisitedNeighborsOrder(board: array2<Cell?>, cells: set<Cell>, x: int, y: int)
    requires Valid(board, cells)
    ensures InDirectionOrder(x, y, UnvisitedNeighbors(board, cells, x, y))
  {
    var n, e := UnvisitedAt(board, cells, x, y - 1), UnvisitedAt(board, cells, x + 1, y);
    var s, w := UnvisitedAt(board, cells, x, y + 1), UnvisitedAt(board, cells, x - 1, y);
    assert UnvisitedNeighbors(board, cells, x, y) == n + e + s + w;
    UnvisitedAtSpec(board, cells, x, y - 1);
    UnvisitedAtSpec(board, cells, x + 1, y);
    UnvisitedAtSpec(board, cells, x, y + 1);
    UnvisitedAtSpec(board, cells, x - 1, y);
    assert forall c :: c in n ==> Rank(x, y, c) == 0;
    assert forall c :: c in e ==> Rank(x, y, c) == 1;
    assert forall c :: c in s ==> Rank(x, y, c) == 2;
    assert forall c :: c in w ==> Rank(x, y, c) == 3;
    OrderedConcat(x, y, n, e);
    OrderedConcat(x, y, n + e, s);
    OrderedConcat(x, y, n + e + s, w);
  }

  /** One direction of a neighbour query: when keep holds, c goes into the
      slot at count and the count rises by one. */
  method Offer(c: Cell?, keep: bool, unvis: array<Cell?>, count: nat, ghost acc: seq<Cell?>) returns (newCount: nat)
    requires count <= unvis.Length && (keep ==> count < unvis.Length)
    requires unvis[..count] == acc
    modifies unvis
    ensures newCount == if keep then count + 1 else count
    ensures unvis[..newCount] == acc + (if keep then [c] else [])
    ensures forall k :: newCount <= k < unvis.Length ==> unvis[k] == old(unvis[k])
  {
    newCount := count;
    if keep {
      unvis[count] := c;
      newCount := count + 1;
    }
  }

  /** Stores the unvisited neighbours of (currX, currY) at the front of unvis,
      north first, and returns how many there are; only unvis changes. */
  method GetUnvisitedNeighbors(board: array2<Cell?>, ghost cells: set<Cell>, currX: int, currY: int, unvis: array<Cell?>)
    returns (count: nat)
    requires Valid(board, cells) && unvis.Length >= 4
    modifies unvis
    ensures count <= 4
    ensures unvis[..count] == old(UnvisitedNeighbors(board, cells, currX, currY))
    ensures forall k :: count <= k < unvis.Length ==> unvis[k] == old(unvis[k])
  {
    ghost var n, e := UnvisitedAt(board, cells, currX, currY - 1), UnvisitedAt(board, cells, currX + 1, currY);
    ghost var s, w := UnvisitedAt(board, cells, currX, currY + 1), UnvisitedAt(board, cells, currX - 1, currY);
    var north, east := GetCell(board, cells, currX, currY - 1), GetCell(board, cells, currX + 1, currY);
    var south, west := GetCell(board, cells, currX, currY + 1), GetCell(board, cells, currX - 1, currY);
    var keepN, keepE := north != null && !north.visited, east != null && !east.visited;
    var keepS, keepW := south != null && !south.visited, west != null && !west.visited;
    count := Offer(north, keepN, unvis, 0, []);
    count := Offer(east, keepE, unvis, count, n);
    count := Offer(south, keepS, unvis, count, n + e);
    count := Offer(west, keepW, unvis, count, n + e + s);
  }

  /** The four directions, in the order the neighbour queries list them. */
  datatype Direction = North | East | South | West

  /** The square one step from (x, y) in direction d. */
  function Step(x: int, y: int, d: Direction): (int, int) {
    match d
    case North => (x, y - 1)
    case East => (x + 1, y)
    case South => (x, y + 1)
    case West => (x - 1, y)
  }

  /** The neighbour of the cell at (x, y) in direction d as a list of at most
      one element: present when it exists, is unvisited and the wall towards
      it is down -- the neighbour's own south wall going north, the cell's
      east wall going east, the cell's south wall going south, the
      neighbour's east wall going west. */
  ghost function PassageAt(board: array2<Cell?>, cells: set<Cell>, x: int, y: int, d: Direction): seq<Cell>
    requires Valid(board, cells) && 0 <= y < board.Length0 && 0 <= x < board.Length1
    reads board, cells`visited, cells`right, cells`bottom
  {
    var curr := board[y, x];
    var c := GetCell(board, cells, Step(x, y, d).0, Step(x, y, d).1);
    var down := match d
      case North => c != null && !c.bottom
      case East => !curr.right
      case South => !curr.bottom
      case West => c != null && !c.right;
    if c != null && !c.visited && down then [c] else []
  }

  /** The unvisited cells beside the cell at (x, y) that a passage leads to,
      in the order north, east, south, west. */
  ghost function ConnectedNeighbors(board: array2<Cell?>, cells: set<Cell>, x: int, y: int): seq<Cell>
    requires Valid(board, cells) && 0 <= y < board.Length0 && 0 <= x < board.Length1
    reads board, cells`visited, cells`right, cells`bottom
  {
    PassageAt(board, cells, x, y, North) + PassageAt(board, cells, x, y, East) +
    PassageAt(board, cells, x, y, South) + PassageAt(board, cells, x, y, West)
  }

  lemma PassageAtSpec(board: array2<Cell?>, cells: set<Cell>, x: int, y: int, d: Direction)
    requires Valid(board, cells) && 0 <= y < board.Length0 && 0 <= x < board.Length1
    ensures |PassageAt(board, cells, x, y, d)| <= 1
    ensures forall c {:trigger c in PassageAt(board, cells, x, y, d)} :: c in PassageAt(board, cells, x, y, d) <==>
      c in cells && (c.x, c.y) == Step(x, y, d) && !c.visited && Open(board[y, x], c)
  {
  }

  /** The connected unvisited neighbours of (x, y) are exactly the unvisited
      cells reached from it through an open passage, and there are at most four. */
  lemma ConnectedNeighborsMembers(board: array2<Cell?>, cells: set<Cell>, x: int, y: int)
    requires Valid(board, cells) && 0 <= y < board.Length0 && 0 <= x < board.Length1
    ensures |ConnectedNeighbors(board, cells, x, y)| <= 4
    ensures forall c {:trigger c in ConnectedNeighbors(board, cells, x, y)} :: c in ConnectedNeighbors(board, cells, x, y) <==>
      c in cells && !c.visited && Open(board[y, x], c)
  {
    var n, e := PassageAt(board, cells, x, y, North), PassageAt(board, cells, x, y, East);
    var s, w := PassageAt(board, cells, x, y, South), PassageAt(board, cells, x, y, West);
    assert ConnectedNeighbors(board, cells, x, y) == n + e + s + w;
    PassageAtSpec(board, cells, x, y, North);
    PassageAtSpec(board, cells, x, y, East);
    PassageAtSpec(board, cells, x, y, South);
    PassageAtSpec(board, cells, x, y, West);
  }

  /** The connected unvisited neighbours are listed north, east, south, west. */
  lemma ConnectedNeighborsOrder(board: array2<Cell?>, cells: set<Cell>, x: int, y: int)
    requires Valid(board, cells) && 0 <= y < board.Length0 && 0 <= x < board.Length1
    ensures InDirectionOrder(x, y, ConnectedNeighbors(board, cells, x, y))
  {
    var n, e := PassageAt(board, cells, x, y, North), PassageAt(board, cells, x, y, East);
    var s, w := PassageAt(board, cells, x, y, South), PassageAt(board, cells, x, y, West);
    assert ConnectedNeighbors(board, cells, x, y) == n + e + s + w;
    PassageAtSpec(board, cells, x, y, North);
    PassageAtSpec(board, cells, x, y, East);
    PassageAtSpec(board, cells, x, y, South);
    PassageAtSpec(board, cells, x, y, West);
    assert forall c :: c in n ==> Rank(x, y, c) == 0;
    assert forall c :: c in e ==> Rank(x, y, c) == 1;
    assert forall c :: c in s ==> Rank(x, y, c) == 2;
    assert forall c :: c in w ==> Rank(x, y, c) == 3;
    OrderedConcat(x, y, n, e);
    OrderedConcat(x, y, n + e, s);
    OrderedConcat(x, y, n + e + s, w);
  }

  /** Stores the unvisited neighbours of the cell at (currX, currY) that an
      open passage leads to at the front of unvis, north first, and returns
      how many there are; only unvis changes. */
  method GetUnvisitedConnectedNeighbors(board: array2<Cell?>, ghost cells: set<Cell>, currX: int, currY: int, unvis: array<Cell?>)
    returns (count: nat)
    requires Valid(board, cells) && 0 <= currY < board.Length0 && 0 <= currX < board.Length1
    requires unvis.Length >= 4
    modifies unvis
    ensures count <= 4
    ensures unvis[..count] == old(ConnectedNeighbors(board, cells, currX, currY))
    ensures forall k :: count <= k < unvis.Length ==> unvis[k] == old(unvis[k])
  {
    ghost var n, e := PassageAt(board, cells, currX, currY, North), PassageAt(board, cells, currX, currY, East);
    ghost var s, w := PassageAt(board, cells, currX, currY, South), PassageAt(board, cells, currX, currY, West);
    var curr := board[currY, currX];
    var north, east := GetCell(board, cells, currX, currY - 1), GetCell(board, cells, currX + 1, currY);
    var south, west := GetCell(board, cells, currX, currY + 1), GetCell(board, cells, currX - 1, currY);
    var keepN := north != null && !north.visited && !north.bottom;
    var keepE := east != null && !east.visited && !curr.right;
    var keepS := south != null && !south.visited && !curr.bottom;
    var keepW := west != null && !west.visited && !west.right;
    count := Offer(north, keepN, unvis, 0, []);
    count := Offer(east, keepE, unvis, count, n);
    count := Offer(south, keepS, unvis, count, n + e);
    count := Offer(west, keepW, unvis, count, n + e + s);
  }

  /** Clears the visited mark of every cell; walls and path marks stay as they were. */
  method ResetVisited(board: array2<Cell?>, ghost cells: set<Cell>)
    requires Valid(board, cells)
    modifies cells`visited
    ensures NoneVisited(board, cells)
    ensures forall c :: c in cells ==>
      c.bottom == old(c.bottom) && c.right == old(c.right) && c.onPath == old(c.onPath)
  {
    for i := 0 to board.Length0
      invariant forall c :: c in cells && c.y < i ==> !c.visited
    {
      for j := 0 to board.Length1
        invariant forall c :: c in cells && (c.y < i || (c.y == i && c.x < j)) ==> !c.visited
      {
        board[i, j].visited := false;
      }
    }
  }
}
