/**
 * The board graph: src/graph/GraphNode.java and src/graph/BoardGraph.java.
 *
 * The source links nodes by reference. Here a graph is a value: every node
 * is stored under its own coordinates, and a neighbour link holds the
 * coordinates of the neighbour. `allNodes` (row-major) is recovered from
 * the coordinates by `RowMajor`.
 */
module Graphs {
  import opened Wrappers
  import opened Tiles
  import opened Directions

  datatype Coord = Coord(x: int, y: int)

  /** src/board/Board.java: the board only carries its dimensions. */
  datatype Board = Board(width: nat, height: nat)

  /** A graph node: fixed coordinates, its tile, and its neighbour links. */
  datatype Node = Node(pos: Coord, tile: Tile, nbrs: map<Direction, Coord>)

  /**
   * The graph: its dimensions, the nodes keyed by coordinates, the occupied
   * node (`null` in the source before any START was seen) and the count of
   * DATA tiles still on the board.
   */
  datatype Graph = Graph(width: nat, height: nat, cells: map<Coord, Node>,
                         player: Option<Coord>, totalData: int)

  // ---------------------------------------------------------------- nodes

  function GetNeighbor(n: Node, d: Direction): Option<Coord>
  {
    if d in n.nbrs then Some(n.nbrs[d]) else None
  }

  /** A fresh node has its coordinates, a fresh tile, and no neighbours. */
  function NewNode(x: int, y: int, k: Kind): (n: Node)
    ensures n.pos == Coord(x, y)
    ensures n.tile.kind == k && !n.tile.hasPlayer
    ensures forall d :: GetNeighbor(n, d) == None
  {
    Node(Coord(x, y), NewTile(k), map[])
  }

  /** The link just added is the one returned; links in other directions stay. */
  function AddNeighbor(n: Node, d: Direction, c: Coord): (n': Node)
    ensures GetNeighbor(n', d) == Some(c)
    ensures forall e :: e != d ==> GetNeighbor(n', e) == GetNeighbor(n, e)
    ensures n'.pos == n.pos && n'.tile == n.tile
  {
    n.(nbrs := n.nbrs[d := c])
  }

  /** Changing the node's kind touches neither coordinates, links nor occupancy. */
  function SetNodeType(n: Node, k: Kind): (n': Node)
    ensures n'.pos == n.pos && n'.nbrs == n.nbrs
    ensures n'.tile.kind == k && n'.tile.hasPlayer == n.tile.hasPlayer
  {
    n.(tile := SetType(n.tile, k))
  }

  /** Changing occupancy touches neither coordinates, links nor the kind. */
  function SetNodePlayer(n: Node, p: bool): (n': Node)
    ensures n'.pos == n.pos && n'.nbrs == n.nbrs
    ensures n'.tile.hasPlayer == p && n'.tile.kind == n.tile.kind
  {
    n.(tile := SetPlayer(n.tile, p))
  }

  // ---------------------------------------------------------------- geometry

  predicate InBoundsWH(w: int, h: int, c: Coord)
  {
    0 <= c.x < w && 0 <= c.y < h
  }

  predicate InBounds(g: Graph, c: Coord)
  {
    InBoundsWH(g.width, g.height, c)
  }

  function Step(c: Coord, d: Direction): Coord
  {
    Coord(c.x + Dx(d), c.y + Dy(d))
  }

  /** The neighbour link the source creates for a node at `c`, or none at the border. */
  function ExpectedLink(w: int, h: int, c: Coord, d: Direction): Option<Coord>
  {
    if InBoundsWH(w, h, Step(c, d)) then Some(Step(c, d)) else None
  }

  /** The shape every graph built by `Reinitialize` has. */
  ghost predicate WellFormed(g: Graph)
  {
    && (forall c :: c in g.cells <==> InBounds(g, c))
    && (forall c | c in g.cells :: g.cells[c].pos == c)
    && (forall c, d | c in g.cells :: GetNeighbor(g.cells[c], d) == ExpectedLink(g.width, g.height, c, d))
    && (g.player.Some? ==> g.player.value in g.cells)
  }

  function KindAt(g: Graph, c: Coord): Kind
    requires c in g.cells
  {
    g.cells[c].tile.kind
  }

  predicate Occupied(g: Graph, c: Coord)
    requires c in g.cells
  {
    g.cells[c].tile.hasPlayer
  }

  function Neighbor(g: Graph, c: Coord, d: Direction): Option<Coord>
    requires c in g.cells
  {
    GetNeighbor(g.cells[c], d)
  }

  /** The DATA tiles still on the board. */
  ghost function DataCells(g: Graph): set<Coord>
  {
    set c | c in g.cells && g.cells[c].tile.kind == Data
  }

  /**
   * The game invariant: exactly one node is occupied, it is `playerNode`,
   * and `totalData` is the live number of DATA tiles.
   */
  ghost predicate Inv(g: Graph)
  {
    && WellFormed(g)
    && g.player.Some?
    && (forall c | c in g.cells :: Occupied(g, c) <==> c == g.player.value)
    && g.totalData == |DataCells(g)|
  }

  // ---------------------------------------------------------------- accessors

  function SetCellKind(g: Graph, c: Coord, k: Kind): Graph
    requires c in g.cells
  {
    g.(cells := g.cells[c := SetNodeType(g.cells[c], k)])
  }

  function SetCellPlayer(g: Graph, c: Coord, p: bool): Graph
    requires c in g.cells
  {
    g.(cells := g.cells[c := SetNodePlayer(g.cells[c], p)])
  }

  /** `decreaseDataCount`: the counter drops by one, nothing else changes. */
  function DecreaseDataCount(g: Graph): (g': Graph)
    ensures g'.totalData == g.totalData - 1
    ensures g'.cells == g.cells && g'.player == g.player
    ensures g'.width == g.width && g'.height == g.height
  {
    g.(totalData := g.totalData - 1)
  }

  /** `setPlayerNode`: only the occupant reference changes. */
  function SetPlayerNode(g: Graph, c: Coord): (g': Graph)
    ensures g'.player == Some(c)
    ensures g'.cells == g.cells && g'.totalData == g.totalData
    ensures g'.width == g.width && g'.height == g.height
  {
    g.(player := Some(c))
  }

  /** Moving `playerNode` to a node of the graph keeps it well formed. */
  lemma SetPlayerNodeFrame(g: Graph, c: Coord)
    requires WellFormed(g) && c in g.cells
    ensures WellFormed(SetPlayerNode(g, c))
  {
    var g' := SetPlayerNode(g, c);
    assert forall e :: InBounds(g', e) == InBounds(g, e);
  }

  lemma SetCellKindFrame(g: Graph, c: Coord, k: Kind)
    requires WellFormed(g) && c in g.cells
    ensures WellFormed(SetCellKind(g, c, k))
    ensures forall e | e in g.cells :: e in SetCellKind(g, c, k).cells
    ensures KindAt(SetCellKind(g, c, k), c) == k
    ensures forall e | e in g.cells && e != c :: KindAt(SetCellKind(g, c, k), e) == KindAt(g, e)
    ensures forall e | e in g.cells :: Occupied(SetCellKind(g, c, k), e) == Occupied(g, e)
  {
    var g' := SetCellKind(g, c, k);
    forall e, d | e in g'.cells
      ensures GetNeighbor(g'.cells[e], d) == ExpectedLink(g'.width, g'.height, e, d)
    {
      assert GetNeighbor(g'.cells[e], d) == GetNeighbor(g.cells[e], d);
    }
  }

  lemma SetCellPlayerFrame(g: Graph, c: Coord, p: bool)
    requires WellFormed(g) && c in g.cells
    ensures WellFormed(SetCellPlayer(g, c, p))
    ensures forall e | e in g.cells :: e in SetCellPlayer(g, c, p).cells
    ensures Occupied(SetCellPlayer(g, c, p), c) == p
    ensures forall e | e in g.cells && e != c :: Occupied(SetCellPlayer(g, c, p), e) == Occupied(g, e)
    ensures forall e | e in g.cells :: KindAt(SetCellPlayer(g, c, p), e) == KindAt(g, e)
    ensures DataCells(SetCellPlayer(g, c, p)) == DataCells(g)
  {
    var g' := SetCellPlayer(g, c, p);
    forall e, d | e in g'.cells
      ensures GetNeighbor(g'.cells[e], d) == ExpectedLink(g'.width, g'.height, e, d)
    {
      assert GetNeighbor(g'.cells[e], d) == GetNeighbor(g.cells[e], d);
    }
  }

  // ---------------------------------------------------------------- row-major order

  /** The coordinates of `allNodes`, in the order `reinitialize` appends them. */
  function RowMajor(w: nat, h: nat): (r: seq<Coord>)
    ensures |r| == w * h
  {
    if h == 0 then [] else RowMajor(w, h - 1) + seq(w, i => Coord(i, h - 1))
  }

  /** The node at index y*width+x of `allNodes` has coordinates (x, y). */
  lemma {:induction false} RowMajorIndex(w: nat, h: nat, x: int, y: int)
    requires 0 <= x < w && 0 <= y < h
    ensures 0 <= y * w + x < |RowMajor(w, h)|
    ensures RowMajor(w, h)[y * w + x] == Coord(x, y)
  {
    var prev := RowMajor(w, h - 1);
    assert |prev| == w * (h - 1) == w * h - w;
    if y < h - 1 {
      RowMajorIndex(w, h - 1, x, y);
      assert y * w + x < |prev|;
    } else {
      assert y * w == w * h - w;
    }
  }

  /** `allNodes` lists exactly the in-bounds coordinates, each once. */
  lemma {:induction false} RowMajorContents(w: nat, h: nat)
    ensures forall c :: c in RowMajor(w, h) <==> InBoundsWH(w, h, c)
    ensures forall i, j :: 0 <= i < j < |RowMajor(w, h)| ==> RowMajor(w, h)[i] != RowMajor(w, h)[j]
  {
    if h > 0 {
      RowMajorContents(w, h - 1);
      var prev := RowMajor(w, h - 1);
      var row := seq(w, i => Coord(i, h - 1));
      assert RowMajor(w, h) == prev + row;
      forall c | InBoundsWH(w, h, c)
        ensures c in RowMajor(w, h)
      {
        if c.y < h - 1 {
          assert c in prev;
        } else {
          assert row[c.x] == c;
        }
      }
      forall i, j | 0 <= i < j < |prev + row|
        ensures (prev + row)[i] != (prev + row)[j]
      {
        if j >= |prev| && i < |prev| {
          assert prev[i] in prev;
          assert prev[i].y < h - 1;
        }
      }
    }
  }

  /** The nodes of the graph in `allNodes` order. */
  function AllNodes(g: Graph): (r: seq<Node>)
    requires WellFormed(g)
    ensures |r| == g.width * g.height
  {
    RowMajorContents(g.width, g.height);
    var coords := RowMajor(g.width, g.height);
    seq(|coords|, i requires 0 <= i < |coords| => g.cells[coords[i]])
  }

  /** Each node of `allNodes` sits at its own row-major index. */
  lemma AllNodesRowMajor(g: Graph, x: int, y: int)
    requires WellFormed(g) && 0 <= x < g.width && 0 <= y < g.height
    ensures 0 <= y * g.width + x < |AllNodes(g)|
    ensures AllNodes(g)[y * g.width + x].pos == Coord(x, y)
  {
    RowMajorIndex(g.width, g.height, x, y);
  }

  // ---------------------------------------------------------------- distances

  /** The squared Euclidean distance between two cells; the distance itself is never formed. */
  function SqDist(a: Coord, b: Coord): nat
  {
    (a.x - b.x) * (a.x - b.x) + (a.y - b.y) * (a.y - b.y)
  }

  /** A DATA node still worth reaching: on the board, DATA, and not in `exclude`. */
  predicate Remaining(g: Graph, c: Coord, exclude: set<Coord>)
  {
    c in g.cells && g.cells[c].tile.kind == Data && c !in exclude
  }

  // ---------------------------------------------------------------- reinitialize

  /** The tile-kind grid the layout provider supplies, `grid[y][x]`. */
  predicate GridShape(grid: seq<seq<Kind>>, w: nat, h: nat)
  {
    |grid| == h && forall y :: 0 <= y < h ==> |grid[y]| == w
  }

  /** Links a node to its in-bounds neighbours, visiting `dirs` in order. */
  function LinkAll(n: Node, dirs: seq<Direction>, w: nat, h: nat): (r: Node)
    requires forall d :: GetNeighbor(n, d) == None
    ensures r.pos == n.pos && r.tile == n.tile
    ensures forall d :: d in dirs ==> GetNeighbor(r, d) == ExpectedLink(w, h, n.pos, d)
    ensures forall d :: d !in dirs ==> GetNeighbor(r, d) == GetNeighbor(n, d)
  {
    if |dirs| == 0 then n
    else
      var d := dirs[|dirs| - 1];
      var m := LinkAll(n, dirs[..|dirs| - 1], w, h);
      assert forall e :: e in dirs ==> e in dirs[..|dirs| - 1] || e == d;
      if InBoundsWH(w, h, Step(n.pos, d)) then AddNeighbor(m, d, Step(n.pos, d)) else m
  }

  /** The node `reinitialize` creates for cell (x, y): START becomes an occupied HUB. */
  function BuildNode(grid: seq<seq<Kind>>, all: seq<Direction>, w: nat, h: nat, x: int, y: int): Node
    requires GridShape(grid, w, h) && 0 <= x < w && 0 <= y < h
  {
    var k := grid[y][x];
    var n := NewNode(x, y, k);
    var n' := if k == Start then SetNodeType(SetNodePlayer(n, true), Hub) else n;
    LinkAll(n', all, w, h)
  }

  /** DATA cells in one row, counted left to right. */
  function RowData(row: seq<Kind>): nat
  {
    if |row| == 0 then 0
    else RowData(row[..|row| - 1]) + (if row[|row| - 1] == Data then 1 else 0)
  }

  /** DATA cells in the first `y` rows. */
  function GridData(grid: seq<seq<Kind>>, y: nat): nat
    requires y <= |grid|
  {
    if y == 0 then 0 else GridData(grid, y - 1) + RowData(grid[y - 1])
  }

  /** The last START of row `y` among its first `x` cells. */
  function LastStartInRow(row: seq<Kind>, y: int, x: nat): (r: Option<Coord>)
    requires x <= |row|
    ensures r.Some? ==> r.value.y == y && 0 <= r.value.x < x && row[r.value.x] == Start
    ensures r.Some? ==> forall i :: r.value.x < i < x ==> row[i] != Start
    ensures r.None? ==> forall i :: 0 <= i < x ==> row[i] != Start
  {
    if x == 0 then None
    else if row[x - 1] == Start then Some(Coord(x - 1, y))
    else LastStartInRow(row, y, x - 1)
  }

  /** Row-major order of coordinates. */
  predicate Before(a: Coord, b: Coord)
  {
    a.y < b.y || (a.y == b.y && a.x < b.x)
  }

  /**
   * The START the row-major scan of the first `y` rows assigns to
   * `playerNode` last, or none.
   */
  function LastStart(grid: seq<seq<Kind>>, w: nat, y: nat): (r: Option<Coord>)
    requires y <= |grid| && forall i :: 0 <= i < |grid| ==> |grid[i]| == w
    ensures r.Some? ==> InBoundsWH(w, y, r.value) && grid[r.value.y][r.value.x] == Start
    ensures r.Some? ==> forall c :: InBoundsWH(w, y, c) && Before(r.value, c) ==> grid[c.y][c.x] != Start
    ensures r.None? ==> forall c :: InBoundsWH(w, y, c) ==> grid[c.y][c.x] != Start
  {
    if y == 0 then None
    else
      match LastStartInRow(grid[y - 1], y - 1, w)
      case Some(c) => Some(c)
      case None => LastStart(grid, w, y - 1)
  }

  /**
   * `reinitialize`: discard the old nodes and count, build one node per cell
   * from the grid, turn START into the occupied HUB, link neighbours in
   * `all` order, and count the DATA tiles. Only the dimensions of `g` survive.
   */
  function Reinitialize(g: Graph, grid: seq<seq<Kind>>, all: seq<Direction>): (r: Graph)
    requires GridShape(grid, g.width, g.height)
    ensures r.width == g.width && r.height == g.height
  {
    var cells := map x, y | 0 <= x < g.width && 0 <= y < g.height
                   :: Coord(x, y) := BuildNode(grid, all, g.width, g.height, x, y);
    Graph(g.width, g.height, cells, LastStart(grid, g.width, g.height), GridData(grid, g.height))
  }

  /** The `BoardGraph(board)` constructor: an empty graph, then `reinitialize`. */
  function NewGraph(board: Board, grid: seq<seq<Kind>>, all: seq<Direction>): (r: Graph)
    requires GridShape(grid, board.width, board.height)
    ensures r.width == board.width && r.height == board.height
  {
    Reinitialize(Graph(board.width, board.height, map[], None, 0), grid, all)
  }

  /**
   * A board with exactly one START cell `s` yields a graph in which the
   * game invariant holds, `s` is the occupant, and `s` has become a HUB.
   */
  lemma NewGraphEstablishesInv(board: Board, grid: seq<seq<Kind>>, all: seq<Direction>, s: Coord)
    requires GridShape(grid, board.width, board.height) && IsEnumeration(all)
    requires InBoundsWH(board.width, board.height, s) && grid[s.y][s.x] == Start
    requires forall c :: InBoundsWH(board.width, board.height, c) && c != s ==> grid[c.y][c.x] != Start
    ensures var r := NewGraph(board, grid, all);
      && Inv(r)
      && r.player == Some(s)
      && KindAt(r, s) == Hub
  {
    ReinitializeEstablishesInv(Graph(board.width, board.height, map[], None, 0), grid, all, s);
  }

  /** The set of DATA cells of the grid's first `y` rows. */
  ghost function GridDataCells(grid: seq<seq<Kind>>, y: nat): set<Coord>
    requires y <= |grid|
  {
    set r, x | 0 <= r < y && 0 <= x < |grid[r]| && grid[r][x] == Data :: Coord(x, r)
  }

  ghost function RowDataCells(row: seq<Kind>, y: int, n: nat): set<Coord>
    requires n <= |row|
  {
    set x | 0 <= x < n && row[x] == Data :: Coord(x, y)
  }

  lemma {:induction false} RowDataCount(row: seq<Kind>, y: int, n: nat)
    requires n <= |row|
    ensures |RowDataCells(row, y, n)| == RowData(row[..n])
  {
    if n > 0 {
      RowDataCount(row, y, n - 1);
      assert row[..n][..n - 1] == row[..n - 1];
      if row[n - 1] == Data {
        assert RowDataCells(row, y, n) == RowDataCells(row, y, n - 1) + {Coord(n - 1, y)};
      } else {
        assert RowDataCells(row, y, n) == RowDataCells(row, y, n - 1);
      }
    }
  }

  /** The row-by-row DATA count equals the number of DATA cells. */
  lemma {:induction false} GridDataCount(grid: seq<seq<Kind>>, y: nat)
    requires y <= |grid|
    ensures |GridDataCells(grid, y)| == GridData(grid, y)
  {
    if y > 0 {
      GridDataCount(grid, y - 1);
      var row := grid[y - 1];
      RowDataCount(row, y - 1, |row|);
      assert row[..|row|] == row;
      var top := GridDataCells(grid, y - 1);
      var last := RowDataCells(row, y - 1, |row|);
      assert GridDataCells(grid, y) == top + last by {
        forall c | c in GridDataCells(grid, y)
          ensures c in top + last
        {
          if c.y < y - 1 { assert c in top; } else { assert c in last; }
        }
      }
      assert top !! last by {
        forall c | c in top
          ensures c !in last
        {
          assert c.y < y - 1;
        }
      }
    }
  }

  /**
   * After `reinitialize` the graph is well formed, every node carries its
   * grid kind (START read as HUB), exactly the START cells are occupied, the
   * occupant is the last START in row-major order, and `totalData` is the
   * number of DATA tiles.
   */
  lemma ReinitializeSpec(g: Graph, grid: seq<seq<Kind>>, all: seq<Direction>)
    requires GridShape(grid, g.width, g.height) && IsEnumeration(all)
    ensures var r := Reinitialize(g, grid, all);
      && WellFormed(r)
      && |AllNodes(r)| == g.width * g.height
      && (forall c | c in r.cells ::
            && KindAt(r, c) == (if grid[c.y][c.x] == Start then Hub else grid[c.y][c.x])
            && (Occupied(r, c) <==> grid[c.y][c.x] == Start))
      && r.player == LastStart(grid, g.width, g.height)
      && r.totalData == |DataCells(r)|
  {
    var r := Reinitialize(g, grid, all);
    forall c | c in r.cells
      ensures r.cells[c].pos == c
      ensures KindAt(r, c) == (if grid[c.y][c.x] == Start then Hub else grid[c.y][c.x])
      ensures Occupied(r, c) <==> grid[c.y][c.x] == Start
      ensures forall d :: GetNeighbor(r.cells[c], d) == ExpectedLink(r.width, r.height, c, d)
    {
      BuildNodeSpec(grid, all, g.width, g.height, c.x, c.y);
    }
    assert WellFormed(r);
    assert DataCells(r) == GridDataCells(grid, g.height) by {
      forall c | c in DataCells(r)
        ensures c in GridDataCells(grid, g.height)
      {
        assert grid[c.y][c.x] == Data;
      }
    }
    GridDataCount(grid, g.height);
  }

  /** The node built for (x, y) sits there, carries the grid kind, and links every in-bounds neighbour. */
  lemma BuildNodeSpec(grid: seq<seq<Kind>>, all: seq<Direction>, w: nat, h: nat, x: int, y: int)
    requires GridShape(grid, w, h) && 0 <= x < w && 0 <= y < h && IsEnumeration(all)
    ensures var n := BuildNode(grid, all, w, h, x, y);
      && n.pos == Coord(x, y)
      && n.tile.kind == (if grid[y][x] == Start then Hub else grid[y][x])
      && (n.tile.hasPlayer <==> grid[y][x] == Start)
      && forall d :: GetNeighbor(n, d) == ExpectedLink(w, h, Coord(x, y), d)
  {
    var n := BuildNode(grid, all, w, h, x, y);
    forall d
      ensures GetNeighbor(n, d) == ExpectedLink(w, h, Coord(x, y), d)
    {
      EnumerationCovers(all, d);
    }
  }

  /**
   * With exactly one START cell `s`, the rebuilt graph satisfies the game
   * invariant and its occupant is `s`, now a HUB.
   */
  lemma ReinitializeEstablishesInv(g: Graph, grid: seq<seq<Kind>>, all: seq<Direction>, s: Coord)
    requires GridShape(grid, g.width, g.height) && IsEnumeration(all)
    requires InBoundsWH(g.width, g.height, s) && grid[s.y][s.x] == Start
    requires forall c :: InBoundsWH(g.width, g.height, c) && c != s ==> grid[c.y][c.x] != Start
    ensures var r := Reinitialize(g, grid, all);
      && Inv(r)
      && r.player == Some(s)
      && KindAt(r, s) == Hub
  {
    ReinitializeSpec(g, grid, all);
  }
}
