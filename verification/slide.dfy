/**
 * The authoritative slide: src/movement/SlideSimulator.java, with the
 * result record of src/movement/MoveResult.java.
 *
 * A slide from the occupied node in direction d enters the cells
 * start+1·d, start+2·d, ... and stops on the first cell that is a VIRUS
 * (the token dies there), a HUB, or whose next cell is off the board or a
 * FIREWALL. DATA tiles entered on the way are consumed. `SlidePath` states
 * this stopping rule declaratively; `Advance` is the loop of the source.
 */
module Slide {
  import opened Wrappers
  import opened Tiles
  import opened Directions
  import opened Graphs

  /** `MoveResult`: (success, isDead, gemsCollected). */
  datatype MoveResult = MoveResult(success: bool, isDead: bool, gemsCollected: int)

  /** The outcome of one call of `simulate`: its result and the graph after it. */
  datatype Move = Move(result: MoveResult, graph: Graph)

  /** The state in which the slide loop leaves: graph, current node, died, gems. */
  datatype LoopEnd = LoopEnd(graph: Graph, end: Coord, died: bool, collected: nat)

  // ---------------------------------------------------------------- rays

  /** The cell k steps from c in direction d. */
  function Shift(c: Coord, d: Direction, k: nat): Coord
  {
    if k == 0 then c else Step(Shift(c, d, k - 1), d)
  }

  /** How far c lies along d; each step in d raises it by one or two. */
  function Progress(c: Coord, d: Direction): int
  {
    match d
    case N => -c.y
    case NE => c.x - c.y
    case E => c.x
    case SE => c.x + c.y
    case S => c.y
    case SW => c.y - c.x
    case W => -c.x
    case NW => -c.x - c.y
  }

  lemma ProgressStep(c: Coord, d: Direction)
    ensures Progress(c, d) < Progress(Step(c, d), d)
  {
  }

  lemma ProgressBound(w: nat, h: nat, c: Coord, d: Direction)
    requires InBoundsWH(w, h, c)
    ensures Progress(c, d) < w + h
  {
  }

  lemma {:induction false} ProgressShift(c: Coord, d: Direction, k: nat)
    ensures Progress(c, d) + k <= Progress(Shift(c, d, k), d)
  {
    if k > 0 {
      ProgressShift(c, d, k - 1);
      ProgressStep(Shift(c, d, k - 1), d);
    }
  }

  lemma {:induction false} ShiftSucc(c: Coord, d: Direction, k: nat)
    ensures Shift(Step(c, d), d, k) == Shift(c, d, k + 1)
  {
    if k > 0 {
      ShiftSucc(c, d, k - 1);
    }
  }

  lemma {:induction false} ShiftCoords(c: Coord, d: Direction, k: nat)
    ensures Shift(c, d, k) == Coord(c.x + k * Dx(d), c.y + k * Dy(d))
  {
    if k > 0 {
      ShiftCoords(c, d, k - 1);
    }
  }

  /** The cells start+0·d .. start+k·d. */
  ghost function Seg(c: Coord, d: Direction, k: nat): set<Coord>
  {
    set j | 0 <= j <= k :: Shift(c, d, j)
  }

  lemma SegSucc(c: Coord, d: Direction, k: nat)
    ensures Seg(c, d, k + 1) == {c} + Seg(Step(c, d), d, k)
    ensures c !in Seg(Step(c, d), d, k)
  {
    forall j | 0 <= j <= k
      ensures Shift(Step(c, d), d, j) == Shift(c, d, j + 1)
      ensures Shift(Step(c, d), d, j) != c
    {
      ShiftSucc(c, d, j);
      ProgressShift(c, d, j + 1);
    }
    forall e | e in Seg(c, d, k + 1)
      ensures e in {c} + Seg(Step(c, d), d, k)
    {
      var j :| 0 <= j <= k + 1 && e == Shift(c, d, j);
      if j > 0 {
        ShiftSucc(c, d, j - 1);
      }
    }
    assert Shift(c, d, 0) == c;
  }

  lemma SegZero(c: Coord, d: Direction)
    ensures Seg(c, d, 0) == {c}
  {
    assert Shift(c, d, 0) == c;
  }

  // ---------------------------------------------------------------- stopping rule

  /** A cell the token may enter: on the board and not a FIREWALL. */
  ghost predicate Open(g: Graph, c: Coord)
  {
    c in g.cells && KindAt(g, c) != Firewall
  }

  /** The authoritative slide stops on c: VIRUS, HUB, or the next cell is closed. */
  ghost predicate Stops(g: Graph, c: Coord, d: Direction)
    requires c in g.cells
  {
    KindAt(g, c) == Virus || KindAt(g, c) == Hub || !Open(g, Step(c, d))
  }

  /**
   * Entering at `s`, the slide passes k cells without stopping and stops on
   * the (k+1)-th, start+k·d.
   */
  ghost predicate SlidePath(g: Graph, s: Coord, d: Direction, k: nat)
  {
    && (forall j :: 0 <= j <= k ==> Open(g, Shift(s, d, j)))
    && (forall j :: 0 <= j < k ==> !Stops(g, Shift(s, d, j), d))
    && Stops(g, Shift(s, d, k), d)
  }

  /** The stopping cell is the first one: at most one k satisfies `SlidePath`. */
  lemma SlidePathUnique(g: Graph, s: Coord, d: Direction, k1: nat, k2: nat)
    requires SlidePath(g, s, d, k1) && SlidePath(g, s, d, k2)
    ensures k1 == k2
  {
  }

  /** Kinds behind the start of a ray do not affect where it stops. */
  lemma SlidePathFrame(g: Graph, g': Graph, s: Coord, d: Direction, k: nat)
    requires g.cells.Keys == g'.cells.Keys
    requires forall e | e in g.cells && Progress(s, d) <= Progress(e, d) :: KindAt(g, e) == KindAt(g', e)
    ensures SlidePath(g, s, d, k) <==> SlidePath(g', s, d, k)
  {
    forall j: nat
      ensures Progress(s, d) <= Progress(Shift(s, d, j), d)
      ensures Progress(s, d) < Progress(Step(Shift(s, d, j), d), d)
    {
      ProgressShift(s, d, j);
      ProgressStep(Shift(s, d, j), d);
    }
  }

  /** A slide crosses fewer than max(width, height) cells of the board. */
  lemma SlideLength(g: Graph, p: Coord, d: Direction, k: nat)
    requires p in g.cells && WellFormed(g)
    requires SlidePath(g, Step(p, d), d, k)
    ensures k + 1 < if g.width < g.height then g.height else g.width
  {
    assert Open(g, Shift(Step(p, d), d, k));
    ShiftSucc(p, d, k);
    assert InBounds(g, p) && InBounds(g, Shift(p, d, k + 1));
    RayBound(g.width, g.height, p, d, k + 1);
  }

  /** Two in-bounds cells n steps apart along a ray are fewer than max(w, h) steps apart. */
  lemma RayBound(w: int, h: int, p: Coord, d: Direction, n: nat)
    requires InBoundsWH(w, h, p) && InBoundsWH(w, h, Shift(p, d, n))
    ensures n < if w < h then h else w
  {
    ShiftCoords(p, d, n);
    match d
    case N => case NE => case E => case SE =>
    case S => case SW => case W => case NW =>
  }

  // ---------------------------------------------------------------- the loop

  /** The loop body's first step on the entered cell: a DATA tile is consumed. */
  function Enter(g: Graph, c: Coord): (g': Graph)
    requires WellFormed(g) && c in g.cells
    ensures WellFormed(g') && g'.width == g.width && g'.height == g.height
    ensures g'.player == g.player
  {
    SetCellKindFrame(g, c, Blank);
    if KindAt(g, c) == Data then DecreaseDataCount(SetCellKind(g, c, Blank)) else g
  }

  /** Entering turns a DATA cell into BLANK, lowers the count by one, and touches nothing else. */
  lemma EnterFrame(g: Graph, c: Coord)
    requires WellFormed(g) && c in g.cells
    ensures var g' := Enter(g, c);
      && g'.cells.Keys == g.cells.Keys
      && KindAt(g', c) == (if KindAt(g, c) == Data then Blank else KindAt(g, c))
      && (forall e | e in g.cells && e != c :: KindAt(g', e) == KindAt(g, e))
      && (forall e | e in g.cells :: Occupied(g', e) == Occupied(g, e))
      && g'.totalData == g.totalData - (if KindAt(g, c) == Data then 1 else 0)
      && DataCells(g') == DataCells(g) - {c}
  {
    SetCellKindFrame(g, c, Blank);
  }

  /**
   * The slide loop, entered on cell c: consume DATA, die on VIRUS, stop on
   * HUB, otherwise look ahead and stop before the border or a FIREWALL.
   */
  function Advance(g: Graph, c: Coord, d: Direction, collected: nat): (r: LoopEnd)
    requires WellFormed(g) && c in g.cells
    ensures WellFormed(r.graph) && r.end in r.graph.cells
    ensures r.graph.width == g.width && r.graph.height == g.height
    ensures r.graph.player == g.player
    decreases g.width + g.height - Progress(c, d)
  {
    ProgressBound(g.width, g.height, c, d);
    if KindAt(g, c) == Virus then LoopEnd(g, c, true, collected)
    else
      var g1 := Enter(g, c);
      var n1 := if KindAt(g, c) == Data then collected + 1 else collected;
      if KindAt(g1, c) == Hub then LoopEnd(g1, c, false, n1)
      else
        match Neighbor(g1, c, d)
        case None => LoopEnd(g1, c, false, n1)
        case Some(next) =>
          if KindAt(g1, next) == Firewall then LoopEnd(g1, c, false, n1)
          else
            ProgressStep(c, d);
            Advance(g1, next, d, n1)
  }

  /**
   * What the loop promises when entered on c with n gems so far: it ends k
   * cells further at the stopping cell of `SlidePath`, dies iff that cell
   * is a VIRUS, turns exactly the DATA cells of the crossed segment into
   * BLANK, counts them, lowers `totalData` by that count, and changes
   * nothing else.
   */
  ghost predicate LoopSpec(g: Graph, c: Coord, d: Direction, n: nat, k: nat, r: LoopEnd)
  {
    var crossed := DataCells(g) * Seg(c, d, k);
    && SlidePath(g, c, d, k)
    && r.end == Shift(c, d, k)
    && r.end in g.cells
    && (r.died <==> KindAt(g, r.end) == Virus)
    && r.collected == n + |crossed|
    && r.graph.totalData == g.totalData - |crossed|
    && r.graph.cells.Keys == g.cells.Keys
    && (forall e | e in g.cells ::
          && KindAt(r.graph, e) == (if e in crossed then Blank else KindAt(g, e))
          && Occupied(r.graph, e) == Occupied(g, e))
  }

  /** The loop ends on the cell it entered when that cell stops the slide. */
  lemma AdvanceStops(g: Graph, c: Coord, d: Direction, n: nat)
    requires WellFormed(g) && Open(g, c) && Stops(g, c, d)
    ensures LoopSpec(g, c, d, n, 0, Advance(g, c, d, n))
  {
    SegZero(c, d);
    if KindAt(g, c) == Virus {
      assert Advance(g, c, d, n) == LoopEnd(g, c, true, n);
      assert DataCells(g) * Seg(c, d, 0) == {};
    } else {
      AdvanceStopsAlive(g, c, d, n);
      EnterFrame(g, c);
      assert DataCells(g) * Seg(c, d, 0) == if KindAt(g, c) == Data then {c} else {};
    }
  }

  lemma AdvanceStopsAlive(g: Graph, c: Coord, d: Direction, n: nat)
    requires WellFormed(g) && Open(g, c) && Stops(g, c, d) && KindAt(g, c) != Virus
    ensures var n1 := if KindAt(g, c) == Data then n + 1 else n;
      Advance(g, c, d, n) == LoopEnd(Enter(g, c), c, false, n1)
  {
    EnterFrame(g, c);
    var g1 := Enter(g, c);
    var nx := Step(c, d);
    if nx in g.cells {
      ProgressStep(c, d);
      assert KindAt(g1, nx) == KindAt(g, nx);
    }
  }

  /** When c does not stop the slide, the loop goes on from the next cell of the ray. */
  lemma AdvanceUnfoldMove(g: Graph, c: Coord, d: Direction, n: nat)
    requires WellFormed(g) && Open(g, c) && !Stops(g, c, d)
    ensures var n1 := if KindAt(g, c) == Data then n + 1 else n;
      && Open(Enter(g, c), Step(c, d))
      && Progress(c, d) < Progress(Step(c, d), d)
      && Advance(g, c, d, n) == Advance(Enter(g, c), Step(c, d), d, n1)
  {
    EnterFrame(g, c);
    ProgressStep(c, d);
    var g1 := Enter(g, c);
    var nx := Step(c, d);
    assert KindAt(g, c) != Virus && KindAt(g1, c) != Hub;
    assert Neighbor(g1, c, d) == Some(nx) by {
      assert Neighbor(g1, c, d) == ExpectedLink(g1.width, g1.height, c, d);
    }
    assert KindAt(g1, nx) == KindAt(g, nx) != Firewall;
  }

  /** A path from the next cell in the entered graph extends to a path from c in the original. */
  lemma SlidePathExtend(g: Graph, c: Coord, d: Direction, k: nat)
    requires WellFormed(g) && Open(g, c) && !Stops(g, c, d)
    requires SlidePath(Enter(g, c), Step(c, d), d, k)
    ensures SlidePath(g, c, d, k + 1)
    ensures Shift(Step(c, d), d, k) == Shift(c, d, k + 1) != c
  {
    var g1 := Enter(g, c);
    var nx := Step(c, d);
    assert SlidePath(g, nx, d, k) by {
      EnterFrame(g, c);
      ProgressStep(c, d);
      forall e | e in g.cells && Progress(nx, d) <= Progress(e, d)
        ensures KindAt(g1, e) == KindAt(g, e)
      {
      }
      SlidePathFrame(g1, g, nx, d, k);
    }
    SlidePathCons(g, c, d, k);
    ShiftSucc(c, d, k);
    ProgressShift(c, d, k + 1);
  }

  /** An open cell the slide does not stop on, followed by a path from the next cell, is a path. */
  lemma SlidePathCons(g: Graph, c: Coord, d: Direction, k: nat)
    requires Open(g, c) && !Stops(g, c, d)
    requires SlidePath(g, Step(c, d), d, k)
    ensures SlidePath(g, c, d, k + 1)
  {
    forall j | 0 <= j <= k + 1
      ensures Open(g, Shift(c, d, j))
      ensures j < k + 1 ==> !Stops(g, Shift(c, d, j), d)
    {
      if j > 0 {
        ShiftSucc(c, d, j - 1);
      }
    }
    ShiftSucc(c, d, k);
  }

  /** The DATA cells crossed from c are c itself (if DATA) and those crossed from the next cell. */
  lemma CrossedExtend(g: Graph, c: Coord, d: Direction, k: nat)
    requires WellFormed(g) && c in g.cells
    ensures var g1 := Enter(g, c);
      var here := if KindAt(g, c) == Data then {c} else {};
      && DataCells(g) * Seg(c, d, k + 1) == here + DataCells(g1) * Seg(Step(c, d), d, k)
      && |DataCells(g) * Seg(c, d, k + 1)| == |here| + |DataCells(g1) * Seg(Step(c, d), d, k)|
      && c !in Seg(Step(c, d), d, k)
  {
    EnterFrame(g, c);
    assert c in DataCells(g) <==> KindAt(g, c) == Data;
    CrossedSets(DataCells(g), DataCells(Enter(g, c)), c, d, k);
  }

  /** Removing c from S does not change its cells on the segment after c. */
  lemma CrossedSets(S: set<Coord>, S1: set<Coord>, c: Coord, d: Direction, k: nat)
    requires S1 == S - {c}
    ensures var here := if c in S then {c} else {};
      && S * Seg(c, d, k + 1) == here + S1 * Seg(Step(c, d), d, k)
      && |S * Seg(c, d, k + 1)| == |here| + |S1 * Seg(Step(c, d), d, k)|
      && c !in Seg(Step(c, d), d, k)
  {
    SegSucc(c, d, k);
    var rest := Seg(Step(c, d), d, k);
    assert S1 * rest == S * rest;
    var here := if c in S then {c} else {};
    assert here !! S * rest;
  }

  /** One more cell: if c does not stop the slide, the loop continues from its successor. */
  lemma AdvanceMoves(g: Graph, c: Coord, d: Direction, n: nat, k: nat) returns (k1: nat)
    requires WellFormed(g) && Open(g, c) && !Stops(g, c, d)
    requires var n1 := if KindAt(g, c) == Data then n + 1 else n;
      LoopSpec(Enter(g, c), Step(c, d), d, n1, k, Advance(Enter(g, c), Step(c, d), d, n1))
    ensures k1 == k + 1
    ensures LoopSpec(g, c, d, n, k1, Advance(g, c, d, n))
  {
    k1 := k + 1;
    var g1 := Enter(g, c);
    var nx := Step(c, d);
    AdvanceUnfoldMove(g, c, d, n);
    SlidePathExtend(g, c, d, k);
    CrossedExtend(g, c, d, k);
    EnterFrame(g, c);
  }

  /** The loop meets `LoopSpec` for the unique k of its `SlidePath`. */
  lemma {:induction false} AdvanceSpec(g: Graph, c: Coord, d: Direction, n: nat) returns (k: nat)
    requires WellFormed(g) && Open(g, c)
    ensures LoopSpec(g, c, d, n, k, Advance(g, c, d, n))
    decreases g.width + g.height - Progress(c, d)
  {
    if Stops(g, c, d) {
      AdvanceStops(g, c, d, n);
      k := 0;
    } else {
      var g1 := Enter(g, c);
      var nx := Step(c, d);
      assert Open(g1, nx) && Progress(c, d) < Progress(nx, d) < g.width + g.height by {
        EnterFrame(g, c);
        ProgressStep(c, d);
        ProgressBound(g.width, g.height, nx, d);
      }
      var n1 := if KindAt(g, c) == Data then n + 1 else n;
      var k' := AdvanceSpec(g1, nx, d, n1);
      k := AdvanceMoves(g, c, d, n, k');
    }
  }

  // ---------------------------------------------------------------- simulate

  /**
   * `simulate`: a move toward a missing or FIREWALL neighbour is refused
   * with (false, false, 0) and no change; otherwise the token leaves its
   * node, slides, and occupies the node the loop ends on.
   */
  function Simulate(g: Graph, dir: Direction): (r: Move)
    requires WellFormed(g) && g.player.Some?
    ensures !r.result.success <==>
              Neighbor(g, g.player.value, dir).None? || KindAt(g, Neighbor(g, g.player.value, dir).value) == Firewall
    ensures !r.result.success ==> r.graph == g && r.result == MoveResult(false, false, 0)
    ensures WellFormed(r.graph) && r.graph.player.Some?
  {
    var current := g.player.value;
    match Neighbor(g, current, dir)
    case None => Move(MoveResult(false, false, 0), g)
    case Some(next) =>
      if KindAt(g, next) == Firewall then Move(MoveResult(false, false, 0), g)
      else
        SetCellPlayerFrame(g, current, false);
        var g1 := SetCellPlayer(g, current, false);
        var s := Advance(g1, next, dir, 0);
        SetCellPlayerFrame(s.graph, s.end, true);
        var g2 := SetCellPlayer(s.graph, s.end, true);
        SetPlayerNodeFrame(g2, s.end);
        Move(MoveResult(true, s.died, s.collected), SetPlayerNode(g2, s.end))
  }

  /**
   * Where a successful move goes: the token enters at the neighbour and
   * ends k cells further at the stopping cell of `SlidePath`, which
   * becomes `playerNode`; it died iff that cell is a VIRUS.
   */
  ghost predicate MovePath(g: Graph, dir: Direction, k: nat, r: Move)
    requires WellFormed(g) && g.player.Some?
  {
    var first := Step(g.player.value, dir);
    var end := Shift(first, dir, k);
    && SlidePath(g, first, dir, k)
    && end == Shift(g.player.value, dir, k + 1)
    && end in g.cells
    && r.graph.player == Some(end)
    && (r.result.isDead <==> KindAt(g, end) == Virus)
  }

  /**
   * What a successful move changes: the DATA cells crossed become BLANK
   * and are exactly the gems counted; the count of DATA tiles drops by the
   * gems; every other cell keeps its kind; occupancy moves from the old
   * node to the end node.
   */
  ghost predicate MoveEffect(g: Graph, dir: Direction, k: nat, r: Move)
    requires WellFormed(g) && g.player.Some?
  {
    var first := Step(g.player.value, dir);
    var end := Shift(first, dir, k);
    var crossed := DataCells(g) * Seg(first, dir, k);
    && r.result.gemsCollected == |crossed|
    && r.graph.totalData == g.totalData - |crossed|
    && r.graph.cells.Keys == g.cells.Keys
    && (forall e | e in g.cells ::
          && KindAt(r.graph, e) == (if e in crossed then Blank else KindAt(g, e))
          && (Occupied(r.graph, e) <==> e == end || (Occupied(g, e) && e != g.player.value)))
  }

  ghost predicate MoveSpec(g: Graph, dir: Direction, k: nat, r: Move)
    requires WellFormed(g) && g.player.Some?
  {
    MovePath(g, dir, k, r) && MoveEffect(g, dir, k, r)
  }

  /** The successful branch of `simulate`: leave the node, run the loop, occupy its end. */
  lemma SimulateUnfold(g: Graph, dir: Direction)
    requires WellFormed(g) && g.player.Some?
    requires Simulate(g, dir).result.success
    ensures var p := g.player.value;
      var g1 := SetCellPlayer(g, p, false);
      var first := Step(p, dir);
      && WellFormed(g1) && Open(g1, first)
      && var s := Advance(g1, first, dir, 0);
      && Simulate(g, dir) == Move(MoveResult(true, s.died, s.collected),
                                  SetPlayerNode(SetCellPlayer(s.graph, s.end, true), s.end))
  {
    SetCellPlayerFrame(g, g.player.value, false);
  }

  lemma {:induction false} SimulateSpec(g: Graph, dir: Direction) returns (k: nat)
    requires WellFormed(g) && g.player.Some?
    requires Simulate(g, dir).result.success
    ensures MoveSpec(g, dir, k, Simulate(g, dir))
  {
    var p := g.player.value;
    var g1 := SetCellPlayer(g, p, false);
    var first := Step(p, dir);
    SimulateUnfold(g, dir);
    var k0 := AdvanceSpec(g1, first, dir, 0);
    k := MoveFromLoop(g, dir, k0);
  }

  lemma MoveFromLoop(g: Graph, dir: Direction, k0: nat) returns (k: nat)
    requires WellFormed(g) && g.player.Some?
    requires Simulate(g, dir).result.success
    requires var g1 := SetCellPlayer(g, g.player.value, false);
      var first := Step(g.player.value, dir);
      && WellFormed(g1) && Open(g1, first)
      && LoopSpec(g1, first, dir, 0, k0, Advance(g1, first, dir, 0))
    ensures k == k0
    ensures MoveSpec(g, dir, k, Simulate(g, dir))
  {
    k := k0;
    var p := g.player.value;
    var g1 := SetCellPlayer(g, p, false);
    var first := Step(p, dir);
    SimulateUnfold(g, dir);
    var s := Advance(g1, first, dir, 0);
    var r := Simulate(g, dir);
    MovePathOf(g, dir, k, g1, s, r);
    MoveEffectOf(g, dir, k, g1, s, r);
  }

  /** The move's path, read off the loop's path in the graph the token has left. */
  lemma MovePathOf(g: Graph, dir: Direction, k: nat, g1: Graph, s: LoopEnd, r: Move)
    requires WellFormed(g) && g.player.Some?
    requires g1 == SetCellPlayer(g, g.player.value, false)
    requires LoopSpec(g1, Step(g.player.value, dir), dir, 0, k, s)
    requires r.result == MoveResult(true, s.died, s.collected) && r.graph.player == Some(s.end)
    ensures MovePath(g, dir, k, r)
  {
    var p := g.player.value;
    var first := Step(p, dir);
    SetCellPlayerFrame(g, p, false);
    SlidePathFrame(g1, g, first, dir, k);
    ShiftSucc(p, dir, k);
  }

  /** The move's effect, read off the loop's effect in the graph the token has left. */
  lemma MoveEffectOf(g: Graph, dir: Direction, k: nat, g1: Graph, s: LoopEnd, r: Move)
    requires WellFormed(g) && g.player.Some?
    requires g1 == SetCellPlayer(g, g.player.value, false)
    requires LoopSpec(g1, Step(g.player.value, dir), dir, 0, k, s)
    requires WellFormed(s.graph) && s.end in s.graph.cells
    requires r == Move(MoveResult(true, s.died, s.collected),
                       SetPlayerNode(SetCellPlayer(s.graph, s.end, true), s.end))
    ensures MoveEffect(g, dir, k, r)
  {
    var p := g.player.value;
    var first := Step(p, dir);
    SetCellPlayerFrame(g, p, false);
    SetCellPlayerFrame(s.graph, s.end, true);
    var crossed := DataCells(g) * Seg(first, dir, k);
    assert DataCells(g1) == DataCells(g);
    forall e | e in g.cells
      ensures KindAt(r.graph, e) == (if e in crossed then Blank else KindAt(g, e))
    {
      assert KindAt(r.graph, e) == KindAt(s.graph, e);
    }
    OccupancyAfterMove(g, g1, s.graph, s.end, r.graph);
  }

  /** Leaving p, then occupying `end` after a loop that kept occupancy, moves the token from p to `end`. */
  lemma OccupancyAfterMove(g: Graph, g1: Graph, sg: Graph, end: Coord, rg: Graph)
    requires WellFormed(g) && g.player.Some?
    requires g1 == SetCellPlayer(g, g.player.value, false)
    requires WellFormed(sg) && end in sg.cells && sg.cells.Keys == g.cells.Keys
    requires forall e | e in g1.cells :: Occupied(sg, e) == Occupied(g1, e)
    requires rg == SetPlayerNode(SetCellPlayer(sg, end, true), end)
    ensures forall e | e in g.cells :: Occupied(rg, e) <==> e == end || (Occupied(g, e) && e != g.player.value)
  {
    SetCellPlayerFrame(g, g.player.value, false);
    SetCellPlayerFrame(sg, end, true);
    forall e | e in g.cells
      ensures Occupied(rg, e) <==> e == end || (Occupied(g, e) && e != g.player.value)
    {
      if e != end {
        assert Occupied(rg, e) == Occupied(sg, e) == Occupied(g1, e);
      }
    }
  }

  /** Every move, refused or not, preserves the game invariant. */
  lemma SimulatePreservesInv(g: Graph, dir: Direction)
    requires Inv(g)
    ensures Inv(Simulate(g, dir).graph)
  {
    var r := Simulate(g, dir);
    if r.result.success {
      var k := SimulateSpec(g, dir);
      InvAfterMove(g, dir, k, r);
    }
  }

  lemma InvAfterMove(g: Graph, dir: Direction, k: nat, r: Move)
    requires Inv(g) && MoveSpec(g, dir, k, r)
    requires WellFormed(r.graph)
    ensures Inv(r.graph)
  {
    var first := Step(g.player.value, dir);
    var crossed := DataCells(g) * Seg(first, dir, k);
    assert DataCells(r.graph) == DataCells(g) - crossed by {
      forall e | e in r.graph.cells
        ensures e in DataCells(r.graph) <==> e in DataCells(g) - crossed
      {
        assert KindAt(r.graph, e) == (if e in crossed then Blank else KindAt(g, e));
      }
    }
    DiffCard(DataCells(g), crossed);
  }

  /** Removing a subset removes its number of elements. */
  lemma DiffCard(a: set<Coord>, c: set<Coord>)
    requires c <= a
    ensures |a - c| == |a| - |c|
  {
    assert a == (a - c) + c;
  }

  /** A refused move changes nothing: occupant, kinds and count stay as they were. */
  lemma SimulateBlocked(g: Graph, dir: Direction)
    requires Inv(g)
    requires Neighbor(g, g.player.value, dir).None? || KindAt(g, Neighbor(g, g.player.value, dir).value) == Firewall
    ensures Simulate(g, dir) == Move(MoveResult(false, false, 0), g)
    ensures Inv(Simulate(g, dir).graph)
  {
  }
}
