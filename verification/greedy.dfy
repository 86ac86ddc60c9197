/**
 * The CPU player's greedy selector: src/cpu/GreedyStrategy.java.
 *
 * For each direction the selector walks the would-be slide without
 * touching the graph (`SimulateSlide`). Unlike the real engine the walk
 * does not stop at a VIRUS: it notes it and goes on to a HUB or to the
 * last open cell. Each direction is scored DATA_VALUE per DATA tile crossed
 * minus the distance to the nearest remaining DATA tile, or -DEATH_PENALTY
 * if a VIRUS lies on the way; the strictly best score wins, so ties keep
 * the earliest direction of `Direction.ALL`.
 *
 * `Math.sqrt` is not modelled: a distance is `root(d2)` for the squared
 * integer distance d2 and a caller-supplied function `root`.
 */
module Greedy {
  import opened Wrappers
  import opened Tiles
  import opened Directions
  import opened Graphs
  import opened Slide

  const DATA_VALUE: int := 100
  const DEATH_PENALTY: int := 99999

  /** `SimulationResult`: end node, DATA count, VIRUS seen, DATA nodes crossed. */
  datatype SimulationResult = SimulationResult(endNode: Coord, dataCollected: nat,
                                               hitsVirus: bool, collectedNodes: set<Coord>)

  // ---------------------------------------------------------------- speculative walk

  /** The walk stops on c: a HUB, or the next cell is closed. A VIRUS does not stop it. */
  ghost predicate WalkStops(g: Graph, c: Coord, d: Direction)
    requires c in g.cells
  {
    KindAt(g, c) == Hub || !Open(g, Step(c, d))
  }

  /** Entering at `s`, the walk passes k cells and stops on start+k·d. */
  ghost predicate WalkPath(g: Graph, s: Coord, d: Direction, k: nat)
  {
    && (forall j :: 0 <= j <= k ==> Open(g, Shift(s, d, j)))
    && (forall j :: 0 <= j < k ==> !WalkStops(g, Shift(s, d, j), d))
    && WalkStops(g, Shift(s, d, k), d)
  }

  ghost function VirusCells(g: Graph): set<Coord>
  {
    set c | c in g.cells && g.cells[c].tile.kind == Virus
  }

  /** The loop of `simulateSlide`, entered on cell c with the tallies so far. */
  function Walk(g: Graph, c: Coord, d: Direction, n: nat, virus: bool, nodes: set<Coord>): (r: SimulationResult)
    requires WellFormed(g) && c in g.cells
    decreases g.width + g.height - Progress(c, d)
  {
    ProgressBound(g.width, g.height, c, d);
    var n1 := if KindAt(g, c) == Data then n + 1 else n;
    var nodes1 := if KindAt(g, c) == Data then nodes + {c} else nodes;
    var virus1 := if KindAt(g, c) == Virus then true else virus;
    if KindAt(g, c) == Hub then SimulationResult(c, n1, virus1, nodes1)
    else
      match Neighbor(g, c, d)
      case None => SimulationResult(c, n1, virus1, nodes1)
      case Some(next) =>
        if KindAt(g, next) == Firewall then SimulationResult(c, n1, virus1, nodes1)
        else
          ProgressStep(c, d);
          Walk(g, next, d, n1, virus1, nodes1)
  }

  /**
   * `simulateSlide`: a missing or FIREWALL neighbour gives (start, 0, false, {});
   * otherwise the walk runs from the neighbour.
   */
  function SimulateSlide(g: Graph, start: Coord, d: Direction): SimulationResult
    requires WellFormed(g) && start in g.cells
  {
    match Neighbor(g, start, d)
    case None => SimulationResult(start, 0, false, {})
    case Some(next) =>
      if KindAt(g, next) == Firewall then SimulationResult(start, 0, false, {})
      else Walk(g, next, d, 0, false, {})
  }

  /**
   * What the walk promises when entered on c: it ends k cells further at
   * the stopping cell of `WalkPath`; the DATA nodes it adds are exactly the
   * DATA cells of the crossed segment, and its count grows by their number;
   * it reports a VIRUS iff one was already seen or one lies on the segment.
   */
  ghost predicate WalkSpec(g: Graph, c: Coord, d: Direction, n: nat, virus: bool, nodes: set<Coord>,
                           k: nat, r: SimulationResult)
  {
    var crossed := DataCells(g) * Seg(c, d, k);
    && WalkPath(g, c, d, k)
    && r.endNode == Shift(c, d, k)
    && r.collectedNodes == nodes + crossed
    && r.dataCollected == n + |crossed|
    && (r.hitsVirus <==> virus || VirusCells(g) * Seg(c, d, k) != {})
  }

  lemma WalkStopsHere(g: Graph, c: Coord, d: Direction, n: nat, virus: bool, nodes: set<Coord>)
    requires WellFormed(g) && Open(g, c) && WalkStops(g, c, d)
    ensures WalkSpec(g, c, d, n, virus, nodes, 0, Walk(g, c, d, n, virus, nodes))
  {
    var r := Walk(g, c, d, n, virus, nodes);
    assert r.endNode == c;
    assert r.collectedNodes == if KindAt(g, c) == Data then nodes + {c} else nodes;
    assert r.dataCollected == if KindAt(g, c) == Data then n + 1 else n;
    assert r.hitsVirus <==> virus || KindAt(g, c) == Virus;
    assert Shift(c, d, 0) == c;
    assert c in DataCells(g) <==> KindAt(g, c) == Data;
    assert c in VirusCells(g) <==> KindAt(g, c) == Virus;
    CellsOnSegZero(DataCells(g), c, d);
    CellsOnSegZero(VirusCells(g), c, d);
  }

  /** The cells of a set S on the one-cell segment at c. */
  lemma CellsOnSegZero(S: set<Coord>, c: Coord, d: Direction)
    ensures S * Seg(c, d, 0) == if c in S then {c} else {}
  {
    SegZero(c, d);
  }

  /** When c does not stop the walk, it goes on from the next cell with updated tallies. */
  lemma WalkUnfoldMove(g: Graph, c: Coord, d: Direction, n: nat, virus: bool, nodes: set<Coord>)
    requires WellFormed(g) && Open(g, c) && !WalkStops(g, c, d)
    ensures var n1 := if KindAt(g, c) == Data then n + 1 else n;
      var nodes1 := if KindAt(g, c) == Data then nodes + {c} else nodes;
      var virus1 := virus || KindAt(g, c) == Virus;
      && Open(g, Step(c, d))
      && Progress(c, d) < Progress(Step(c, d), d)
      && Walk(g, c, d, n, virus, nodes) == Walk(g, Step(c, d), d, n1, virus1, nodes1)
  {
    ProgressStep(c, d);
  }

  /** The walk's path from the next cell extends by one to the path from c. */
  lemma WalkPathExtend(g: Graph, c: Coord, d: Direction, k: nat)
    requires Open(g, c) && !WalkStops(g, c, d)
    requires WalkPath(g, Step(c, d), d, k)
    ensures WalkPath(g, c, d, k + 1)
  {
    assert Shift(c, d, 0) == c;
    forall j | 0 <= j <= k + 1
      ensures Open(g, Shift(c, d, j))
      ensures j < k + 1 ==> !WalkStops(g, Shift(c, d, j), d)
    {
      if j > 0 {
        ShiftSucc(c, d, j - 1);
      }
    }
    ShiftSucc(c, d, k);
  }

  /** The cells of a set S on a segment: the first cell, then the rest of the segment. */
  lemma CellsOnSegSucc(S: set<Coord>, c: Coord, d: Direction, k: nat)
    ensures S * Seg(c, d, k + 1) == (if c in S then {c} else {}) + S * Seg(Step(c, d), d, k)
    ensures c !in S * Seg(Step(c, d), d, k)
  {
    SegSucc(c, d, k);
  }

  /** One more cell: the spec from the next cell extends to the spec from c. */
  lemma WalkExtend(g: Graph, c: Coord, d: Direction, n: nat, virus: bool, nodes: set<Coord>,
                   k: nat, r: SimulationResult)
    requires WellFormed(g) && Open(g, c) && !WalkStops(g, c, d)
    requires var n1 := if KindAt(g, c) == Data then n + 1 else n;
      var nodes1 := if KindAt(g, c) == Data then nodes + {c} else nodes;
      var virus1 := virus || KindAt(g, c) == Virus;
      WalkSpec(g, Step(c, d), d, n1, virus1, nodes1, k, r)
    ensures WalkSpec(g, c, d, n, virus, nodes, k + 1, r)
  {
    WalkPathExtend(g, c, d, k);
    ShiftSucc(c, d, k);
    assert c in DataCells(g) <==> KindAt(g, c) == Data;
    assert c in VirusCells(g) <==> KindAt(g, c) == Virus;
    TallyExtend(DataCells(g), c, d, k, nodes, n, r.collectedNodes, r.dataCollected);
    FlagExtend(VirusCells(g), c, d, k, virus, r.hitsVirus);
  }

  /** The DATA tallies over the segment from c: c's contribution, then the rest. */
  lemma TallyExtend(S: set<Coord>, c: Coord, d: Direction, k: nat, nodes: set<Coord>, n: nat,
                    rn: set<Coord>, rc: nat)
    requires rn == (if c in S then nodes + {c} else nodes) + S * Seg(Step(c, d), d, k)
    requires rc == (if c in S then n + 1 else n) + |S * Seg(Step(c, d), d, k)|
    ensures rn == nodes + S * Seg(c, d, k + 1)
    ensures rc == n + |S * Seg(c, d, k + 1)|
  {
    CellsOnSegSucc(S, c, d, k);
  }

  /** The VIRUS flag over the segment from c: c itself, or the rest. */
  lemma FlagExtend(S: set<Coord>, c: Coord, d: Direction, k: nat, virus: bool, flag: bool)
    requires flag <==> (virus || c in S) || S * Seg(Step(c, d), d, k) != {}
    ensures flag <==> virus || S * Seg(c, d, k + 1) != {}
  {
    CellsOnSegSucc(S, c, d, k);
  }

  lemma {:induction false} WalkCorrect(g: Graph, c: Coord, d: Direction, n: nat, virus: bool, nodes: set<Coord>)
    returns (k: nat)
    requires WellFormed(g) && Open(g, c)
    ensures WalkSpec(g, c, d, n, virus, nodes, k, Walk(g, c, d, n, virus, nodes))
    decreases g.width + g.height - Progress(c, d)
  {
    if WalkStops(g, c, d) {
      WalkStopsHere(g, c, d, n, virus, nodes);
      k := 0;
    } else {
      ProgressBound(g.width, g.height, c, d);
      WalkUnfoldMove(g, c, d, n, virus, nodes);
      var n1 := if KindAt(g, c) == Data then n + 1 else n;
      var nodes1 := if KindAt(g, c) == Data then nodes + {c} else nodes;
      var virus1 := virus || KindAt(g, c) == Virus;
      var k' := WalkCorrect(g, Step(c, d), d, n1, virus1, nodes1);
      k := WalkStep(g, c, d, n, virus, nodes, k', Walk(g, c, d, n, virus, nodes));
    }
  }

  lemma WalkStep(g: Graph, c: Coord, d: Direction, n: nat, virus: bool, nodes: set<Coord>,
                 k': nat, r: SimulationResult) returns (k: nat)
    requires WellFormed(g) && Open(g, c) && !WalkStops(g, c, d)
    requires var n1 := if KindAt(g, c) == Data then n + 1 else n;
      var nodes1 := if KindAt(g, c) == Data then nodes + {c} else nodes;
      var virus1 := virus || KindAt(g, c) == Virus;
      WalkSpec(g, Step(c, d), d, n1, virus1, nodes1, k', r)
    ensures k == k' + 1
    ensures WalkSpec(g, c, d, n, virus, nodes, k, r)
  {
    WalkExtend(g, c, d, n, virus, nodes, k', r);
    k := k' + 1;
  }

  /**
   * `simulateSlide` reads the graph only. A refused first step gives
   * (start, 0, false, {}); otherwise the walk from the neighbour ends k
   * cells further at its stopping cell, the collected nodes are exactly the
   * DATA cells crossed and are counted by `dataCollected`, and a VIRUS is
   * reported iff one lies on the crossed segment.
   */
  ghost predicate SimSlideSpec(g: Graph, start: Coord, d: Direction, k: nat, r: SimulationResult)
  {
    var first := Step(start, d);
    if !Open(g, first) then r == SimulationResult(start, 0, false, {})
    else
      && WalkPath(g, first, d, k)
      && r.endNode == Shift(first, d, k)
      && r.collectedNodes == DataCells(g) * Seg(first, d, k)
      && r.dataCollected == |r.collectedNodes|
      && (r.hitsVirus <==> VirusCells(g) * Seg(first, d, k) != {})
  }

  lemma SimulateSlideSpec(g: Graph, start: Coord, d: Direction) returns (k: nat)
    requires WellFormed(g) && start in g.cells
    ensures SimSlideSpec(g, start, d, k, SimulateSlide(g, start, d))
  {
    var first := Step(start, d);
    NeighborOpen(g, start, d);
    if Open(g, first) {
      k := WalkCorrect(g, first, d, 0, false, {});
    } else {
      k := 0;
    }
  }

  /** A walk with no VIRUS on it stops where the real slide stops. */
  lemma WalkIsSlide(g: Graph, s: Coord, d: Direction, k: nat)
    requires WalkPath(g, s, d, k)
    requires VirusCells(g) * Seg(s, d, k) == {}
    ensures SlidePath(g, s, d, k)
  {
    forall j | 0 <= j <= k
      ensures KindAt(g, Shift(s, d, j)) != Virus
    {
      var e := Shift(s, d, j);
      assert e !in VirusCells(g) by {
        assert e in Seg(s, d, k);
        assert e !in VirusCells(g) * Seg(s, d, k);
      }
    }
  }

  /** A refused first step: the neighbour is missing or a FIREWALL, i.e. the next cell is not open. */
  lemma NeighborOpen(g: Graph, c: Coord, d: Direction)
    requires WellFormed(g) && c in g.cells
    ensures (Neighbor(g, c, d).None? || KindAt(g, Neighbor(g, c, d).value) == Firewall) <==> !Open(g, Step(c, d))
  {
  }

  /**
   * On a trajectory with no VIRUS, the speculative walk from the occupant
   * and the real move agree: both are refused together, and otherwise the
   * move ends on the walk's end node having collected as many gems.
   */
  lemma WalkAgreesWithSlide(g: Graph, d: Direction)
    requires Inv(g)
    requires !SimulateSlide(g, g.player.value, d).hitsVirus
    ensures var sim := SimulateSlide(g, g.player.value, d);
      var mv := Simulate(g, d);
      && (mv.result.success <==> Open(g, Step(g.player.value, d)))
      && (mv.result.success ==>
            && mv.graph.player == Some(sim.endNode)
            && mv.result.gemsCollected == sim.dataCollected
            && !mv.result.isDead)
  {
    var p := g.player.value;
    var sim := SimulateSlide(g, p, d);
    var mv := Simulate(g, d);
    var k := SimulateSlideSpec(g, p, d);
    NeighborOpen(g, p, d);
    if mv.result.success {
      var k2 := SimulateSpec(g, d);
      AgreeOf(g, d, k, k2, sim, mv);
    }
  }

  lemma AgreeOf(g: Graph, d: Direction, k: nat, k2: nat, sim: SimulationResult, mv: Move)
    requires WellFormed(g) && g.player.Some?
    requires Open(g, Step(g.player.value, d))
    requires SimSlideSpec(g, g.player.value, d, k, sim) && !sim.hitsVirus
    requires MoveSpec(g, d, k2, mv)
    ensures mv.graph.player == Some(sim.endNode)
    ensures mv.result.gemsCollected == sim.dataCollected
    ensures !mv.result.isDead
  {
    var first := Step(g.player.value, d);
    WalkIsSlide(g, first, d, k);
    SlidePathUnique(g, first, d, k, k2);
    var e := Shift(first, d, k);
    assert e !in VirusCells(g) by {
      assert e in Seg(first, d, k);
      assert e !in VirusCells(g) * Seg(first, d, k);
    }
  }

  // ---------------------------------------------------------------- distance

  /** The running minimum of the scan over `coords`, none while no remaining node was seen. */
  function NearestOver(g: Graph, coords: seq<Coord>, from: Coord, exclude: set<Coord>, root: nat -> real): (r: Option<real>)
    ensures r.None? <==> forall i :: 0 <= i < |coords| ==> !Remaining(g, coords[i], exclude)
    ensures r.Some? ==> exists i :: 0 <= i < |coords| && Remaining(g, coords[i], exclude)
                                    && r.value == root(SqDist(coords[i], from))
    ensures r.Some? ==> forall i :: 0 <= i < |coords| && Remaining(g, coords[i], exclude)
                                    ==> r.value <= root(SqDist(coords[i], from))
  {
    if |coords| == 0 then None
    else
      var init := coords[..|coords| - 1];
      var c := coords[|coords| - 1];
      var best := NearestOver(g, init, from, exclude, root);
      if Remaining(g, c, exclude) then
        var dist := root(SqDist(c, from));
        if best.None? || dist < best.value then Some(dist) else best
      else best
  }

  /**
   * `distanceToNearestData`: scan `allNodes` for the nearest DATA node not
   * in `exclude`; 0 when there is none.
   */
  function DistanceToNearestData(g: Graph, from: Coord, exclude: set<Coord>, root: nat -> real): (r: real)
    requires WellFormed(g)
    ensures (forall c :: !Remaining(g, c, exclude)) ==> r == 0.0
    ensures (exists c :: Remaining(g, c, exclude)) ==>
              && (exists c :: Remaining(g, c, exclude) && r == root(SqDist(c, from)))
              && (forall c :: Remaining(g, c, exclude) ==> r <= root(SqDist(c, from)))
  {
    RowMajorContents(g.width, g.height);
    var coords := RowMajor(g.width, g.height);
    assert forall c :: Remaining(g, c, exclude) ==> exists i :: 0 <= i < |coords| && coords[i] == c;
    match NearestOver(g, coords, from, exclude, root)
    case None => 0.0
    case Some(m) => m
  }

  /** With a non-negative `root`, the distance is never negative. */
  lemma DistanceNonNegative(g: Graph, from: Coord, exclude: set<Coord>, root: nat -> real)
    requires WellFormed(g)
    requires forall n: nat :: 0.0 <= root(n)
    ensures 0.0 <= DistanceToNearestData(g, from, exclude, root)
  {
    if exists c :: Remaining(g, c, exclude) {
      var c :| Remaining(g, c, exclude) && DistanceToNearestData(g, from, exclude, root) == root(SqDist(c, from));
    }
  }

  // ---------------------------------------------------------------- selection

  /** A direction `getBestDirection` skips: the walk stays put and collects nothing. */
  predicate Skipped(g: Graph, d: Direction)
    requires WellFormed(g) && g.player.Some?
  {
    var sim := SimulateSlide(g, g.player.value, d);
    sim.endNode == g.player.value && sim.dataCollected == 0
  }

  /** A direction is skipped exactly when its first step is refused: a slide never ends where it began. */
  lemma SkippedIffBlocked(g: Graph, d: Direction)
    requires WellFormed(g) && g.player.Some?
    ensures Skipped(g, d) <==> !Open(g, Step(g.player.value, d))
  {
    var p := g.player.value;
    var k := SimulateSlideSpec(g, p, d);
    if Open(g, Step(p, d)) {
      ProgressShift(Step(p, d), d, k);
      ProgressStep(p, d);
    }
  }

  /** The heuristic value of a direction: -DEATH_PENALTY on a VIRUS, else gems·DATA_VALUE − distance. */
  function Score(g: Graph, d: Direction, root: nat -> real): (r: real)
    requires WellFormed(g) && g.player.Some?
    ensures SimulateSlide(g, g.player.value, d).hitsVirus ==> r == -(DEATH_PENALTY as real)
    ensures (forall n: nat :: 0.0 <= root(n)) && !SimulateSlide(g, g.player.value, d).hitsVirus ==>
              r <= (SimulateSlide(g, g.player.value, d).dataCollected * DATA_VALUE) as real
  {
    var sim := SimulateSlide(g, g.player.value, d);
    if sim.hitsVirus then -(DEATH_PENALTY as real)
    else
      var distance := DistanceToNearestData(g, sim.endNode, sim.collectedNodes, root);
      assert (forall n: nat :: 0.0 <= root(n)) ==> 0.0 <= distance by {
        if forall n: nat :: 0.0 <= root(n) {
          DistanceNonNegative(g, sim.endNode, sim.collectedNodes, root);
        }
      }
      (sim.dataCollected * DATA_VALUE) as real - distance
  }

  /**
   * `getBestDirection`: none iff every direction is skipped; otherwise a
   * direction that is not skipped, whose score is at least that of every
   * other unskipped direction and strictly above that of every unskipped
   * direction before it in `all`.
   */
  method GetBestDirection(g: Graph, all: seq<Direction>, root: nat -> real) returns (best: Option<Direction>)
    requires WellFormed(g) && g.player.Some? && IsEnumeration(all)
    ensures best.None? <==> forall i :: 0 <= i < |all| ==> Skipped(g, all[i])
    ensures best.None? <==> forall i :: 0 <= i < |all| ==> !Open(g, Step(g.player.value, all[i]))
    ensures best.Some? ==> best.value in all && !Skipped(g, best.value)
    ensures best.Some? ==> forall i :: 0 <= i < |all| && !Skipped(g, all[i])
                             ==> Score(g, all[i], root) <= Score(g, best.value, root)
    ensures best.Some? ==> forall i, j :: 0 <= i < j < |all| && all[j] == best.value && !Skipped(g, all[i])
                             ==> Score(g, all[i], root) < Score(g, best.value, root)
  {
    var playerNode := g.player.value;
    best := None;
    var bestScore: real := 0.0;
    ghost var at := 0;
    for i := 0 to |all|
      invariant best.None? <==> forall j :: 0 <= j < i ==> Skipped(g, all[j])
      invariant best.Some? ==> 0 <= at < i && all[at] == best.value && !Skipped(g, best.value)
      invariant best.Some? ==> bestScore == Score(g, best.value, root)
      invariant best.Some? ==> AtMost(g, all, root, i, bestScore)
      invariant best.Some? ==> forall j :: 0 <= j < at && !Skipped(g, all[j]) ==> Score(g, all[j], root) < bestScore
    {
      var dir := all[i];
      var sim := SimulateSlide(g, playerNode, dir);
      if sim.endNode == playerNode && sim.dataCollected == 0 {
        assert Skipped(g, dir);
        if best.Some? {
          AtMostStep(g, all, root, i, bestScore, bestScore);
        }
        continue;
      }
      var score: real;
      if sim.hitsVirus {
        score := -(DEATH_PENALTY as real);
      } else {
        var distance := DistanceToNearestData(g, sim.endNode, sim.collectedNodes, root);
        score := (sim.dataCollected * DATA_VALUE) as real - distance;
      }
      assert !Skipped(g, dir) && score == Score(g, dir, root);
      if best.None? || score > bestScore {
        if best.Some? {
          AtMostStep(g, all, root, i, bestScore, score);
        } else {
          AtMostStep(g, all, root, i, score, score);
        }
        bestScore := score;
        best := Some(dir);
        at := i;
      } else {
        AtMostStep(g, all, root, i, bestScore, bestScore);
      }
    }
    if best.Some? {
      FirstBest(g, all, root, best.value, at);
    }
    NoneIffAllBlocked(g, all);
  }

  /** No unskipped direction among the first n scores above `bound`. */
  ghost predicate AtMost(g: Graph, all: seq<Direction>, root: nat -> real, n: int, bound: real)
    requires WellFormed(g) && g.player.Some?
  {
    forall j :: 0 <= j < n && j < |all| && !Skipped(g, all[j]) ==> Score(g, all[j], root) <= bound
  }

  lemma AtMostStep(g: Graph, all: seq<Direction>, root: nat -> real, i: int, lo: real, hi: real)
    requires WellFormed(g) && g.player.Some? && 0 <= i < |all|
    requires AtMost(g, all, root, i, lo) && lo <= hi
    requires !Skipped(g, all[i]) ==> Score(g, all[i], root) <= hi
    ensures AtMost(g, all, root, i + 1, hi)
  {
    forall j | 0 <= j < i + 1 && j < |all| && !Skipped(g, all[j])
      ensures Score(g, all[j], root) <= hi
    {
      if j < i {
        assert Score(g, all[j], root) <= lo;
      }
    }
  }

  /** The direction found at index `at` beats everything enumerated before it, wherever it occurs. */
  lemma FirstBest(g: Graph, all: seq<Direction>, root: nat -> real, best: Direction, at: int)
    requires WellFormed(g) && g.player.Some? && IsEnumeration(all)
    requires 0 <= at < |all| && all[at] == best
    requires forall j :: 0 <= j < at && !Skipped(g, all[j]) ==> Score(g, all[j], root) < Score(g, best, root)
    ensures best in all
    ensures forall i, j :: 0 <= i < j < |all| && all[j] == best && !Skipped(g, all[i])
              ==> Score(g, all[i], root) < Score(g, best, root)
  {
    forall i, j | 0 <= i < j < |all| && all[j] == best && !Skipped(g, all[i])
      ensures Score(g, all[i], root) < Score(g, best, root)
    {
      if j != at {
        assert false;
      }
    }
  }

  /** Every direction is skipped exactly when every first step is refused. */
  lemma NoneIffAllBlocked(g: Graph, all: seq<Direction>)
    requires WellFormed(g) && g.player.Some?
    ensures (forall i :: 0 <= i < |all| ==> Skipped(g, all[i]))
        <==> (forall i :: 0 <= i < |all| ==> !Open(g, Step(g.player.value, all[i])))
  {
    forall i | 0 <= i < |all|
      ensures Skipped(g, all[i]) <==> !Open(g, Step(g.player.value, all[i]))
    {
      SkippedIffBlocked(g, all[i]);
    }
  }

  /**
   * The death penalty dominates: when the board's squared diagonal is below
   * DEATH_PENALTY and `root` never exceeds its argument, any unskipped
   * direction that avoids every VIRUS outscores a VIRUS, so a best-scoring
   * direction avoids every VIRUS as soon as one such direction exists.
   */
  lemma VirusNeverChosen(g: Graph, all: seq<Direction>, root: nat -> real, best: Direction, safe: Direction)
    requires WellFormed(g) && g.player.Some? && IsEnumeration(all)
    requires forall n: nat :: 0.0 <= root(n) <= n as real
    requires g.width * g.width + g.height * g.height < DEATH_PENALTY
    requires best in all && safe in all && !Skipped(g, safe)
    requires forall i :: 0 <= i < |all| && !Skipped(g, all[i]) ==> Score(g, all[i], root) <= Score(g, best, root)
    requires !SimulateSlide(g, g.player.value, safe).hitsVirus
    ensures !SimulateSlide(g, g.player.value, best).hitsVirus
  {
    SafeScoreAbovePenalty(g, safe, root);
    var i :| 0 <= i < |all| && all[i] == safe;
  }

  /**
   * A walk that meets no VIRUS scores above -DEATH_PENALTY: it gains
   * DATA_VALUE per gem and loses at most the distance between two cells of
   * the board, which stays below the penalty.
   */
  lemma SafeScoreAbovePenalty(g: Graph, d: Direction, root: nat -> real)
    requires WellFormed(g) && g.player.Some?
    requires forall n: nat :: 0.0 <= root(n) <= n as real
    requires g.width * g.width + g.height * g.height < DEATH_PENALTY
    requires !SimulateSlide(g, g.player.value, d).hitsVirus
    ensures -(DEATH_PENALTY as real) < Score(g, d, root)
  {
    var p := g.player.value;
    var sim := SimulateSlide(g, p, d);
    var k := SimulateSlideSpec(g, p, d);
    assert sim.endNode in g.cells by {
      if Open(g, Step(p, d)) {
        assert Open(g, Shift(Step(p, d), d, k));
      }
    }
    var dist := DistanceToNearestData(g, sim.endNode, sim.collectedNodes, root);
    assert dist < DEATH_PENALTY as real by {
      if exists c :: Remaining(g, c, sim.collectedNodes) {
        var c :| Remaining(g, c, sim.collectedNodes) && dist == root(SqDist(c, sim.endNode));
        SqDistBound(g, c, sim.endNode);
      }
    }
  }

  /** On a board whose squared diagonal is below the penalty, a score is -DEATH_PENALTY exactly when the walk meets a VIRUS. */
  lemma ScorePenaltyIffVirus(g: Graph, d: Direction, root: nat -> real)
    requires WellFormed(g) && g.player.Some?
    requires forall n: nat :: 0.0 <= root(n) <= n as real
    requires g.width * g.width + g.height * g.height < DEATH_PENALTY
    ensures Score(g, d, root) == -(DEATH_PENALTY as real) <==> SimulateSlide(g, g.player.value, d).hitsVirus
  {
    if !SimulateSlide(g, g.player.value, d).hitsVirus {
      SafeScoreAbovePenalty(g, d, root);
    }
  }

  /** Two cells of the board are less than w·w + h·h apart, squared. */
  lemma SqDistBound(g: Graph, a: Coord, b: Coord)
    requires WellFormed(g) && a in g.cells && b in g.cells
    ensures SqDist(a, b) < g.width * g.width + g.height * g.height
  {
    assert InBounds(g, a) && InBounds(g, b);
    SqBound(a.x - b.x, g.width);
    SqBound(a.y - b.y, g.height);
  }

  /** |t| < n gives t·t < n·n. */
  lemma SqBound(t: int, n: int)
    requires -n < t < n
    ensures t * t < n * n
  {
    var u := if t < 0 then -t else t;
    assert t * t == u * u;
    MulMono(u, n);
  }

  lemma MulMono(u: nat, n: int)
    requires u < n
    ensures u * u < n * n
  {
    assert u * u <= u * n;
    assert u * n < n * n;
  }
}
