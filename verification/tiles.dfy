/**
 * Tile kinds and the mutable tile record of src/board/Tile.java.
 *
 * The source spells the same kinds two ways: the graph and the CPU player
 * use FIREWALL / DATA / VIRUS / HUB, the slide engine WALL / GEM / MINE /
 * STOP. Both spellings denote one closed set of kinds, declared once here.
 */
module Tiles {

  /** Firewall = WALL, Data = GEM, Virus = MINE, Hub = STOP. */
  datatype Kind = Blank | Firewall | Data | Virus | Hub | Start

  /** A tile: its current kind and whether the token stands on it. */
  datatype Tile = Tile(kind: Kind, hasPlayer: bool)

  /** A fresh tile holds the given kind and is unoccupied. */
  function NewTile(k: Kind): (t: Tile)
    ensures t.kind == k
    ensures !t.hasPlayer
  {
    Tile(k, false)
  }

  /** Changing the kind leaves occupancy alone. */
  function SetType(t: Tile, k: Kind): (t': Tile)
    ensures t'.kind == k
    ensures t'.hasPlayer == t.hasPlayer
  {
    t.(kind := k)
  }

  /** Changing occupancy leaves the kind alone. */
  function SetPlayer(t: Tile, p: bool): (t': Tile)
    ensures t'.hasPlayer == p
    ensures t'.kind == t.kind
  {
    t.(hasPlayer := p)
  }
}

/**
 * The eight compass directions. Rows grow downward, so North is (0, -1).
 * The source's `Direction.ALL` fixes an iteration order that decides ties;
 * that order is not fixed here but passed around as a sequence `all`
 * satisfying `IsEnumeration`.
 */
module Directions {

  datatype Direction = N | NE | E | SE | S | SW | W | NW

  function Dx(d: Direction): int
  {
    match d
    case N => 0
    case NE => 1
    case E => 1
    case SE => 1
    case S => 0
    case SW => -1
    case W => -1
    case NW => -1
  }

  function Dy(d: Direction): int
  {
    match d
    case N => -1
    case NE => -1
    case E => 0
    case SE => 1
    case S => 1
    case SW => 1
    case W => 0
    case NW => -1
  }

  const AllDirections: set<Direction> := {N, NE, E, SE, S, SW, W, NW}

  /** An iteration order over the compass: eight pairwise distinct directions. */
  predicate IsEnumeration(all: seq<Direction>)
  {
    && |all| == 8
    && forall i, j :: 0 <= i < j < |all| ==> all[i] != all[j]
  }

  /** Every direction appears in an enumeration. */
  lemma EnumerationCovers(all: seq<Direction>, d: Direction)
    requires IsEnumeration(all)
    ensures d in all
  {
    var s := set i | 0 <= i < |all| :: all[i];
    if d !in all {
      forall x | x in s
        ensures x in AllDirections - {d}
      {
        match x
        case N => case NE => case E => case SE =>
        case S => case SW => case W => case NW =>
      }
      CardinalityOfIndices(all);
      assert |AllDirections - {d}| == 7;
      SubsetCardinality(s, AllDirections - {d});
      assert false;
    }
  }

  lemma CardinalityOfIndices(all: seq<Direction>)
    requires forall i, j :: 0 <= i < j < |all| ==> all[i] != all[j]
    ensures |set i | 0 <= i < |all| :: all[i]| == |all|
  {
    if |all| > 0 {
      var init := all[..|all| - 1];
      CardinalityOfIndices(init);
      var s := set i | 0 <= i < |all| :: all[i];
      var s' := set i | 0 <= i < |init| :: init[i];
      assert s == s' + {all[|all| - 1]};
      assert all[|all| - 1] !in s';
    }
  }

  lemma SubsetCardinality<T>(a: set<T>, b: set<T>)
    requires a <= b
    ensures |a| <= |b|
  {
    assert b == a + (b - a);
  }
}
