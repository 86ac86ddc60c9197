/**
 * The distance memo of src/cpu/DPMemoCache.java.
 *
 * The string key "x,y,<signature>" becomes a `Key` value holding the same
 * three parts; the signature, a sorted list of "x:y" entries in the source,
 * is the sorted sequence of the remaining DATA coordinates under the
 * order "x first, then y". The `HashMap` is a `map` threaded through calls.
 */
module Memo {
  import opened Graphs
  import opened Sorting
  import opened Greedy

  datatype Key = Key(x: int, y: int, signature: seq<Coord>)

  type Cache = map<Key, real>

  /** `DistanceCalculator.compute(graph, from, exclude)`. */
  type Calculator = (Graph, Coord, set<Coord>) -> real

  /** The result of a lookup: the distance and the cache afterwards. */
  datatype Lookup = Lookup(value: real, cache: Cache)

  /** A new memo holds no entry. */
  function NewCache(): (c: Cache)
    ensures forall key :: key !in c
  {
    map[]
  }

  // ---------------------------------------------------------------- signature

  /** The fixed total order of signature entries: by x, then by y. */
  function CoordLe(a: Coord, b: Coord): bool
  {
    a.x < b.x || (a.x == b.x && a.y <= b.y)
  }

  lemma CoordLeTotalOrder()
    ensures TotalPreorder(CoordLe) && Antisymmetric(CoordLe)
  {
  }

  /** `Collections.sort` of the collected entries. */
  function Signature(entries: seq<Coord>): (sig: seq<Coord>)
    ensures Sorted(sig, CoordLe)
    ensures multiset(sig) == multiset(entries)
  {
    CoordLeTotalOrder();
    Sort(entries, CoordLe)
  }

  /** The signature does not depend on the enumeration order of the entries. */
  lemma SignatureOrderIndependent(a: seq<Coord>, b: seq<Coord>)
    requires multiset(a) == multiset(b)
    ensures Signature(a) == Signature(b)
  {
    CoordLeTotalOrder();
    SortedUnique(Signature(a), Signature(b), CoordLe);
  }

  /**
   * `getDataHash`: the DATA nodes of `allNodes` not in `exclude`, sorted.
   * It lists each remaining DATA coordinate exactly once, in order.
   */
  function DataHash(g: Graph, exclude: set<Coord>): (sig: seq<Coord>)
    requires WellFormed(g)
    ensures Sorted(sig, CoordLe) && Distinct(sig)
    ensures forall c :: c in sig <==> Remaining(g, c, exclude)
  {
    RowMajorContents(g.width, g.height);
    var entries := Filter(RowMajor(g.width, g.height), c => Remaining(g, c, exclude));
    FilterDistinct(RowMajor(g.width, g.height), c => Remaining(g, c, exclude));
    var sig := Signature(entries);
    PermutationDistinct(entries, sig);
    sig
  }

  /** Two states hash alike exactly when they leave the same DATA nodes. */
  lemma DataHashDetermined(g1: Graph, e1: set<Coord>, g2: Graph, e2: set<Coord>)
    requires WellFormed(g1) && WellFormed(g2)
    ensures DataHash(g1, e1) == DataHash(g2, e2) <==> forall c :: Remaining(g1, c, e1) <==> Remaining(g2, c, e2)
  {
    var s1 := DataHash(g1, e1);
    var s2 := DataHash(g2, e2);
    if forall c :: Remaining(g1, c, e1) <==> Remaining(g2, c, e2) {
      DistinctSameElements(s1, s2);
      CoordLeTotalOrder();
      SortedUnique(s1, s2, CoordLe);
    }
  }

  /**
   * The memo key "x,y,<signature>": the start's coordinates and the
   * remaining DATA coordinates, each once, in order.
   */
  function KeyOf(g: Graph, from: Coord, exclude: set<Coord>): (k: Key)
    requires WellFormed(g)
    ensures k.x == from.x && k.y == from.y
    ensures Sorted(k.signature, CoordLe) && Distinct(k.signature)
    ensures forall c :: c in k.signature <==> Remaining(g, c, exclude)
  {
    Key(from.x, from.y, DataHash(g, exclude))
  }

  // ---------------------------------------------------------------- lookup

  /**
   * `getOrComputeDistance`: a hit returns the stored value and leaves the
   * memo as it was; a miss returns the calculator's value and stores it
   * under the key. Either way the key ends up bound to the returned value,
   * and no other entry is added, changed or removed.
   */
  function GetOrComputeDistance(cache: Cache, g: Graph, from: Coord, exclude: set<Coord>, compute: Calculator)
    : (r: Lookup)
    requires WellFormed(g)
    ensures var key := KeyOf(g, from, exclude);
      && r.cache.Keys == cache.Keys + {key}
      && r.cache[key] == r.value
      && (forall k :: k in cache ==> r.cache[k] == cache[k])
      && (key in cache ==> r.value == cache[key])
      && (key !in cache ==> r.value == compute(g, from, exclude))
  {
    var key := KeyOf(g, from, exclude);
    if key in cache then Lookup(cache[key], cache)
    else
      var distance := compute(g, from, exclude);
      Lookup(distance, cache[key := distance])
  }

  /** On a hit the calculator is not consulted: any calculator gives the same outcome. */
  lemma HitIgnoresCalculator(cache: Cache, g: Graph, from: Coord, exclude: set<Coord>, c1: Calculator, c2: Calculator)
    requires WellFormed(g) && KeyOf(g, from, exclude) in cache
    ensures GetOrComputeDistance(cache, g, from, exclude, c1) == GetOrComputeDistance(cache, g, from, exclude, c2)
  {
  }

  /** Asking again with the same key returns the same value and changes nothing. */
  lemma RepeatQuery(cache: Cache, g: Graph, from: Coord, exclude: set<Coord>, compute: Calculator,
                    g': Graph, exclude': set<Coord>, compute': Calculator)
    requires WellFormed(g) && WellFormed(g')
    requires KeyOf(g', from, exclude') == KeyOf(g, from, exclude)
    ensures var r := GetOrComputeDistance(cache, g, from, exclude, compute);
      GetOrComputeDistance(r.cache, g', from, exclude', compute') == r
  {
  }

  // ---------------------------------------------------------------- transparency

  /** Every entry holds what the calculator gives for any state with that key. */
  ghost predicate Sound(cache: Cache, compute: Calculator)
  {
    forall g, from, exclude :: WellFormed(g) && KeyOf(g, from, exclude) in cache ==>
      cache[KeyOf(g, from, exclude)] == compute(g, from, exclude)
  }

  /** The calculator sees only what the key records: the start and the remaining DATA nodes. */
  ghost predicate KeyDetermines(compute: Calculator)
  {
    forall g1, from1, e1, g2, from2, e2 ::
      WellFormed(g1) && WellFormed(g2) && KeyOf(g1, from1, e1) == KeyOf(g2, from2, e2) ==>
        compute(g1, from1, e1) == compute(g2, from2, e2)
  }

  lemma NewCacheSound(compute: Calculator)
    ensures Sound(NewCache(), compute)
  {
  }

  /**
   * Memoisation is transparent: when the calculator depends only on the
   * key, a sound memo returns exactly what the calculator would, and stays
   * sound.
   */
  lemma MemoTransparent(cache: Cache, g: Graph, from: Coord, exclude: set<Coord>, compute: Calculator)
    requires WellFormed(g) && Sound(cache, compute) && KeyDetermines(compute)
    ensures var r := GetOrComputeDistance(cache, g, from, exclude, compute);
      r.value == compute(g, from, exclude) && Sound(r.cache, compute)
  {
    var r := GetOrComputeDistance(cache, g, from, exclude, compute);
    var key := KeyOf(g, from, exclude);
    forall g', from', exclude' | WellFormed(g') && KeyOf(g', from', exclude') in r.cache
      ensures r.cache[KeyOf(g', from', exclude')] == compute(g', from', exclude')
    {
      if KeyOf(g', from', exclude') == key {
        assert compute(g', from', exclude') == compute(g, from, exclude);
      }
    }
  }

  /** The selector's nearest-DATA distance, as a calculator (0 off well-formed graphs). */
  ghost function NearestDataCalculator(root: nat -> real): Calculator
  {
    (g, from, exclude) => if WellFormed(g) then DistanceToNearestData(g, from, exclude, root) else 0.0
  }

  /** The nearest-DATA distance depends only on the key, so it may be memoised. */
  lemma NearestDataKeyDetermined(root: nat -> real)
    ensures KeyDetermines(NearestDataCalculator(root))
  {
    var compute := NearestDataCalculator(root);
    forall g1, from1, e1, g2, from2, e2 |
      WellFormed(g1) && WellFormed(g2) && KeyOf(g1, from1, e1) == KeyOf(g2, from2, e2)
      ensures compute(g1, from1, e1) == compute(g2, from2, e2)
    {
      DataHashDetermined(g1, e1, g2, e2);
      assert from1 == from2;
      NearestDetermined(g1, e1, g2, e2, from1, root);
    }
  }

  /** Equal remaining DATA sets give equal nearest distances. */
  lemma NearestDetermined(g1: Graph, e1: set<Coord>, g2: Graph, e2: set<Coord>, from: Coord, root: nat -> real)
    requires WellFormed(g1) && WellFormed(g2)
    requires forall c :: Remaining(g1, c, e1) <==> Remaining(g2, c, e2)
    ensures DistanceToNearestData(g1, from, e1, root) == DistanceToNearestData(g2, from, e2, root)
  {
    var d1 := DistanceToNearestData(g1, from, e1, root);
    var d2 := DistanceToNearestData(g2, from, e2, root);
    if exists c :: Remaining(g1, c, e1) {
      var c1 :| Remaining(g1, c1, e1) && d1 == root(SqDist(c1, from));
      var c2 :| Remaining(g2, c2, e2) && d2 == root(SqDist(c2, from));
      assert d2 <= d1 && d1 <= d2;
    }
  }
}
