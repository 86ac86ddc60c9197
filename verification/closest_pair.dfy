/**
 * The divide-and-conquer nearest-point query of src/cpu/DCClosestPair.java.
 *
 * A `Point(x, y)` record of the source is a `Coord` here. Distances are
 * `root(SqDist(p, q))` for a caller-supplied `root` standing for
 * `Math.sqrt`; no property below needs it to be monotone.
 */
module ClosestPair {
  import opened Graphs
  import opened Sorting

  /** `Comparator.comparingInt(p -> p.x)`, as "not greater than". */
  function ByX(a: Coord, b: Coord): bool
  {
    a.x <= b.x
  }

  lemma ByXTotalPreorder()
    ensures TotalPreorder(ByX)
  {
  }

  function Dist(p: Coord, q: Coord, root: nat -> real): real
  {
    root(SqDist(p, q))
  }

  function Min(a: real, b: real): real
  {
    if a <= b then a else b
  }

  /** r is the least distance from q over pts[lo..hi] (inclusive), and is attained there. */
  ghost predicate IsMinOver(r: real, pts: seq<Coord>, lo: int, hi: int, q: Coord, root: nat -> real)
    requires 0 <= lo <= hi < |pts|
  {
    && (exists i :: lo <= i <= hi && r == Dist(pts[i], q, root))
    && (forall i :: lo <= i <= hi ==> r <= Dist(pts[i], q, root))
  }

  /** r is the least distance from q over the points of pts, and is attained there. */
  ghost predicate IsMinOf(r: real, pts: seq<Coord>, q: Coord, root: nat -> real)
  {
    && (exists p :: p in pts && r == Dist(p, q, root))
    && (forall p :: p in pts ==> r <= Dist(p, q, root))
  }

  /** The base case: a left-to-right `Math.min` scan over pts[left..right]. */
  function ScanMin(pts: seq<Coord>, left: int, right: int, q: Coord, root: nat -> real): (r: real)
    requires 0 <= left <= right < |pts|
    ensures IsMinOver(r, pts, left, right, q, root)
    decreases right - left
  {
    if left == right then Dist(pts[left], q, root)
    else Min(ScanMin(pts, left, right - 1, q, root), Dist(pts[right], q, root))
  }

  /**
   * `closestUtil`: ranges of at most three points are scanned; larger ones
   * are split at the midpoint (both halves non-empty and strictly smaller)
   * and the smaller half-result is returned, whichever way the prune test
   * goes.
   */
  function ClosestUtil(pts: seq<Coord>, left: int, right: int, q: Coord, root: nat -> real): (r: real)
    requires 0 <= left <= right < |pts|
    ensures IsMinOver(r, pts, left, right, q, root)
    decreases right - left
  {
    if right - left + 1 <= 3 then ScanMin(pts, left, right, q, root)
    else
      var mid := left + (right - left) / 2;
      var midPoint := pts[mid];
      var dl := ClosestUtil(pts, left, mid, q, root);
      var dr := ClosestUtil(pts, mid + 1, right, q, root);
      var delta := Min(dl, dr);
      if (if midPoint.x - q.x < 0 then q.x - midPoint.x else midPoint.x - q.x) as real >= delta then delta
      else delta
  }

  /**
   * `findMinDistance`: 0 for no points; otherwise the points are sorted by
   * x and the whole range is queried, giving the least distance from q to
   * any of them.
   */
  function FindMinDistance(dataPoints: seq<Coord>, q: Coord, root: nat -> real): (r: real)
    ensures |dataPoints| == 0 ==> r == 0.0
    ensures |dataPoints| > 0 ==> IsMinOf(r, dataPoints, q, root)
  {
    if |dataPoints| == 0 then 0.0
    else
      ByXTotalPreorder();
      var points := Sort(dataPoints, ByX);
      var r := ClosestUtil(points, 0, |points| - 1, q, root);
      assert IsMinOf(r, dataPoints, q, root) by {
        SameElements(points, dataPoints);
        var i :| 0 <= i < |points| && r == Dist(points[i], q, root);
        assert points[i] in dataPoints;
        forall p | p in dataPoints
          ensures r <= Dist(p, q, root)
        {
          var j :| 0 <= j < |points| && points[j] == p;
        }
      }
      r
  }

  lemma SameElements(a: seq<Coord>, b: seq<Coord>)
    requires multiset(a) == multiset(b)
    ensures forall p :: p in a <==> p in b
  {
    forall p
      ensures p in a <==> p in b
    {
      assert p in a <==> p in multiset(a);
    }
  }

  /** The brute-force reference: a left-to-right minimum over all points. */
  function BruteMin(dataPoints: seq<Coord>, q: Coord, root: nat -> real): (r: real)
    requires |dataPoints| > 0
    ensures IsMinOf(r, dataPoints, q, root)
  {
    if |dataPoints| == 1 then Dist(dataPoints[0], q, root)
    else
      var init := dataPoints[..|dataPoints| - 1];
      var last := dataPoints[|dataPoints| - 1];
      var m := BruteMin(init, q, root);
      assert dataPoints == init + [last];
      Min(m, Dist(last, q, root))
  }

  /** At most one value is the least distance over a set of points. */
  lemma MinUnique(r1: real, r2: real, pts: seq<Coord>, q: Coord, root: nat -> real)
    requires IsMinOf(r1, pts, q, root) && IsMinOf(r2, pts, q, root)
    ensures r1 == r2
  {
    var p1 :| p1 in pts && r1 == Dist(p1, q, root);
    var p2 :| p2 in pts && r2 == Dist(p2, q, root);
  }

  /** For a non-empty list, divide and conquer agrees with brute force. */
  lemma FindMinIsBrute(dataPoints: seq<Coord>, q: Coord, root: nat -> real)
    requires |dataPoints| > 0
    ensures FindMinDistance(dataPoints, q, root) == BruteMin(dataPoints, q, root)
  {
    MinUnique(FindMinDistance(dataPoints, q, root), BruteMin(dataPoints, q, root), dataPoints, q, root);
  }

  /** The query does not depend on the input order: any permutation gives the same value. */
  lemma FindMinPermutation(a: seq<Coord>, b: seq<Coord>, q: Coord, root: nat -> real)
    requires multiset(a) == multiset(b)
    ensures FindMinDistance(a, q, root) == FindMinDistance(b, q, root)
  {
    SameElements(a, b);
    assert |a| == |multiset(a)| == |b|;
    if |a| > 0 {
      MinUnique(FindMinDistance(a, q, root), FindMinDistance(b, q, root), a, q, root);
    }
  }
}
