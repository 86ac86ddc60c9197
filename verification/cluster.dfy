/**
 * The k-closest average of src/cpu/DCClusterDistance.java, with its
 * hand-written merge sort by x.
 *
 * Arrays become sequences: `mergeByX` and `mergeSortByX` return the
 * updated sequence instead of writing into the caller's array. A `null`
 * point list is `None`. `Arrays.sort` on the distances is the reference
 * sort of the Sorting module.
 */
module ClusterDistance {
  import opened Wrappers
  import opened Graphs
  import opened Sorting
  import opened ClosestPair

  // ---------------------------------------------------------------- merging

  /** The points of s with x == v, in order: what stability is about. */
  function FilterX(s: seq<Coord>, v: int): (r: seq<Coord>)
  {
    if |s| == 0 then []
    else if s[0].x == v then [s[0]] + FilterX(s[1..], v)
    else FilterX(s[1..], v)
  }

  /** Same points at every x value, in the same order: the ties of b are those of a. */
  ghost predicate SameTies(a: seq<Coord>, b: seq<Coord>)
  {
    forall v :: FilterX(a, v) == FilterX(b, v)
  }

  lemma {:induction false} FilterXAppend(a: seq<Coord>, b: seq<Coord>, v: int)
    ensures FilterX(a + b, v) == FilterX(a, v) + FilterX(b, v)
  {
    if |a| > 0 {
      assert (a + b)[1..] == a[1..] + b;
      FilterXAppend(a[1..], b, v);
    } else {
      assert a + b == b;
    }
  }

  /** The reference merge: take from the left run while its head is not greater (`<=`). */
  function Merge(a: seq<Coord>, b: seq<Coord>): (r: seq<Coord>)
    ensures |r| == |a| + |b|
    decreases |a| + |b|
  {
    if |a| == 0 then b
    else if |b| == 0 then a
    else if a[0].x <= b[0].x then [a[0]] + Merge(a[1..], b)
    else [b[0]] + Merge(a, b[1..])
  }

  /** The merge holds the points of both runs, each as often as there. */
  lemma {:induction false} MergeMultiset(a: seq<Coord>, b: seq<Coord>)
    ensures multiset(Merge(a, b)) == multiset(a) + multiset(b)
    decreases |a| + |b|
  {
    if |a| == 0 {
      assert Merge(a, b) == b;
    } else if |b| == 0 {
      assert Merge(a, b) == a;
    } else if a[0].x <= b[0].x {
      MergeMultiset(a[1..], b);
      HeadMultiset(a, b, Merge(a, b), Merge(a[1..], b));
    } else {
      MergeMultiset(a, b[1..]);
      HeadMultiset(b, a, Merge(a, b), Merge(a, b[1..]));
    }
  }

  /** Putting the head of a in front of a merge of the rest adds that head once. */
  lemma HeadMultiset(a: seq<Coord>, b: seq<Coord>, m: seq<Coord>, rest: seq<Coord>)
    requires |a| > 0 && m == [a[0]] + rest
    requires multiset(rest) == multiset(a[1..]) + multiset(b)
    ensures multiset(m) == multiset(a) + multiset(b)
  {
    assert a == [a[0]] + a[1..];
  }

  /** Every point of the merge comes from one of the runs. */
  lemma MergeElements(a: seq<Coord>, b: seq<Coord>)
    ensures forall e :: e in Merge(a, b) <==> e in a || e in b
  {
    var m := Merge(a, b);
    MergeMultiset(a, b);
    forall e
      ensures e in m <==> e in a || e in b
    {
      assert e in m <==> e in multiset(m);
    }
  }

  /** Merging two runs sorted by x gives a run sorted by x. */
  lemma {:induction false} MergeSorted(a: seq<Coord>, b: seq<Coord>)
    requires Sorted(a, ByX) && Sorted(b, ByX)
    ensures Sorted(Merge(a, b), ByX)
    decreases |a| + |b|
  {
    if |a| > 0 && |b| > 0 {
      if a[0].x <= b[0].x {
        MergeSorted(a[1..], b);
        MergeElements(a[1..], b);
        assert forall e :: e in a[1..] ==> a[0].x <= e.x;
      } else {
        MergeSorted(a, b[1..]);
        MergeElements(a, b[1..]);
        assert forall e :: e in b[1..] ==> b[0].x <= e.x;
      }
    }
  }

  /**
   * The merge is stable: among points with equal x, those of the left run
   * come first, each run in its own order.
   */
  lemma {:induction false} MergeStable(a: seq<Coord>, b: seq<Coord>, v: int)
    requires Sorted(a, ByX)
    ensures FilterX(Merge(a, b), v) == FilterX(a, v) + FilterX(b, v)
    decreases |a| + |b|
  {
    if |a| == 0 {
      assert Merge(a, b) == b;
    } else if |b| == 0 {
      assert Merge(a, b) == a;
      assert FilterX(b, v) == [];
    } else if a[0].x <= b[0].x {
      assert Sorted(a[1..], ByX);
      MergeStable(a[1..], b, v);
      StableTakeLeft(a, b, v);
    } else {
      MergeStable(a, b[1..], v);
      StableTakeRight(a, b, v);
    }
  }

  /** Taking the left head keeps the filtered merge the filtered concatenation. */
  lemma StableTakeLeft(a: seq<Coord>, b: seq<Coord>, v: int)
    requires |a| > 0 && |b| > 0 && a[0].x <= b[0].x
    requires FilterX(Merge(a[1..], b), v) == FilterX(a[1..], v) + FilterX(b, v)
    ensures FilterX(Merge(a, b), v) == FilterX(a, v) + FilterX(b, v)
  {
    var m := Merge(a[1..], b);
    assert Merge(a, b) == [a[0]] + m;
    FilterConsStep(a, m, FilterX(b, v), v);
  }

  /** Putting a's head before m: if m filters like a's tail plus a suffix, the result filters like a plus it. */
  lemma FilterConsStep(a: seq<Coord>, m: seq<Coord>, suffix: seq<Coord>, v: int)
    requires |a| > 0
    requires FilterX(m, v) == FilterX(a[1..], v) + suffix
    ensures FilterX([a[0]] + m, v) == FilterX(a, v) + suffix
  {
    var h := if a[0].x == v then [a[0]] else [];
    var t := FilterX(a[1..], v);
    calc {
      FilterX([a[0]] + m, v);
      { FilterXCons(a[0], m, v); }
      h + FilterX(m, v);
      h + (t + suffix);
      { assert h + (t + suffix) == (h + t) + suffix; }
      (h + t) + suffix;
      { FilterXUnfold(a, v); }
      FilterX(a, v) + suffix;
    }
  }

  /** One step of `FilterX`: the head if it matches, then the filtered tail. */
  lemma FilterXUnfold(s: seq<Coord>, v: int)
    requires |s| > 0
    ensures FilterX(s, v) == (if s[0].x == v then [s[0]] else []) + FilterX(s[1..], v)
  {
    if s[0].x != v {
      assert [] + FilterX(s[1..], v) == FilterX(s[1..], v);
    }
  }

  /** Taking the right head, which is below every x of the sorted left run, does too. */
  lemma StableTakeRight(a: seq<Coord>, b: seq<Coord>, v: int)
    requires Sorted(a, ByX) && |a| > 0 && |b| > 0 && a[0].x > b[0].x
    requires FilterX(Merge(a, b[1..]), v) == FilterX(a, v) + FilterX(b[1..], v)
    ensures FilterX(Merge(a, b), v) == FilterX(a, v) + FilterX(b, v)
  {
    var m := Merge(a, b[1..]);
    assert Merge(a, b) == [b[0]] + m;
    var h := if b[0].x == v then [b[0]] else [];
    var fa, t := FilterX(a, v), FilterX(b[1..], v);
    if b[0].x == v {
      NoneAbove(a, v);
    }
    calc {
      FilterX([b[0]] + m, v);
      { FilterXCons(b[0], m, v); }
      h + FilterX(m, v);
      h + (fa + t);
      { SwapEmpty(h, fa, t); }
      fa + (h + t);
      { FilterXUnfold(b, v); }
      fa + FilterX(b, v);
    }
  }

  /** With one of h, f empty, h and f may trade places before t. */
  lemma SwapEmpty(h: seq<Coord>, f: seq<Coord>, t: seq<Coord>)
    requires h == [] || f == []
    ensures h + (f + t) == f + (h + t)
  {
    if h == [] {
      assert h + (f + t) == f + t == f + (h + t);
    } else {
      assert h + (f + t) == h + t == f + (h + t);
    }
  }

  lemma FilterXCons(h: Coord, t: seq<Coord>, v: int)
    ensures FilterX([h] + t, v) == (if h.x == v then [h] else []) + FilterX(t, v)
  {
    assert ([h] + t)[1..] == t;
  }

  /** A run sorted by x whose head exceeds v holds no point with x == v. */
  lemma {:induction false} NoneAbove(a: seq<Coord>, v: int)
    requires Sorted(a, ByX) && |a| > 0 && a[0].x > v
    ensures FilterX(a, v) == []
  {
    if |a| > 1 {
      NoneAbove(a[1..], v);
    }
  }

  /** One step of the merge: the head of the left run goes first when it is not greater. */
  lemma MergeTakeLeft(a: seq<Coord>, b: seq<Coord>, i: int, j: int)
    requires 0 <= i < |a| && 0 <= j <= |b|
    requires j < |b| ==> a[i].x <= b[j].x
    ensures Merge(a[i..], b[j..]) == [a[i]] + Merge(a[i + 1..], b[j..])
  {
    assert a[i..][0] == a[i] && a[i..][1..] == a[i + 1..];
  }

  /** One step of the merge: otherwise the head of the right run goes first. */
  lemma MergeTakeRight(a: seq<Coord>, b: seq<Coord>, i: int, j: int)
    requires 0 <= i <= |a| && 0 <= j < |b|
    requires i < |a| ==> a[i].x > b[j].x
    ensures Merge(a[i..], b[j..]) == [b[j]] + Merge(a[i..], b[j + 1..])
  {
    assert b[j..][0] == b[j] && b[j..][1..] == b[j + 1..];
  }

  /** The left loop step keeps "merged so far, then the merge of the rests, is the whole merge". */
  lemma TakeLeft(a: seq<Coord>, b: seq<Coord>, i: int, j: int, merged: seq<Coord>)
    requires 0 <= i < |a| && 0 <= j <= |b|
    requires j < |b| ==> a[i].x <= b[j].x
    requires merged + Merge(a[i..], b[j..]) == Merge(a, b)
    ensures (merged + [a[i]]) + Merge(a[i + 1..], b[j..]) == Merge(a, b)
  {
    MergeTakeLeft(a, b, i, j);
  }

  /** The right loop step keeps the same loop invariant. */
  lemma TakeRight(a: seq<Coord>, b: seq<Coord>, i: int, j: int, merged: seq<Coord>)
    requires 0 <= i <= |a| && 0 <= j < |b|
    requires i < |a| ==> a[i].x > b[j].x
    requires merged + Merge(a[i..], b[j..]) == Merge(a, b)
    ensures (merged + [b[j]]) + Merge(a[i..], b[j + 1..]) == Merge(a, b)
  {
    MergeTakeRight(a, b, i, j);
  }

  /**
   * `mergeByX`: the runs arr[left..mid] and arr[mid+1..right] (inclusive)
   * are merged in place; the rest of the array is untouched.
   */
  method MergeByX(arr: seq<Coord>, left: int, mid: int, right: int) returns (res: seq<Coord>)
    requires 0 <= left <= mid + 1 <= right + 1 <= |arr|
    ensures res == arr[..left] + Merge(arr[left..mid + 1], arr[mid + 1..right + 1]) + arr[right + 1..]
  {
    var L := arr[left..mid + 1];
    var R := arr[mid + 1..right + 1];
    var merged := MergeLists(L, R);
    res := arr[..left] + merged + arr[right + 1..];
  }

  /** The three loops of `mergeByX` on the copied runs: heads while both last, then the rests. */
  method MergeLists(L: seq<Coord>, R: seq<Coord>) returns (merged: seq<Coord>)
    ensures merged == Merge(L, R)
  {
    var n1 := |L|;
    var n2 := |R|;
    var i, j := 0, 0;
    merged := [];
    assert L[0..] == L && R[0..] == R;
    while i < n1 && j < n2
      invariant 0 <= i <= n1 && 0 <= j <= n2
      invariant merged + Merge(L[i..], R[j..]) == Merge(L, R)
      decreases n1 - i + n2 - j
    {
      if L[i].x <= R[j].x {
        TakeLeft(L, R, i, j, merged);
        merged := merged + [L[i]];
        i := i + 1;
      } else {
        TakeRight(L, R, i, j, merged);
        merged := merged + [R[j]];
        j := j + 1;
      }
    }
    while i < n1
      invariant 0 <= i <= n1 && (i < n1 ==> j == n2)
      invariant merged + Merge(L[i..], R[j..]) == Merge(L, R)
    {
      TakeLeft(L, R, i, j, merged);
      merged := merged + [L[i]];
      i := i + 1;
    }
    while j < n2
      invariant 0 <= j <= n2 && i == n1
      invariant merged + Merge(L[i..], R[j..]) == Merge(L, R)
    {
      TakeRight(L, R, i, j, merged);
      merged := merged + [R[j]];
      j := j + 1;
    }
    assert merged == Merge(L, R) by {
      assert L[i..] == [] && R[j..] == [];
      assert Merge(L[i..], R[j..]) == [];
      assert merged + [] == merged;
    }
  }

  // ---------------------------------------------------------------- merge sort

  /** b agrees with a outside the inclusive range lo..hi. */
  ghost predicate SameOutside(a: seq<Coord>, b: seq<Coord>, lo: int, hi: int)
  {
    |a| == |b| && forall i :: 0 <= i < |a| && (i < lo || hi < i) ==> a[i] == b[i]
  }

  /**
   * `mergeSortByX`: leaves everything outside left..right alone and makes
   * arr[left..right] a permutation of itself, sorted by x, stable on ties.
   */
  method MergeSortByX(arr: seq<Coord>, left: int, right: int) returns (res: seq<Coord>)
    requires left < right ==> 0 <= left && right < |arr|
    ensures SameOutside(arr, res, left, right)
    ensures 0 <= left <= right < |arr| ==>
              && Sorted(res[left..right + 1], ByX)
              && multiset(res[left..right + 1]) == multiset(arr[left..right + 1])
              && SameTies(res[left..right + 1], arr[left..right + 1])
    decreases right - left
  {
    if left >= right {
      return arr;
    }
    var mid := left + (right - left) / 2;
    var a1 := MergeSortByX(arr, left, mid);
    var a2 := MergeSortByX(a1, mid + 1, right);
    res := MergeByX(a2, left, mid, right);
    SortStep(arr, a1, a2, res, left, mid, right);
  }

  /** The two sorted halves and their merge make the sorted whole. */
  lemma SortStep(arr: seq<Coord>, a1: seq<Coord>, a2: seq<Coord>, res: seq<Coord>, left: int, mid: int, right: int)
    requires 0 <= left <= mid < right < |arr|
    requires SameOutside(arr, a1, left, mid)
    requires Sorted(a1[left..mid + 1], ByX)
    requires multiset(a1[left..mid + 1]) == multiset(arr[left..mid + 1])
    requires SameTies(a1[left..mid + 1], arr[left..mid + 1])
    requires SameOutside(a1, a2, mid + 1, right)
    requires Sorted(a2[mid + 1..right + 1], ByX)
    requires multiset(a2[mid + 1..right + 1]) == multiset(a1[mid + 1..right + 1])
    requires SameTies(a2[mid + 1..right + 1], a1[mid + 1..right + 1])
    requires res == a2[..left] + Merge(a2[left..mid + 1], a2[mid + 1..right + 1]) + a2[right + 1..]
    ensures SameOutside(arr, res, left, right)
    ensures Sorted(res[left..right + 1], ByX)
    ensures multiset(res[left..right + 1]) == multiset(arr[left..right + 1])
    ensures SameTies(res[left..right + 1], arr[left..right + 1])
  {
    var A := a2[left..mid + 1];
    var B := a2[mid + 1..right + 1];
    var P := arr[left..mid + 1];
    var Q := arr[mid + 1..right + 1];
    assert A == a1[left..mid + 1] && B == a2[mid + 1..right + 1] by {
      forall i | left <= i <= mid
        ensures a2[i] == a1[i]
      {
      }
    }
    assert a1[mid + 1..right + 1] == Q by {
      forall i | mid + 1 <= i <= right
        ensures a1[i] == arr[i]
      {
      }
    }
    assert arr[left..right + 1] == P + Q;
    MergeRuns(A, B, P, Q);
    MergeSlice(arr, a2, res, left, mid, right);
  }

  /** Merging a rearranged, tie-preserving copy of each of P and Q rearranges P + Q the same way. */
  lemma MergeRuns(A: seq<Coord>, B: seq<Coord>, P: seq<Coord>, Q: seq<Coord>)
    requires Sorted(A, ByX) && Sorted(B, ByX)
    requires multiset(A) == multiset(P) && multiset(B) == multiset(Q)
    requires SameTies(A, P) && SameTies(B, Q)
    ensures Sorted(Merge(A, B), ByX)
    ensures multiset(Merge(A, B)) == multiset(P + Q)
    ensures SameTies(Merge(A, B), P + Q)
  {
    MergeSorted(A, B);
    MergeMultiset(A, B);
    forall v
      ensures FilterX(Merge(A, B), v) == FilterX(P + Q, v)
    {
      MergeStable(A, B, v);
      FilterXAppend(P, Q, v);
    }
  }

  /** Writing the merge into a2[left..right] changes only that range, which then holds the merge. */
  lemma MergeSlice(arr: seq<Coord>, a2: seq<Coord>, res: seq<Coord>, left: int, mid: int, right: int)
    requires 0 <= left <= mid < right < |arr|
    requires SameOutside(arr, a2, left, right)
    requires res == a2[..left] + Merge(a2[left..mid + 1], a2[mid + 1..right + 1]) + a2[right + 1..]
    ensures SameOutside(arr, res, left, right)
    ensures res[left..right + 1] == Merge(a2[left..mid + 1], a2[mid + 1..right + 1])
  {
    var M := Merge(a2[left..mid + 1], a2[mid + 1..right + 1]);
    assert |M| == right + 1 - left;
    assert |res| == |arr|;
    forall i | 0 <= i < |arr| && (i < left || right < i)
      ensures res[i] == arr[i]
    {
      if i < left {
        assert res[i] == a2[..left][i];
      } else {
        assert res[i] == a2[right + 1..][i - (right + 1)];
      }
    }
  }

  // ---------------------------------------------------------------- the average

  /** The distance from q of each point, in order. */
  function Distances(points: seq<Coord>, q: Coord, root: nat -> real): (r: seq<real>)
    ensures |r| == |points|
    ensures forall i :: 0 <= i < |points| ==> r[i] == Dist(points[i], q, root)
  {
    MapSeq(points, p => Dist(p, q, root))
  }

  /** The mean of the first m entries. */
  function MeanOfFirst(s: seq<real>, m: nat): real
    requires 0 < m <= |s|
  {
    Sum(s[..m]) / m as real
  }

  /** The mean of a prefix of an ascending sequence is at least its head. */
  lemma MeanOfFirstAtLeastHead(s: seq<real>, m: nat)
    requires 0 < m <= |s| && Sorted(s, RealLe)
    ensures s[0] <= MeanOfFirst(s, m)
  {
    SumAtLeast(s[..m], s[0]);
    var t := Sum(s[..m]);
    assert m as real * s[0] <= t;
    assert s[0] == (m as real * s[0]) / m as real;
  }

  lemma MeanOfFirstOne(s: seq<real>)
    requires 0 < |s|
    ensures MeanOfFirst(s, 1) == s[0]
  {
    assert s[..1][..0] == [];
    assert Sum(s[..1]) == s[0];
  }

  /**
   * The reference value: 0 for a null or empty list; otherwise, with k
   * raised to at least 1 and capped by the number of points, the mean of
   * the k smallest distances from q.
   */
  function KClosestMean(dataPoints: Option<seq<Coord>>, q: Coord, k: int, root: nat -> real): real
  {
    if dataPoints.None? || |dataPoints.value| == 0 then 0.0
    else
      var n := |dataPoints.value|;
      var k1 := if k <= 0 then 1 else k;
      var m := if k1 < n then k1 else n;
      MeanOfFirst(SortReals(Distances(dataPoints.value, q, root)), m)
  }

  /**
   * `averageDistanceToKClosest`: sort the points by x, take their distances
   * from q, sort those, and average the first min(k, n) (k ≤ 0 read as 1).
   */
  method AverageDistanceToKClosest(dataPoints: Option<seq<Coord>>, q: Coord, k: int, root: nat -> real)
    returns (r: real)
    ensures r == KClosestMean(dataPoints, q, k, root)
  {
    if dataPoints.None? || |dataPoints.value| == 0 {
      return 0.0;
    }
    var k1 := k;
    if k1 <= 0 {
      k1 := 1;
    }
    var points := MergeSortByX(dataPoints.value, 0, |dataPoints.value| - 1);
    assert multiset(points) == multiset(dataPoints.value) by {
      assert points == points[0..|points|] && dataPoints.value == dataPoints.value[0..|points|];
    }
    var distances := ComputeDistances(points, q, root);
    var sorted := SortReals(distances);
    var actualK := if k1 < |sorted| then k1 else |sorted|;
    var sum := SumFirst(sorted, actualK);
    r := sum / actualK as real;
    MeanOfSortedDistances(dataPoints.value, points, q, k, root, sorted, actualK);
  }

  /** The first loop: the distance of each point from q, in order. */
  method ComputeDistances(points: seq<Coord>, q: Coord, root: nat -> real) returns (distances: seq<real>)
    ensures distances == Distances(points, q, root)
  {
    distances := [];
    for i := 0 to |points|
      invariant |distances| == i
      invariant forall j :: 0 <= j < i ==> distances[j] == Dist(points[j], q, root)
    {
      distances := distances + [Dist(points[i], q, root)];
    }
  }

  /** The second loop: the running sum of the first m entries. */
  method SumFirst(s: seq<real>, m: nat) returns (sum: real)
    requires m <= |s|
    ensures sum == Sum(s[..m])
  {
    sum := 0.0;
    for i := 0 to m
      invariant sum == Sum(s[..i])
    {
      assert s[..i + 1][..i] == s[..i];
      sum := sum + s[i];
    }
  }

  /** Averaging the sorted distances of the x-sorted points gives the reference value. */
  lemma MeanOfSortedDistances(dataPoints: seq<Coord>, points: seq<Coord>, q: Coord, k: int, root: nat -> real,
                              sorted: seq<real>, m: nat)
    requires |dataPoints| > 0 && multiset(points) == multiset(dataPoints)
    requires sorted == SortReals(Distances(points, q, root))
    requires m == (var k1 := if k <= 0 then 1 else k; if k1 < |sorted| then k1 else |sorted|)
    ensures 0 < m <= |sorted|
    ensures KClosestMean(Some(dataPoints), q, k, root) == MeanOfFirst(sorted, m)
  {
    assert |points| == |multiset(points)| == |dataPoints|;
    SortedDistances(points, dataPoints, q, root);
  }

  /** Sorted distances depend only on the multiset of points. */
  lemma SortedDistances(a: seq<Coord>, b: seq<Coord>, q: Coord, root: nat -> real)
    requires multiset(a) == multiset(b)
    ensures SortReals(Distances(a, q, root)) == SortReals(Distances(b, q, root))
  {
    RealLeTotalOrder();
    MapMultiset(a, b, p => Dist(p, q, root));
    var sa := SortReals(Distances(a, q, root));
    var sb := SortReals(Distances(b, q, root));
    SortedUnique(sa, sb, RealLe);
  }

  /** The average depends only on the multiset of points, not on their input order. */
  lemma KClosestPermutation(a: seq<Coord>, b: seq<Coord>, q: Coord, k: int, root: nat -> real)
    requires multiset(a) == multiset(b)
    ensures KClosestMean(Some(a), q, k, root) == KClosestMean(Some(b), q, k, root)
  {
    assert |a| == |multiset(a)| == |b|;
    SortedDistances(a, b, q, root);
  }

  /** The least element of a non-empty sorted sequence of reals is its head. */
  lemma SortedHeadIsMin(points: seq<Coord>, q: Coord, root: nat -> real)
    requires |points| > 0
    ensures IsMinOf(SortReals(Distances(points, q, root))[0], points, q, root)
  {
    RealLeTotalOrder();
    var ds := Distances(points, q, root);
    var s := SortReals(ds);
    assert s[0] in multiset(ds);
    var i :| 0 <= i < |ds| && ds[i] == s[0];
    assert points[i] in points;
    forall p | p in points
      ensures s[0] <= Dist(p, q, root)
    {
      var j :| 0 <= j < |points| && points[j] == p;
      assert ds[j] in multiset(s);
      var l :| 0 <= l < |s| && s[l] == ds[j];
      assert l == 0 || RealLe(s[0], s[l]);
    }
  }

  /** The head of the sorted distances is the nearest-point distance. */
  lemma HeadIsNearest(points: seq<Coord>, q: Coord, root: nat -> real, s: seq<real>, nearest: real)
    requires |points| > 0 && s == SortReals(Distances(points, q, root))
    requires IsMinOf(nearest, points, q, root)
    ensures s[0] == nearest
  {
    SortedHeadIsMin(points, q, root);
    MinUnique(s[0], nearest, points, q, root);
  }

  /** With k ≤ 1 the average is the nearest-point distance, the value `findMinDistance` returns. */
  lemma KClosestOneIsNearest(points: seq<Coord>, q: Coord, k: int, root: nat -> real)
    requires |points| > 0 && k <= 1
    ensures KClosestMean(Some(points), q, k, root) == FindMinDistance(points, q, root)
  {
    var s := SortReals(Distances(points, q, root));
    assert KClosestMean(Some(points), q, k, root) == MeanOfFirst(s, 1);
    MeanOfFirstOne(s);
    HeadIsNearest(points, q, root, s, FindMinDistance(points, q, root));
  }

  /** The average of the k closest is never below the nearest-point distance. */
  lemma KClosestAtLeastNearest(points: seq<Coord>, q: Coord, k: int, root: nat -> real)
    requires |points| > 0
    ensures FindMinDistance(points, q, root) <= KClosestMean(Some(points), q, k, root)
  {
    var s := SortReals(Distances(points, q, root));
    var k1 := if k <= 0 then 1 else k;
    var m := if k1 < |points| then k1 else |points|;
    assert KClosestMean(Some(points), q, k, root) == MeanOfFirst(s, m);
    MeanOfFirstAtLeastHead(s, m);
    HeadIsNearest(points, q, root, s, FindMinDistance(points, q, root));
  }

  /** A sum of n terms each at least lo is at least n·lo. */
  lemma {:induction false} SumAtLeast(s: seq<real>, lo: real)
    requires forall i :: 0 <= i < |s| ==> lo <= s[i]
    ensures |s| as real * lo <= Sum(s)
  {
    if |s| > 0 {
      SumAtLeast(s[..|s| - 1], lo);
    }
  }
}
