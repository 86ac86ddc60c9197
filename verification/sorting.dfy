/**
 * Ordering vocabulary shared by the distance helpers and the memo cache,
 * and a reference sort: the insertion sort that stands for the
 * library sorts the code calls (`Arrays.sort` on points by x and on
 * doubles, `Collections.sort` on signature entries).
 */
module Sorting {

  /** `le` is total and transitive: a comparator's "not greater than". */
  ghost predicate TotalPreorder<T(!new)>(le: (T, T) -> bool)
  {
    && (forall a, b :: le(a, b) || le(b, a))
    && (forall a, b, c :: le(a, b) && le(b, c) ==> le(a, c))
  }

  /** Equivalent elements are equal: `le` is a total order. */
  ghost predicate Antisymmetric<T(!new)>(le: (T, T) -> bool)
  {
    forall a, b :: le(a, b) && le(b, a) ==> a == b
  }

  predicate Sorted<T>(s: seq<T>, le: (T, T) -> bool)
  {
    forall i, j :: 0 <= i < j < |s| ==> le(s[i], s[j])
  }

  /** Insert x before the first element it does not exceed. */
  function Insert<T(!new)>(x: T, s: seq<T>, le: (T, T) -> bool): (r: seq<T>)
    requires TotalPreorder(le) && Sorted(s, le)
    ensures Sorted(r, le)
    ensures multiset(r) == multiset(s) + multiset{x}
  {
    if |s| == 0 then [x]
    else if le(x, s[0]) then
      assert forall j :: 0 <= j < |s| ==> le(x, s[j]) by {
        forall j | 0 < j < |s|
          ensures le(x, s[j])
        {
          assert le(s[0], s[j]);
        }
      }
      SortedCons(x, s, le);
      [x] + s
    else
      var rest := Insert(x, s[1..], le);
      assert s == [s[0]] + s[1..];
      assert Sorted(s[1..], le);
      assert forall j :: 0 <= j < |rest| ==> le(s[0], rest[j]) by {
        forall j | 0 <= j < |rest|
          ensures le(s[0], rest[j])
        {
          assert rest[j] in multiset(rest);
          if rest[j] != x {
            assert rest[j] in multiset(s[1..]);
            var l :| 0 <= l < |s[1..]| && s[1..][l] == rest[j];
            assert s[1..][l] == s[l + 1];
          }
        }
      }
      SortedCons(s[0], rest, le);
      [s[0]] + rest
  }

  /** A head below every element of a sorted tail gives a sorted sequence. */
  lemma SortedCons<T>(h: T, t: seq<T>, le: (T, T) -> bool)
    requires Sorted(t, le)
    requires forall j :: 0 <= j < |t| ==> le(h, t[j])
    ensures Sorted([h] + t, le)
  {
    forall i, j | 0 <= i < j < |[h] + t|
      ensures le(([h] + t)[i], ([h] + t)[j])
    {
      assert ([h] + t)[j] == t[j - 1];
      if i > 0 {
        assert ([h] + t)[i] == t[i - 1];
      }
    }
  }

  /** Insertion sort: the sorted tail, with the head inserted before the first element it does not follow. */
  function Sort<T(!new)>(s: seq<T>, le: (T, T) -> bool): (r: seq<T>)
    requires TotalPreorder(le)
    ensures Sorted(r, le)
    ensures multiset(r) == multiset(s)
    ensures |r| == |s|
  {
    if |s| == 0 then []
    else
      assert s == [s[0]] + s[1..];
      Insert(s[0], Sort(s[1..], le), le)
  }

  /** Under a total order, a sorted arrangement of a multiset is unique. */
  lemma {:induction false} SortedUnique<T(!new)>(a: seq<T>, b: seq<T>, le: (T, T) -> bool)
    requires TotalPreorder(le) && Antisymmetric(le)
    requires Sorted(a, le) && Sorted(b, le)
    requires multiset(a) == multiset(b)
    ensures a == b
    decreases |a|
  {
    if |a| == 0 {
      assert |multiset(b)| == 0;
    } else {
      SortedHeads(a, b, le);
      DropHead(a, b);
      SortedUnique(a[1..], b[1..], le);
      assert a == [a[0]] + a[1..] && b == [b[0]] + b[1..];
    }
  }

  /** Two sorted permutations of each other start with equivalent elements. */
  lemma SortedHeads<T(!new)>(a: seq<T>, b: seq<T>, le: (T, T) -> bool)
    requires TotalPreorder(le) && Antisymmetric(le)
    requires Sorted(a, le) && Sorted(b, le)
    requires multiset(a) == multiset(b) && |a| > 0
    ensures |b| > 0 && a[0] == b[0]
  {
    assert a[0] in multiset(b);
    var i :| 0 <= i < |b| && b[i] == a[0];
    assert b[0] in multiset(a);
    var j :| 0 <= j < |a| && a[j] == b[0];
    assert le(b[0], a[0]) by {
      assert i == 0 || le(b[0], b[i]);
    }
    assert le(a[0], b[0]) by {
      assert j == 0 || le(a[0], a[j]);
    }
  }

  /** Permutations with the same head have permuted tails. */
  lemma DropHead<T>(a: seq<T>, b: seq<T>)
    requires multiset(a) == multiset(b) && |a| > 0 && |b| > 0 && a[0] == b[0]
    ensures multiset(a[1..]) == multiset(b[1..])
  {
    assert a == [a[0]] + a[1..];
    assert b == [b[0]] + b[1..];
    assert multiset(a[1..]) == multiset(a) - multiset{a[0]};
    assert multiset(b[1..]) == multiset(b) - multiset{b[0]};
  }

  /** The elements of s, in order, that satisfy p. */
  function Filter<T(!new)>(s: seq<T>, p: T -> bool): (r: seq<T>)
    ensures |r| <= |s|
    ensures forall e :: e in r <==> e in s && p(e)
  {
    if |s| == 0 then []
    else if p(s[0]) then [s[0]] + Filter(s[1..], p)
    else Filter(s[1..], p)
  }

  lemma {:induction false} FilterAppend<T(!new)>(a: seq<T>, b: seq<T>, p: T -> bool)
    ensures Filter(a + b, p) == Filter(a, p) + Filter(b, p)
  {
    if |a| > 0 {
      assert (a + b)[1..] == a[1..] + b;
      FilterAppend(a[1..], b, p);
    } else {
      assert a + b == b;
    }
  }

  /** A filter of a sequence without repeats has no repeats either. */
  lemma {:induction false} FilterDistinct<T(!new)>(s: seq<T>, p: T -> bool)
    requires Distinct(s)
    ensures Distinct(Filter(s, p))
  {
    if |s| > 0 {
      FilterDistinct(s[1..], p);
    }
  }

  predicate Distinct<T(==)>(s: seq<T>)
  {
    forall i, j :: 0 <= i < j < |s| ==> s[i] != s[j]
  }

  /** In a sequence without repeats every element occurs once. */
  lemma {:induction false} DistinctCount<T(!new)>(s: seq<T>, e: T)
    requires Distinct(s)
    ensures multiset(s)[e] == if e in s then 1 else 0
  {
    if |s| > 0 {
      assert s == [s[0]] + s[1..];
      assert Distinct(s[1..]) by {
        forall i, j | 0 <= i < j < |s[1..]|
          ensures s[1..][i] != s[1..][j]
        {
          assert s[1..][i] == s[i + 1] && s[1..][j] == s[j + 1];
        }
      }
      DistinctCount(s[1..], e);
      if s[0] == e {
        assert e !in s[1..] by {
          assert forall k :: 0 <= k < |s[1..]| ==> s[1..][k] == s[k + 1] != s[0];
        }
      }
    }
  }

  /** An element equal to a later one occurs at least twice. */
  lemma CountPair<T>(b: seq<T>, i: int, j: int)
    requires 0 <= i < j < |b|
    ensures multiset(b)[b[i]] >= if b[i] == b[j] then 2 else 1
  {
    assert b == b[..i] + [b[i]] + b[i + 1..j] + [b[j]] + b[j + 1..];
    assert multiset(b) == multiset(b[..i]) + multiset{b[i]} + multiset(b[i + 1..j]) + multiset{b[j]} + multiset(b[j + 1..]);
  }

  /** A permutation of a sequence without repeats has no repeats. */
  lemma PermutationDistinct<T(!new)>(a: seq<T>, b: seq<T>)
    requires Distinct(a) && multiset(a) == multiset(b)
    ensures Distinct(b)
    ensures forall e :: e in a <==> e in b
  {
    forall i, j | 0 <= i < j < |b|
      ensures b[i] != b[j]
    {
      CountPair(b, i, j);
      DistinctCount(a, b[i]);
    }
    forall e
      ensures e in a <==> e in b
    {
      assert e in a <==> e in multiset(a);
      assert e in b <==> e in multiset(b);
    }
  }

  /** Two sequences without repeats holding the same elements are permutations of each other. */
  lemma DistinctSameElements<T(!new)>(a: seq<T>, b: seq<T>)
    requires Distinct(a) && Distinct(b)
    requires forall e :: e in a <==> e in b
    ensures multiset(a) == multiset(b)
  {
    forall e
      ensures multiset(a)[e] == multiset(b)[e]
    {
      DistinctCount(a, e);
      DistinctCount(b, e);
    }
  }

  /** f applied to each element, in order. */
  function MapSeq<T, U>(s: seq<T>, f: T -> U): (r: seq<U>)
    ensures |r| == |s|
    ensures forall i :: 0 <= i < |s| ==> r[i] == f(s[i])
  {
    seq(|s|, i requires 0 <= i < |s| => f(s[i]))
  }

  /** Removing the element at i removes one occurrence of it. */
  lemma RemoveAt<T>(b: seq<T>, i: int)
    requires 0 <= i < |b|
    ensures multiset(b[..i] + b[i + 1..]) == multiset(b) - multiset{b[i]}
  {
    assert b == b[..i] + [b[i]] + b[i + 1..];
  }

  /** Mapping after removing the element at i: one occurrence of its image goes. */
  lemma MapRemoveAt<T, U>(b: seq<T>, i: int, f: T -> U)
    requires 0 <= i < |b|
    ensures multiset(MapSeq(b, f)) == multiset(MapSeq(b[..i] + b[i + 1..], f)) + multiset{f(b[i])}
  {
    var c := b[..i] + b[i + 1..];
    var m := MapSeq(b, f);
    var m' := MapSeq(c, f);
    assert m == m'[..i] + [f(b[i])] + m'[i..] by {
      forall k | 0 <= k < |m|
        ensures m[k] == (m'[..i] + [f(b[i])] + m'[i..])[k]
      {
        if k < i {
          assert c[k] == b[k];
        } else if k > i {
          assert c[k - 1] == b[k];
        }
      }
    }
    InsertAt(m', i, f(b[i]));
  }

  /** Inserting x at position i adds one occurrence of x. */
  lemma InsertAt<T>(s: seq<T>, i: int, x: T)
    requires 0 <= i <= |s|
    ensures multiset(s[..i] + [x] + s[i..]) == multiset(s) + multiset{x}
  {
    assert s == s[..i] + s[i..];
  }

  /** Mapping permutations gives permutations. */
  lemma {:induction false} MapMultiset<T, U>(a: seq<T>, b: seq<T>, f: T -> U)
    requires multiset(a) == multiset(b)
    ensures multiset(MapSeq(a, f)) == multiset(MapSeq(b, f))
    decreases |a|
  {
    if |a| == 0 {
      assert |b| == |multiset(b)| == 0;
    } else {
      var i := RemoveMatching(a, b);
      MapMultiset(a[1..], b[..i] + b[i + 1..], f);
      MapMultisetStep(a, b, i, f);
    }
  }

  /** The head of a finds a partner in its permutation b; the rests are permutations too. */
  lemma RemoveMatching<T>(a: seq<T>, b: seq<T>) returns (i: int)
    requires multiset(a) == multiset(b) && |a| > 0
    ensures 0 <= i < |b| && b[i] == a[0]
    ensures multiset(a[1..]) == multiset(b[..i] + b[i + 1..])
  {
    assert a[0] in multiset(b);
    i :| 0 <= i < |b| && b[i] == a[0];
    RemoveAt(b, i);
    assert a == [a[0]] + a[1..];
    assert multiset(a[1..]) == multiset(a) - multiset{a[0]};
  }

  /** The inductive step: both sides lose the image of the same element. */
  lemma MapMultisetStep<T, U>(a: seq<T>, b: seq<T>, i: int, f: T -> U)
    requires |a| > 0 && 0 <= i < |b| && b[i] == a[0]
    requires multiset(MapSeq(a[1..], f)) == multiset(MapSeq(b[..i] + b[i + 1..], f))
    ensures multiset(MapSeq(a, f)) == multiset(MapSeq(b, f))
  {
    var x := multiset{f(a[0])};
    assert multiset(MapSeq(b, f)) == multiset(MapSeq(b[..i] + b[i + 1..], f)) + x by {
      MapRemoveAt(b, i, f);
    }
    assert multiset(MapSeq(a, f)) == multiset(MapSeq(a[1..], f)) + x by {
      MapRemoveHead(a, f);
    }
  }

  /** Mapping after dropping the head: one occurrence of its image goes. */
  lemma MapRemoveHead<T, U>(a: seq<T>, f: T -> U)
    requires |a| > 0
    ensures multiset(MapSeq(a, f)) == multiset(MapSeq(a[1..], f)) + multiset{f(a[0])}
  {
    assert MapSeq(a, f) == [f(a[0])] + MapSeq(a[1..], f);
  }

  /** Sum of a sequence of reals, from the front: `sum += s[i]`. */
  function Sum(s: seq<real>): real
  {
    if |s| == 0 then 0.0 else Sum(s[..|s| - 1]) + s[|s| - 1]
  }

  /** The usual order on reals, as a comparator. */
  function RealLe(a: real, b: real): bool
  {
    a <= b
  }

  lemma RealLeTotalOrder()
    ensures TotalPreorder(RealLe) && Antisymmetric(RealLe)
  {
  }

  /** `Arrays.sort` on doubles: ascending order. */
  function SortReals(s: seq<real>): (r: seq<real>)
    ensures Sorted(r, RealLe)
    ensures multiset(r) == multiset(s)
    ensures |r| == |s|
  {
    RealLeTotalOrder();
    Sort(s, RealLe)
  }
}
