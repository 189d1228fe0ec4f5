/**
  Sequence helpers shared by the in-memory stores and the query filters:
  `filter`, `findIndex`, `splice(i, 1)`, `slice(0, n)`, and a stable sort
  (JavaScript's `Array.prototype.sort` is stable).
 */
module Seqs {
  import opened Wrappers

  /** `a` is `b` with some elements dropped and the rest kept in order. */
  predicate IsSubseq<T(==,!new)>(a: seq<T>, b: seq<T>)
    decreases |b|
  {
    |a| == 0 || (|b| > 0 && ((a[0] == b[0] && IsSubseq(a[1..], b[1..])) || IsSubseq(a, b[1..])))
  }

  /** `s.filter(p)`: exactly the elements satisfying `p`. */
  function Filter<T(==,!new)>(s: seq<T>, p: T -> bool): (r: seq<T>)
    ensures |r| <= |s|
    ensures forall x :: x in r <==> x in s && p(x)
    decreases |s|
  {
    if |s| == 0 then []
    else
      var rest := Filter(s[1..], p);
      assert s == [s[0]] + s[1..];
      if p(s[0]) then [s[0]] + rest else rest
  }

  /** Filtering a concatenation filters each part. */
  lemma {:induction false} FilterConcat<T(!new)>(a: seq<T>, b: seq<T>, p: T -> bool)
    ensures Filter(a + b, p) == Filter(a, p) + Filter(b, p)
    decreases |a|
  {
    if |a| == 0 {
      assert a + b == b;
    } else {
      var h, t := a[0], a[1..];
      var head: seq<T> := if p(h) then [h] else [];
      assert Filter(a + b, p) == head + Filter(t + b, p) by {
        assert a + b == [h] + (t + b);
        FilterCons(h, t + b, p);
      }
      assert Filter(a, p) == head + Filter(t, p) by {
        assert a == [h] + t;
        FilterCons(h, t, p);
      }
      FilterConcat(t, b, p);
    }
  }

  /** A filter every element passes keeps the whole sequence. */
  lemma {:induction false} FilterAll<T(!new)>(s: seq<T>, p: T -> bool)
    requires forall x :: x in s ==> p(x)
    ensures Filter(s, p) == s
    decreases |s|
  {
    if |s| > 0 {
      FilterAll(s[1..], p);
    }
  }

  /** Filters by pointwise-equal predicates agree. */
  lemma {:induction false} FilterExt<T(!new)>(s: seq<T>, p: T -> bool, q: T -> bool)
    requires forall x :: p(x) == q(x)
    ensures Filter(s, p) == Filter(s, q)
    decreases |s|
  {
    if |s| > 0 {
      FilterExt(s[1..], p, q);
    }
  }

  /** `s.filter(y => y !== x)`: every copy of `x` removed, the rest in order. */
  function Without<T(==,!new)>(s: seq<T>, x: T): (r: seq<T>)
    ensures forall y :: y in r <==> y in s && y != x
    ensures IsSubseq(r, s)
  {
    FilterSubseq(s, y => y != x);
    Filter(s, y => y != x)
  }

  /** Removing an element that was only just appended gives back the original. */
  lemma {:induction false} WithoutAppended<T(!new)>(s: seq<T>, x: T)
    requires x !in s
    ensures Without(s + [x], x) == s
    decreases |s|
  {
    if |s| == 0 {
      assert [x] == [x] + [];
      FilterCons(x, [], y => y != x);
    } else {
      assert s + [x] == [s[0]] + (s[1..] + [x]);
      FilterCons(s[0], s[1..] + [x], y => y != x);
      WithoutAppended(s[1..], x);
      assert s == [s[0]] + s[1..];
    }
  }

  /** Filtering a sequence with one more element in front. */
  lemma FilterCons<T(!new)>(x: T, s: seq<T>, p: T -> bool)
    ensures Filter([x] + s, p) == (if p(x) then [x] else []) + Filter(s, p)
  {
    assert ([x] + s)[1..] == s;
  }

  /** Every sequence is a subsequence of itself. */
  lemma {:induction false} SubseqRefl<T(!new)>(s: seq<T>)
    ensures IsSubseq(s, s)
    decreases |s|
  {
    if |s| > 0 {
      SubseqRefl(s[1..]);
    }
  }

  /** The filtered elements keep their order: the result is a subsequence. */
  lemma {:induction false} FilterSubseq<T(!new)>(s: seq<T>, p: T -> bool)
    ensures IsSubseq(Filter(s, p), s)
    decreases |s|
  {
    if |s| > 0 {
      FilterSubseq(s[1..], p);
      var rest := Filter(s[1..], p);
      if p(s[0]) {
        assert Filter(s, p) == [s[0]] + rest;
        assert ([s[0]] + rest)[1..] == rest;
      }
    }
  }

  /** Being a subsequence is transitive. */
  lemma {:induction false} SubseqTrans<T(!new)>(a: seq<T>, b: seq<T>, c: seq<T>)
    requires IsSubseq(a, b) && IsSubseq(b, c)
    ensures IsSubseq(a, c)
    decreases |c|
  {
    if |a| > 0 {
      if b[0] == c[0] && IsSubseq(b[1..], c[1..]) {
        if a[0] == b[0] && IsSubseq(a[1..], b[1..]) {
          SubseqTrans(a[1..], b[1..], c[1..]);
        } else {
          SubseqTrans(a, b[1..], c[1..]);
        }
      } else {
        SubseqTrans(a, b, c[1..]);
      }
    }
  }

  /** Every element passes `q` or fails it: the two filters split the length. */
  lemma {:induction false} FilterSplitCount<T(!new)>(s: seq<T>, q: T -> bool, notQ: T -> bool)
    requires forall x :: notQ(x) == !q(x)
    ensures |s| == |Filter(s, q)| + |Filter(s, notQ)|
    decreases |s|
  {
    if |s| > 0 {
      FilterSplitCount(s[1..], q, notQ);
    }
  }

  /** Each element is kept with its full multiplicity, or dropped entirely. */
  lemma {:induction false} FilterMultiset<T(!new)>(s: seq<T>, p: T -> bool)
    ensures forall x {:trigger multiset(Filter(s, p))[x]} ::
              multiset(Filter(s, p))[x] == if p(x) then multiset(s)[x] else 0
    decreases |s|
  {
    if |s| > 0 {
      FilterMultiset(s[1..], p);
      assert s == [s[0]] + s[1..];
    }
  }

  /** `s.findIndex(p)`, with `None` for -1. */
  function FindIndex<T>(s: seq<T>, p: T -> bool): (r: Option<nat>)
    ensures r.Some? ==> r.value < |s| && p(s[r.value])
    ensures r.Some? ==> forall j :: 0 <= j < r.value ==> !p(s[j])
    ensures r.None? ==> forall j :: 0 <= j < |s| ==> !p(s[j])
    decreases |s|
  {
    if |s| == 0 then None
    else if p(s[0]) then Some(0)
    else
      match FindIndex(s[1..], p)
      case None => None
      case Some(i) => Some(i + 1)
  }

  /** `s.splice(i, 1)`: the element at `i` removed, the others kept in order. */
  function RemoveAt<T>(s: seq<T>, i: nat): (r: seq<T>)
    requires i < |s|
    ensures |r| == |s| - 1
    ensures forall j :: 0 <= j < i ==> r[j] == s[j]
    ensures forall j :: i <= j < |r| ==> r[j] == s[j + 1]
  {
    s[..i] + s[i + 1..]
  }

  /** `s.slice(0, n)`. */
  function Take<T>(s: seq<T>, n: nat): (r: seq<T>)
    ensures |r| == if n < |s| then n else |s|
    ensures r <= s
  {
    if n < |s| then s[..n] else s
  }

  /** Non-decreasing by `key`. */
  predicate SortedBy<T>(s: seq<T>, key: T -> int)
  {
    forall i, j :: 0 <= i < j < |s| ==> key(s[i]) <= key(s[j])
  }

  /** `x` placed before the first element whose key is not smaller than its own. */
  function Insert<T(==,!new)>(x: T, s: seq<T>, key: T -> int): (r: seq<T>)
    requires SortedBy(s, key)
    ensures SortedBy(r, key)
    ensures multiset(r) == multiset(s) + multiset{x}
    decreases |s|
  {
    if |s| == 0 || key(x) <= key(s[0]) then [x] + s
    else
      var rest := Insert(x, s[1..], key);
      assert s == [s[0]] + s[1..];
      assert forall y :: y in s[1..] ==> key(s[0]) <= key(y);
      BoundOfPermutation(s[0], x, s[1..], rest, key);
      ConsSorted(s[0], rest, key);
      [s[0]] + rest
  }

  /** A lower bound of `x` and of every element of `s` bounds every element of a permutation of `s + [x]`. */
  lemma BoundOfPermutation<T>(h: T, x: T, s: seq<T>, r: seq<T>, key: T -> int)
    requires multiset(r) == multiset(s) + multiset{x}
    requires key(h) <= key(x) && forall y :: y in s ==> key(h) <= key(y)
    ensures forall y :: y in r ==> key(h) <= key(y)
  {
    forall y | y in r ensures key(h) <= key(y) {
      assert y in multiset(r);
    }
  }

  /** An element no larger than anything in a sorted sequence can go in front of it. */
  lemma ConsSorted<T>(h: T, t: seq<T>, key: T -> int)
    requires SortedBy(t, key) && forall y :: y in t ==> key(h) <= key(y)
    ensures SortedBy([h] + t, key)
  {
    var s := [h] + t;
    forall i, j | 0 <= i < j < |s| ensures key(s[i]) <= key(s[j]) {
      assert s[j] == t[j - 1];
      if i > 0 {
        assert s[i] == t[i - 1];
      } else {
        assert t[j - 1] in t;
      }
    }
  }

  /** Stable insertion sort into non-decreasing `key` order. */
  function SortBy<T(==,!new)>(s: seq<T>, key: T -> int): (r: seq<T>)
    ensures SortedBy(r, key)
    ensures multiset(r) == multiset(s)
    ensures |r| == |s|
    decreases |s|
  {
    if |s| == 0 then []
    else
      assert s == [s[0]] + s[1..];
      Insert(s[0], SortBy(s[1..], key), key)
  }

  /** The sort leaves an already sorted sequence as it is. */
  lemma {:induction false} SortBySorted<T(!new)>(s: seq<T>, key: T -> int)
    requires SortedBy(s, key)
    ensures SortBy(s, key) == s
    decreases |s|
  {
    if |s| > 0 {
      assert SortedBy(s[1..], key);
      SortBySorted(s[1..], key);
      assert s == [s[0]] + s[1..];
    }
  }

  /** Elements whose key is `k`. */
  function HasKey<T>(key: T -> int, k: int): T -> bool
  {
    y => key(y) == k
  }

  /** `Filter(s, HasKey(key, k))`, the elements of `s` whose key is `k`, in order. */
  function WithKey<T(==,!new)>(s: seq<T>, key: T -> int, k: int): seq<T>
  {
    Filter(s, HasKey(key, k))
  }

  /** A one-element sequence when `x` has key `k`, else the empty one. */
  function IfKey<T>(x: T, key: T -> int, k: int): seq<T>
  {
    if key(x) == k then [x] else []
  }

  lemma WithKeyCons<T(!new)>(x: T, s: seq<T>, key: T -> int, k: int)
    ensures WithKey([x] + s, key, k) == IfKey(x, key, k) + WithKey(s, key, k)
  {
    FilterCons(x, s, HasKey(key, k));
  }

  /**
    Putting `y` in front on both sides keeps a key-filtered equation, as
    long as `y` and `x` do not both have key `k`.
   */
  lemma WithKeyFront<T(!new)>(y: T, x: T, t: seq<T>, rest: seq<T>, key: T -> int, k: int)
    requires key(y) != key(x)
    requires WithKey(rest, key, k) == IfKey(x, key, k) + WithKey(t, key, k)
    ensures WithKey([y] + rest, key, k) == IfKey(x, key, k) + WithKey([y] + t, key, k)
  {
    WithKeyCons(y, rest, key, k);
    WithKeyCons(y, t, key, k);
    if key(y) == k {
      assert IfKey(x, key, k) == [];
    } else {
      assert IfKey(y, key, k) == [];
    }
  }

  lemma {:induction false} InsertStable<T(!new)>(x: T, s: seq<T>, key: T -> int, k: int)
    requires SortedBy(s, key)
    ensures WithKey(Insert(x, s, key), key, k) == IfKey(x, key, k) + WithKey(s, key, k)
    decreases |s|
  {
    if |s| == 0 || key(x) <= key(s[0]) {
      WithKeyCons(x, s, key, k);
    } else {
      InsertStable(x, s[1..], key, k);
      assert s == [s[0]] + s[1..];
      WithKeyFront(s[0], x, s[1..], Insert(x, s[1..], key), key, k);
    }
  }

  /**
    The sort is stable: among elements with equal keys the input order is
    kept.
   */
  lemma {:induction false} SortStable<T(!new)>(s: seq<T>, key: T -> int, k: int)
    ensures WithKey(SortBy(s, key), key, k) == WithKey(s, key, k)
    decreases |s|
  {
    if |s| > 0 {
      SortStable(s[1..], key, k);
      InsertStable(s[0], SortBy(s[1..], key), key, k);
      WithKeyCons(s[0], s[1..], key, k);
      assert [s[0]] + s[1..] == s;
    }
  }
}
