/**
  The array operations the front end's in-memory stores are built from:
  `find`, `findIndex` followed by an in-place update, and `findIndex`
  followed by `splice(index, 1)`. Arrays are values here; an operation
  returns the new array alongside its result.
 */
module Store {
  import opened Wrappers
  import opened Seqs

  /** `s.find(p)`: the first element satisfying `p`. */
  function Find<T>(s: seq<T>, p: T -> bool): (r: Option<T>)
    ensures r.None? <==> forall i :: 0 <= i < |s| ==> !p(s[i])
    ensures r.Some? ==> exists i :: 0 <= i < |s| && s[i] == r.value && p(s[i]) && forall j :: 0 <= j < i ==> !p(s[j])
  {
    match FindIndex(s, p)
    case None => None
    case Some(i) => Some(s[i])
  }

  /**
    The first element satisfying `p` replaced by `f` of it, and the new
    element returned; nothing found leaves the array as it was.
   */
  function UpdateFirst<T>(s: seq<T>, p: T -> bool, f: T -> T): (r: (Option<T>, seq<T>))
    ensures r.0.None? <==> forall i :: 0 <= i < |s| ==> !p(s[i])
    ensures r.0.None? ==> r.1 == s
    ensures |r.1| == |s|
    ensures r.0.Some? ==> var i := FindIndex(s, p).value;
                          r.1[i] == f(s[i]) == r.0.value
                          && forall j :: 0 <= j < |s| && j != i ==> r.1[j] == s[j]
  {
    match FindIndex(s, p)
    case None => (None, s)
    case Some(i) => (Some(f(s[i])), s[i := f(s[i])])
  }

  /** `findIndex` then `splice(index, 1)`: whether something was removed, and the array after. */
  function RemoveFirst<T>(s: seq<T>, p: T -> bool): (r: (bool, seq<T>))
    ensures !r.0 <==> forall i :: 0 <= i < |s| ==> !p(s[i])
    ensures !r.0 ==> r.1 == s
    ensures r.0 ==> r.1 == RemoveAt(s, FindIndex(s, p).value)
  {
    match FindIndex(s, p)
    case None => (false, s)
    case Some(i) => (true, RemoveAt(s, i))
  }

  /**
    Removing the first match takes out exactly one matching element and
    leaves every other element, in order.
   */
  lemma {:induction false} RemoveFirstOthers<T(!new)>(s: seq<T>, p: T -> bool, notP: T -> bool)
    requires forall x :: notP(x) == !p(x)
    ensures Filter(RemoveFirst(s, p).1, notP) == Filter(s, notP)
    ensures RemoveFirst(s, p).0 ==> |Filter(RemoveFirst(s, p).1, p)| + 1 == |Filter(s, p)|
    decreases |s|
  {
    if |s| > 0 {
      assert s == [s[0]] + s[1..];
      if p(s[0]) {
        assert RemoveFirst(s, p).1 == s[1..];
        FilterCons(s[0], s[1..], p);
        FilterCons(s[0], s[1..], notP);
      } else {
        RemoveFirstOthers(s[1..], p, notP);
        var r := RemoveFirst(s[1..], p);
        FilterCons(s[0], s[1..], p);
        FilterCons(s[0], s[1..], notP);
        if r.0 {
          var i := FindIndex(s[1..], p).value;
          assert FindIndex(s, p) == Some(i + 1);
          assert RemoveFirst(s, p).1 == [s[0]] + r.1;
        } else {
          assert RemoveFirst(s, p).1 == s;
        }
        FilterCons(s[0], r.1, p);
        FilterCons(s[0], r.1, notP);
      }
    }
  }

  /** `push`: the element appended, everything before it kept. */
  function Append<T>(s: seq<T>, x: T): (r: seq<T>)
    ensures |r| == |s| + 1 && r[..|s|] == s && r[|s|] == x
  {
    s + [x]
  }

  /** An appended element is what `find` returns for it when nothing before it matches. */
  lemma AppendThenFind<T>(s: seq<T>, x: T, p: T -> bool)
    requires p(x) && forall i :: 0 <= i < |s| ==> !p(s[i])
    ensures Find(Append(s, x), p) == Some(x)
  {
    var r := Append(s, x);
    assert forall i :: 0 <= i < |s| ==> r[i] == s[i];
  }

  /**
    `s.filter(p)` as the stores use it: exactly the matching elements, each
    as often as in `s`, in their original order.
   */
  function Select<T(==,!new)>(s: seq<T>, p: T -> bool): (r: seq<T>)
    ensures forall x :: x in r <==> x in s && p(x)
    ensures forall x {:trigger multiset(r)[x]} :: multiset(r)[x] == if p(x) then multiset(s)[x] else 0
    ensures IsSubseq(r, s)
    ensures (forall x :: x in s ==> !p(x)) ==> r == []
  {
    FilterMultiset(s, p);
    FilterSubseq(s, p);
    var r := Filter(s, p);
    assert (forall x :: x in s ==> !p(x)) ==> r == [] by {
      if r != [] {
        assert r[0] in r;
      }
    }
    r
  }

  /** The elements passing `p` and those failing it together make up `s`. */
  lemma {:induction false} PartitionMultiset<T(!new)>(s: seq<T>, p: T -> bool, notP: T -> bool)
    requires forall x :: notP(x) == !p(x)
    ensures multiset(Filter(s, p)) + multiset(Filter(s, notP)) == multiset(s)
    decreases |s|
  {
    if |s| > 0 {
      PartitionMultiset(s[1..], p, notP);
      FilterCons(s[0], s[1..], p);
      FilterCons(s[0], s[1..], notP);
      assert s == [s[0]] + s[1..];
    }
  }

  /** A sorted copy holds the same elements as what it sorts. */
  lemma SortedMembers<T(!new)>(s: seq<T>, key: T -> int)
    ensures forall x :: x in SortBy(s, key) <==> x in s
  {
    var r := SortBy(s, key);
    forall x ensures x in r <==> x in s {
      assert x in r <==> x in multiset(r);
      assert x in s <==> x in multiset(s);
    }
  }
}
