/** Ordering helpers the statistics engine relies on: an ascending sorted copy of a
    sample (Python's `sorted`) and the smallest and largest element of a sample. */
module Sorting {

  /** `s` is in ascending order. */
  predicate Sorted(s: seq<real>) {
    forall i, j :: 0 <= i < j < |s| ==> s[i] <= s[j]
  }

  /** Each element of `s` is at least the one before it. */
  predicate Ascending(s: seq<real>) {
    forall i :: 0 < i < |s| ==> s[i - 1] <= s[i]
  }

  /** Ascending neighbours make a sorted sequence. */
  lemma {:induction false} AscendingIsSorted(s: seq<real>)
    ensures Ascending(s) ==> Sorted(s)
  {
    if Ascending(s) && |s| > 1 {
      var t := s[..|s| - 1];
      assert Ascending(t) by {
        forall i | 0 < i < |t|
          ensures t[i - 1] <= t[i]
        {
          assert t[i - 1] == s[i - 1] && t[i] == s[i];
        }
      }
      AscendingIsSorted(t);
      forall i, j | 0 <= i < j < |s|
        ensures s[i] <= s[j]
      {
        if j < |s| - 1 {
          assert s[i] == t[i] && s[j] == t[j];
        } else {
          assert s[i] == t[i] || i == |s| - 2;
          assert s[i] <= s[|s| - 2];
        }
      }
    }
  }

  /** Places `x` in front of the first element of `s` that is not smaller than it. */
  function Insert(x: real, s: seq<real>): (r: seq<real>)
    requires Sorted(s)
    ensures Sorted(r)
    ensures multiset(r) == multiset(s) + multiset{x}
    ensures |r| == |s| + 1
    ensures r[0] == if s == [] || x <= s[0] then x else s[0]
  {
    if s == [] then [x]
    else if x <= s[0] then [x] + s
    else
      assert s == [s[0]] + s[1..];
      [s[0]] + Insert(x, s[1..])
  }

  /** The ascending sorted copy of `s`: a sorted permutation of it. */
  function Sort(s: seq<real>): (r: seq<real>)
    ensures Sorted(r)
    ensures multiset(r) == multiset(s)
    ensures |r| == |s|
  {
    if s == [] then []
    else
      assert s == [s[0]] + s[1..];
      Insert(s[0], Sort(s[1..]))
  }

  /** The smallest element of a non-empty sample. */
  function Minimum(s: seq<real>): (r: real)
    requires |s| > 0
    ensures r in s
    ensures forall x :: x in s ==> r <= x
  {
    if |s| == 1 then s[0]
    else
      assert s == [s[0]] + s[1..];
      var m := Minimum(s[1..]);
      if s[0] <= m then s[0] else m
  }

  /** The largest element of a non-empty sample. */
  function Maximum(s: seq<real>): (r: real)
    requires |s| > 0
    ensures r in s
    ensures forall x :: x in s ==> x <= r
  {
    if |s| == 1 then s[0]
    else
      assert s == [s[0]] + s[1..];
      var m := Maximum(s[1..]);
      if s[0] >= m then s[0] else m
  }

  /** Two sorted sequences holding the same values are the same sequence; so the
      sorted copy depends only on the multiset of values. */
  lemma {:induction false} SortedUnique(a: seq<real>, b: seq<real>)
    requires Sorted(a) && Sorted(b)
    requires multiset(a) == multiset(b)
    ensures a == b
  {
    if a != [] {
      assert |b| == |a| by {
        assert |multiset(b)| == |b| && |multiset(a)| == |a|;
      }
      HeadIsLeast(a, b);
      HeadIsLeast(b, a);
      assert a == [a[0]] + a[1..];
      assert b == [b[0]] + b[1..];
      assert a[0] == b[0];
      calc {
        multiset(a[1..]);
        multiset(a) - multiset{a[0]};
        multiset(b) - multiset{b[0]};
        multiset(b[1..]);
      }
      SortedUnique(a[1..], b[1..]);
    }
  }

  /** The head of a sorted sequence is at most every element of any sequence
      holding the same values. */
  lemma HeadIsLeast(a: seq<real>, b: seq<real>)
    requires Sorted(a) && |a| > 0 && |b| > 0
    requires multiset(a) == multiset(b)
    ensures a[0] <= b[0]
  {
    assert b[0] in multiset(a);
    assert b[0] in a;
  }

  /** The sorted copy of `s` is the one sorted sequence holding its values. */
  lemma SortIsSortedPermutation(s: seq<real>, v: seq<real>)
    requires Sorted(v) && multiset(s) == multiset(v)
    ensures Sort(s) == v
  {
    SortedUnique(Sort(s), v);
  }

  /** Sorting ignores the order of the input. */
  lemma SortPermutationInvariant(a: seq<real>, b: seq<real>)
    requires multiset(a) == multiset(b)
    ensures Sort(a) == Sort(b)
  {
    SortedUnique(Sort(a), Sort(b));
  }

  /** Every element of the sorted copy lies between the sample's minimum and
      maximum; its first element is the minimum and its last the maximum. */
  lemma SortBounds(s: seq<real>)
    requires |s| > 0
    ensures forall i :: 0 <= i < |s| ==> Minimum(s) <= Sort(s)[i] <= Maximum(s)
    ensures Sort(s)[0] == Minimum(s)
    ensures Sort(s)[|s| - 1] == Maximum(s)
  {
    var v := Sort(s);
    forall i | 0 <= i < |s|
      ensures Minimum(s) <= v[i] <= Maximum(s)
    {
      SameValues(v, s, v[i]);
    }
    SortedEnds(v, s);
  }

  lemma SortedEnds(v: seq<real>, s: seq<real>)
    requires |s| > 0 && Sorted(v) && multiset(v) == multiset(s)
    requires forall i :: 0 <= i < |v| ==> Minimum(s) <= v[i] <= Maximum(s)
    ensures |v| == |s|
    ensures v[0] == Minimum(s) && v[|s| - 1] == Maximum(s)
  {
    assert |v| == |s| by {
      assert |multiset(v)| == |v| && |multiset(s)| == |s|;
    }
    var lo, hi := Minimum(s), Maximum(s);
    SameValues(s, v, lo);
    SameValues(s, v, hi);
    SortedEndsBound(v, lo);
    SortedEndsBound(v, hi);
  }

  /** Every element of a sorted sequence lies between its first and last. */
  lemma SortedEndsBound(v: seq<real>, x: real)
    requires Sorted(v) && x in v
    ensures v[0] <= x <= v[|v| - 1]
  {
    var i :| 0 <= i < |v| && v[i] == x;
    assert v[0] <= v[i] <= v[|v| - 1];
  }

  /** A value of `a` is a value of any sequence holding the same multiset. */
  lemma SameValues(a: seq<real>, b: seq<real>, x: real)
    requires multiset(a) == multiset(b)
    requires x in a
    ensures x in b
  {
    assert x in multiset(a);
  }
}
