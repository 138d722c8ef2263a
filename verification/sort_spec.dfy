/**
 * What the three sorting routines of Main.java promise: the result is in
 * ascending order and holds exactly the input's elements. A functional
 * insertion sort serves as the reference that every routine is shown to
 * agree with; since a sorted permutation is unique, agreeing with it is the
 * same as being a sorted permutation.
 */
module SortSpec {

  /** Every element is at most every element after it. */
  predicate Sorted(s: seq<int>) {
    forall i, j :: 0 <= i < j < |s| ==> s[i] <= s[j]
  }

  /** Exchanges positions i and j; every other position keeps its value. */
  function Swap(s: seq<int>, i: nat, j: nat): (r: seq<int>)
    requires i < |s| && j < |s|
    ensures |r| == |s|
    ensures r[i] == s[j] && r[j] == s[i]
    ensures forall k :: 0 <= k < |s| && k != i && k != j ==> r[k] == s[k]
    ensures multiset(r) == multiset(s)
  {
    s[i := s[j]][j := s[i]]
  }

  /** Inserts x in front of the first element of s that is not smaller. */
  function Insert(x: int, s: seq<int>): (r: seq<int>)
    requires Sorted(s)
    ensures Sorted(r)
    ensures multiset(r) == multiset(s) + multiset{x}
  {
    if |s| == 0 then [x]
    else if x <= s[0] then [x] + s
    else
      var t := Insert(x, s[1..]);
      assert s == [s[0]] + s[1..];
      assert multiset(t) == multiset(s[1..] + [x]);
      BoundsCarryOver(t, s[1..] + [x], s[0]);
      ConsSorted(s[0], t);
      [s[0]] + t
  }

  /**
   * A permutation has the same lower and upper bounds: whatever bounds
   * every element of b bounds every element of a.
   */
  lemma BoundsCarryOver(a: seq<int>, b: seq<int>, m: int)
    requires multiset(a) == multiset(b)
    ensures (forall j :: 0 <= j < |b| ==> m <= b[j]) ==> forall k :: 0 <= k < |a| ==> m <= a[k]
    ensures (forall j :: 0 <= j < |b| ==> b[j] <= m) ==> forall k :: 0 <= k < |a| ==> a[k] <= m
  {
    forall k | 0 <= k < |a|
      ensures exists j :: 0 <= j < |b| && b[j] == a[k]
    {
      assert a[k] in multiset(b);
    }
  }

  /** A sorted sequence stays sorted behind a head no larger than its elements. */
  lemma ConsSorted(a: int, t: seq<int>)
    requires Sorted(t)
    requires forall k :: 0 <= k < |t| ==> a <= t[k]
    ensures Sorted([a] + t)
  {
  }

  /** Reference sort: insert the head into the sorted tail. */
  function Sort(s: seq<int>): (r: seq<int>)
    ensures Sorted(r)
    ensures multiset(r) == multiset(s)
  {
    if |s| == 0 then []
    else
      assert s == [s[0]] + s[1..];
      Insert(s[0], Sort(s[1..]))
  }

  /** Two sorted sequences with the same elements are equal. */
  lemma {:induction false} SortedUnique(a: seq<int>, b: seq<int>)
    requires Sorted(a) && Sorted(b)
    requires multiset(a) == multiset(b)
    ensures a == b
    decreases |a|
  {
    assert |a| == |multiset(a)| == |multiset(b)| == |b|;
    if |a| > 0 {
      assert a[0] in multiset(b);
      assert b[0] in multiset(a);
      assert a[0] <= b[0] && b[0] <= a[0];
      assert a == [a[0]] + a[1..];
      assert b == [b[0]] + b[1..];
      assert multiset(a) == multiset{a[0]} + multiset(a[1..]);
      assert multiset(b) == multiset{b[0]} + multiset(b[1..]);
      assert multiset(a[1..]) == multiset(a) - multiset{a[0]};
      assert multiset(b[1..]) == multiset(b) - multiset{b[0]};
      SortedUnique(a[1..], b[1..]);
    }
  }

  /** Any sorted permutation of s is the reference sort of s. */
  lemma SortedPermutationIsSort(s: seq<int>, r: seq<int>)
    requires Sorted(r) && multiset(r) == multiset(s)
    ensures r == Sort(s)
  {
    SortedUnique(r, Sort(s));
  }

  /** Sorting an already sorted sequence gives it back unchanged. */
  lemma SortOfSorted(s: seq<int>)
    requires Sorted(s)
    ensures Sort(s) == s
  {
    SortedUnique(s, Sort(s));
  }
}
