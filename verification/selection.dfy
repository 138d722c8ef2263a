/**
 * Selection sort (Main.selectionSort), over a sequence value standing for
 * the int[] that the Java routine mutates in place.
 */
module Selection {
  import opened SortSpec

  /**
   * The inner scan: the index of the minimum of s[lo..]. The comparison is
   * strict, so among equal minima the leftmost one is kept.
   */
  method MinIndex(s: seq<int>, lo: nat) returns (minIdx: nat)
    requires lo < |s|
    ensures lo <= minIdx < |s|
    ensures forall k :: lo <= k < |s| ==> s[minIdx] <= s[k]
    ensures forall k :: lo <= k < minIdx ==> s[k] > s[minIdx]
  {
    minIdx := lo;
    var j := lo + 1;
    while j < |s|
      invariant lo < j <= |s|
      invariant lo <= minIdx < j
      invariant forall k :: lo <= k < j ==> s[minIdx] <= s[k]
      invariant forall k :: lo <= k < minIdx ==> s[k] > s[minIdx]
    {
      if s[j] < s[minIdx] {
        minIdx := j;
      }
      j := j + 1;
    }
  }

  /**
   * One outer iteration for index i: find the leftmost minimum of s[i..] and
   * swap it into slot i. Only slots i and minIdx change. When s[..i] is sorted and
   * holds no element above any of s[i..], the same then holds one slot further.
   */
  method PlaceMinimum(s: seq<int>, i: nat) returns (r: seq<int>, minIdx: nat)
    requires i < |s|
    ensures i <= minIdx < |s|
    ensures forall k :: i <= k < minIdx ==> s[k] > s[minIdx]
    ensures |r| == |s| && r[i] == s[minIdx] && r[minIdx] == s[i]
    ensures forall k :: 0 <= k < |s| && k != i && k != minIdx ==> r[k] == s[k]
    ensures forall k :: i <= k < |s| ==> r[i] <= r[k]
    ensures multiset(r) == multiset(s)
    ensures PrefixSettled(s, i) ==> PrefixSettled(r, i + 1)
  {
    minIdx := MinIndex(s, i);
    r := Swap(s, i, minIdx);
    forall k | i <= k < |s|
      ensures r[i] <= r[k]
    {
      if k != i && k != minIdx {
        assert r[k] == s[k];
      }
    }
  }

  /** s[..i] is sorted and none of its elements exceeds any element of s[i..]. */
  predicate PrefixSettled(s: seq<int>, i: nat)
    requires i <= |s|
  {
    && (forall x, y :: 0 <= x < y < i ==> s[x] <= s[y])
    && (forall x, y :: 0 <= x < i <= y < |s| ==> s[x] <= s[y])
  }

  /**
   * selectionSort: for i from 0 to n - 2 place the minimum of the unsorted
   * suffix at i. The result is the sorted permutation of the input.
   */
  method SelectionSort(s: seq<int>) returns (r: seq<int>)
    ensures Sorted(r)
    ensures multiset(r) == multiset(s)
    ensures r == Sort(s)
    ensures Sorted(s) ==> r == s
  {
    r := s;
    var n := |r|;
    var i := 0;
    while i < n - 1
      invariant |r| == n && 0 <= i <= n
      invariant multiset(r) == multiset(s)
      invariant PrefixSettled(r, i)
    {
      var minIdx;
      r, minIdx := PlaceMinimum(r, i);
      i := i + 1;
    }
    SortedPermutationIsSort(s, r);
    if Sorted(s) {
      SortOfSorted(s);
    }
  }
}
