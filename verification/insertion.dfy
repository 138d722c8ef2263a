/**
 * Insertion sort (Main.insertionSort). The Java routine mutates its int[]
 * in place; here the array is a sequence value threaded through the loops,
 * and the method returns its final state.
 */
module Insertion {
  import opened SortSpec

  /**
   * The inner loop of one outer iteration for index i: scanning leftwards
   * from i - 1, every element greater than the key s[i] moves one slot to
   * the right, stopping at the first element not greater than the key.
   * `gap` is the slot left free for the key (j + 1 in the Java loop, so
   * the scan reads r[gap - 1] where the Java code reads arr[j]); the
   * key itself is held aside, so placing it in the gap restores the
   * original elements.
   */
  method ShiftGreater(s: seq<int>, i: nat) returns (r: seq<int>, gap: nat)
    requires i < |s|
    ensures |r| == |s| && gap <= i
    ensures forall k :: 0 <= k < gap ==> r[k] == s[k]
    ensures forall k :: gap <= k < i ==> r[k + 1] == s[k] && s[k] > s[i]
    ensures gap > 0 ==> s[gap - 1] <= s[i]
    ensures forall k :: i < k < |s| ==> r[k] == s[k]
    ensures multiset(r[gap := s[i]]) == multiset(s)
  {
    var key := s[i];
    gap := i;
    r := s;
    while gap > 0 && r[gap - 1] > key
      invariant ShiftedSoFar(s, r, i, gap)
      invariant multiset(r[gap := key]) == multiset(s)
    {
      ShiftKeepsElements(r, gap, key);
      ShiftOneMore(s, r, i, gap);
      r := r[gap := r[gap - 1]];
      gap := gap - 1;
    }
  }

  /** The state of the inner loop: s[gap..i) has moved one slot right. */
  ghost predicate ShiftedSoFar(s: seq<int>, r: seq<int>, i: nat, gap: nat) {
    && gap <= i < |s| && |r| == |s|
    && (forall k :: 0 <= k < gap ==> r[k] == s[k])
    && (forall k :: gap <= k < i ==> r[k + 1] == s[k] && s[k] > s[i])
    && (forall k :: i < k < |s| ==> r[k] == s[k])
  }

  /** One step of the inner loop keeps its state description. */
  lemma ShiftOneMore(s: seq<int>, r: seq<int>, i: nat, gap: nat)
    requires ShiftedSoFar(s, r, i, gap)
    requires gap > 0 && r[gap - 1] > s[i]
    ensures ShiftedSoFar(s, r[gap := r[gap - 1]], i, gap - 1)
  {
    var r' := r[gap := r[gap - 1]];
    forall k | gap - 1 <= k < i
      ensures r'[k + 1] == s[k] && s[k] > s[i]
    {
      if k >= gap {
        assert r'[k + 1] == r[k + 1];
      }
    }
  }

  /**
   * One outer iteration for index i: shift the elements greater than the
   * key s[i] one slot right and drop the key into the gap `pos`. Nothing
   * past i moves, and a sorted prefix s[..i] becomes a sorted s[..i + 1].
   */
  method InsertKey(s: seq<int>, i: nat) returns (r: seq<int>, pos: nat)
    requires i < |s|
    ensures |r| == |s|
    ensures pos <= i && r[pos] == s[i]
    ensures forall k :: 0 <= k < pos ==> r[k] == s[k]
    ensures forall k :: pos <= k < i ==> r[k + 1] == s[k] && s[k] > s[i]
    ensures pos > 0 ==> s[pos - 1] <= s[i]
    ensures forall k :: i < k < |s| ==> r[k] == s[k]
    ensures multiset(r) == multiset(s)
    ensures Sorted(s[..i]) ==> Sorted(r[..i + 1])
  {
    var shifted;
    shifted, pos := ShiftGreater(s, i);
    r := shifted[pos := s[i]];
    forall k | 0 <= k < |s| && k != pos
      ensures r[k] == shifted[k]
    {
    }
    if Sorted(s[..i]) {
      ShiftedSorted(s, r, i, pos);
    }
  }

  /** Moving the gap one slot left keeps the elements, the held key included. */
  lemma ShiftKeepsElements(r: seq<int>, gap: nat, key: int)
    requires 0 < gap < |r|
    ensures multiset(r[gap := r[gap - 1]][gap - 1 := key]) == multiset(r[gap := key])
  {
    assert r[gap := r[gap - 1]][gap - 1 := key] == Swap(r[gap := key], gap - 1, gap);
  }

  /** Dropping the key into the gap after the shift extends a sorted prefix by one. */
  lemma ShiftedSorted(s: seq<int>, r: seq<int>, i: nat, pos: nat)
    requires i < |s| && |r| == |s| && pos <= i && r[pos] == s[i]
    requires forall k :: 0 <= k < pos ==> r[k] == s[k]
    requires forall k :: pos <= k < i ==> r[k + 1] == s[k] && s[k] > s[i]
    requires pos > 0 ==> s[pos - 1] <= s[i]
    requires Sorted(s[..i])
    ensures Sorted(r[..i + 1])
  {
    forall x, y | 0 <= x < y <= i
      ensures r[x] <= r[y]
    {
      if y < pos {
        assert s[..i][x] <= s[..i][y];
      } else if y == pos {
        if x < pos - 1 {
          assert s[..i][x] <= s[..i][pos - 1];
        }
      } else {
        var y' := y - 1;
        assert r[y' + 1] == s[y'];
        if x < pos {
          assert s[..i][x] <= s[..i][y'];
        } else if x > pos {
          var x' := x - 1;
          assert r[x' + 1] == s[x'];
          assert s[..i][x'] <= s[..i][y'];
        }
      }
    }
  }

  /**
   * insertionSort: for i from 1 to n - 1 insert arr[i] into the sorted
   * prefix arr[0..i). The result is the sorted permutation of the input.
   */
  method InsertionSort(s: seq<int>) returns (r: seq<int>)
    ensures Sorted(r)
    ensures multiset(r) == multiset(s)
    ensures r == Sort(s)
    ensures Sorted(s) ==> r == s
  {
    r := s;
    var n := |r|;
    var i := 1;
    while i < n
      invariant |r| == n
      invariant multiset(r) == multiset(s)
      invariant n == 0 || (1 <= i <= n && Sorted(r[..i]))
    {
      var pos;
      r, pos := InsertKey(r, i);
      i := i + 1;
    }
    if n > 0 {
      assert r[..n] == r;
    }
    SortedPermutationIsSort(s, r);
    if Sorted(s) {
      SortOfSorted(s);
    }
  }
}
