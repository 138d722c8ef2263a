/**
 * Heap sort (Main.heapSort) and its sift-down helper (Main.heapify), over a
 * sequence value standing for the int[] the Java routines mutate in place.
 * The heap is the usual implicit binary tree: node i has children 2i + 1
 * and 2i + 2, and only indices below the bound n belong to the heap.
 */
module Heap {
  import opened SortSpec

  function Left(i: nat): (r: nat) { 2 * i + 1 }

  function Right(i: nat): (r: nat) { 2 * i + 2 }

  function Parent(k: nat): (r: nat)
    requires k > 0
  {
    (k - 1) / 2
  }

  /** k lies in the subtree rooted at `root`: it is the root or its parent does. */
  predicate InSubtree(root: nat, k: nat)
    decreases k
  {
    k == root || (k > root && InSubtree(root, Parent(k)))
  }

  /** Max-heap over [0, n): no node below the root exceeds its parent. */
  predicate IsMaxHeap(s: seq<int>, n: nat)
    requires n <= |s|
  {
    forall k :: 0 < k < n ==> s[Parent(k)] >= s[k]
  }

  /** The subtree rooted at i, cut off at n, is a max-heap. */
  predicate SubtreeHeap(s: seq<int>, n: nat, i: nat)
    requires n <= |s|
  {
    forall k :: 0 < k < n && k != i && InSubtree(i, k) ==> s[Parent(k)] >= s[k]
  }

  /** The subtrees of both children of i, cut off at n, are max-heaps. */
  predicate ChildrenHeaps(s: seq<int>, n: nat, i: nat)
    requires n <= |s|
  {
    forall k :: 0 < k < n && k != i && InSubtree(i, k) && Parent(k) != i ==> s[Parent(k)] >= s[k]
  }

  /** The parent form of the heap property is the children form the Java code tests. */
  lemma MaxHeapChildren(s: seq<int>, n: nat)
    requires n <= |s|
    ensures IsMaxHeap(s, n) <==>
      forall i :: 0 <= i < n ==>
        (Left(i) < n ==> s[i] >= s[Left(i)]) && (Right(i) < n ==> s[i] >= s[Right(i)])
  {
    if IsMaxHeap(s, n) {
      forall i | 0 <= i < n
        ensures Left(i) < n ==> s[i] >= s[Left(i)]
        ensures Right(i) < n ==> s[i] >= s[Right(i)]
      {
        assert Parent(Left(i)) == i && Parent(Right(i)) == i;
      }
    }
    if forall i :: 0 <= i < n ==>
        (Left(i) < n ==> s[i] >= s[Left(i)]) && (Right(i) < n ==> s[i] >= s[Right(i)])
    {
      forall k | 0 < k < n
        ensures s[Parent(k)] >= s[k]
      {
        var p := Parent(k);
        assert k == Left(p) || k == Right(p);
      }
    }
  }

  /** A node in the subtree of a child of p is in the subtree of p. */
  lemma {:induction false} SubtreeOfChild(c: nat, k: nat)
    requires c > 0 && InSubtree(c, k)
    ensures InSubtree(Parent(c), k)
    decreases k
  {
    if k != c {
      SubtreeOfChild(c, Parent(k));
    }
  }

  /** Every index lies in the subtree of the root. */
  lemma {:induction false} RootSubtreeIsAll(k: nat)
    ensures InSubtree(0, k)
    decreases k
  {
    if k > 0 {
      RootSubtreeIsAll(Parent(k));
    }
  }

  /** A heap rooted at 0 is a max-heap of the whole range. */
  lemma RootSubtreeHeap(s: seq<int>, n: nat)
    requires n <= |s| && SubtreeHeap(s, n, 0)
    ensures IsMaxHeap(s, n)
  {
    forall k | 0 < k < n
      ensures s[Parent(k)] >= s[k]
    {
      RootSubtreeIsAll(k);
    }
  }

  /** In a max-heap the root is at least every element of the heap. */
  lemma {:induction false} HeapRootIsMax(s: seq<int>, n: nat, k: nat)
    requires n <= |s| && IsMaxHeap(s, n) && k < n
    ensures s[0] >= s[k]
    decreases k
  {
    if k > 0 {
      HeapRootIsMax(s, n, Parent(k));
    }
  }

  /**
   * heapify(arr, n, i): sift s[i] down within the bound n. The largest of
   * s[i] and its children below n ends up at i; if a child was larger, the
   * two swap and the sift continues from that child. Only the subtree of i
   * below n changes, its elements are merely rearranged, and when both
   * child subtrees were max-heaps the whole subtree of i is one afterwards.
   */
  method Heapify(s: seq<int>, n: nat, i: nat) returns (r: seq<int>)
    requires n <= |s|
    ensures |r| == |s|
    ensures multiset(r) == multiset(s)
    ensures multiset(r[..n]) == multiset(s[..n])
    ensures forall k :: n <= k < |s| ==> r[k] == s[k]
    ensures forall k :: 0 <= k < |s| && !InSubtree(i, k) ==> r[k] == s[k]
    ensures i < n ==>
      && r[i] >= s[i]
      && (Left(i) < n ==> r[i] >= s[Left(i)])
      && (Right(i) < n ==> r[i] >= s[Right(i)])
      && (r[i] == s[i] || (Left(i) < n && r[i] == s[Left(i)]) || (Right(i) < n && r[i] == s[Right(i)]))
    ensures ChildrenHeaps(s, n, i) ==> SubtreeHeap(r, n, i)
    decreases n - i
  {
    var largest := i;
    var left := Left(i);
    var right := Right(i);
    if left < n && s[left] > s[largest] {
      largest := left;
    }
    if right < n && s[right] > s[largest] {
      largest := right;
    }
    if largest != i {
      var t := Swap(s, i, largest);
      r := Heapify(t, n, largest);
      SiftStepFrame(s, t, r, n, i, largest);
      if ChildrenHeaps(s, n, i) {
        SwapKeepsChildHeaps(s, t, n, i, largest);
        SiftStepHeap(s, t, r, n, i, largest);
      }
    } else {
      r := s;
      if ChildrenHeaps(s, n, i) {
        SiftStopHeap(s, n, i);
      }
    }
  }

  /**
   * The recursive case of Heapify, outside the heap property: swapping s[i]
   * with its child s[c] into t and sifting t below c into r only moves
   * elements of the subtree of i below n, and leaves s[c] at i.
   */
  lemma SiftStepFrame(s: seq<int>, t: seq<int>, r: seq<int>, n: nat, i: nat, c: nat)
    requires n <= |s| && c < n && (c == Left(i) || c == Right(i))
    requires t == Swap(s, i, c)
    requires |r| == |t| && multiset(r) == multiset(t) && multiset(r[..n]) == multiset(t[..n])
    requires forall k :: n <= k < |t| ==> r[k] == t[k]
    requires forall k :: 0 <= k < |t| && !InSubtree(c, k) ==> r[k] == t[k]
    ensures multiset(r) == multiset(s) && multiset(r[..n]) == multiset(s[..n])
    ensures forall k :: n <= k < |s| ==> r[k] == s[k]
    ensures forall k :: 0 <= k < |s| && !InSubtree(i, k) ==> r[k] == s[k]
    ensures r[i] == s[c]
  {
    assert t[..n] == Swap(s[..n], i, c);
    assert Parent(c) == i;
    forall k | 0 <= k < |s| && InSubtree(c, k)
      ensures InSubtree(i, k)
    {
      SubtreeOfChild(c, k);
    }
  }

  /** The base case of Heapify: no child below n exceeds s[i]. */
  lemma SiftStopHeap(s: seq<int>, n: nat, i: nat)
    requires n <= |s|
    requires Left(i) < n ==> s[Left(i)] <= s[i]
    requires Right(i) < n ==> s[Right(i)] <= s[i]
    requires ChildrenHeaps(s, n, i)
    ensures SubtreeHeap(s, n, i)
  {
    forall k | 0 < k < n && k != i && InSubtree(i, k)
      ensures s[Parent(k)] >= s[k]
    {
      if Parent(k) == i {
        assert k == Left(i) || k == Right(i);
      }
    }
  }

  /**
   * Swapping s[i] with its child s[c] leaves the subtrees below c as they
   * were, so the recursive sift from c starts from heaps below it.
   */
  lemma SwapKeepsChildHeaps(s: seq<int>, t: seq<int>, n: nat, i: nat, c: nat)
    requires n <= |s| && c < n && (c == Left(i) || c == Right(i))
    requires t == Swap(s, i, c)
    requires ChildrenHeaps(s, n, i)
    ensures ChildrenHeaps(t, n, c)
  {
    assert Parent(c) == i;
    forall k | 0 < k < n && k != c && InSubtree(c, k) && Parent(k) != c
      ensures t[Parent(k)] >= t[k]
    {
      SubtreeOfChild(c, k);
      assert InSubtree(c, Parent(k));
    }
  }

  /**
   * The recursive case of Heapify: s[i] and its larger child s[c] were
   * swapped into t, and the sift below c turned t into r.
   */
  lemma SiftStepHeap(s: seq<int>, t: seq<int>, r: seq<int>, n: nat, i: nat, c: nat)
    requires n <= |s| && |t| == |s| && |r| == |s|
    requires c < n && (c == Left(i) || c == Right(i))
    requires s[c] > s[i]
    requires Left(i) < n ==> s[c] >= s[Left(i)]
    requires Right(i) < n ==> s[c] >= s[Right(i)]
    requires t == Swap(s, i, c)
    requires ChildrenHeaps(s, n, i)
    requires forall k :: 0 <= k < |t| && !InSubtree(c, k) ==> r[k] == t[k]
    requires r[c] == t[c] || (Left(c) < n && r[c] == t[Left(c)]) || (Right(c) < n && r[c] == t[Right(c)])
    requires SubtreeHeap(r, n, c)
    ensures SubtreeHeap(r, n, i)
  {
    assert Parent(c) == i;
    assert !InSubtree(c, i);
    assert r[i] == s[c];
    if Left(c) < n {
      assert InSubtree(i, Left(c)) by { assert InSubtree(c, Left(c)); SubtreeOfChild(c, Left(c)); }
    }
    if Right(c) < n {
      assert InSubtree(i, Right(c)) by { assert InSubtree(c, Right(c)); SubtreeOfChild(c, Right(c)); }
    }
    assert r[c] <= s[c];
    forall k | 0 < k < n && k != i && InSubtree(i, k)
      ensures r[Parent(k)] >= r[k]
    {
      if k == c {
      } else if InSubtree(c, k) {
      } else if Parent(k) == i {
        assert r[k] == s[k];
      } else {
        assert !InSubtree(c, Parent(k));
        assert r[Parent(k)] == s[Parent(k)];
        assert r[k] == s[k];
      }
    }
  }

  /** The build loop of heapSort: heapify every parent from n/2 - 1 down to 0. */
  method BuildMaxHeap(s: seq<int>) returns (r: seq<int>)
    ensures |r| == |s|
    ensures multiset(r) == multiset(s)
    ensures IsMaxHeap(r, |r|)
  {
    r := s;
    var n := |r|;
    var i := n / 2 - 1;
    while i >= 0
      invariant -1 <= i < n || (n == 0 && i == -1)
      invariant |r| == n
      invariant multiset(r) == multiset(s)
      invariant forall k :: 0 < k < n && Parent(k) > i ==> r[Parent(k)] >= r[k]
    {
      var prev := r;
      forall k | 0 < k < n && k != i && InSubtree(i, k) && Parent(k) != i
        ensures prev[Parent(k)] >= prev[k]
      {
        assert InSubtree(i, Parent(k));
      }
      r := Heapify(r, n, i);
      forall k | 0 < k < n && Parent(k) >= i
        ensures r[Parent(k)] >= r[k]
      {
        if InSubtree(i, k) {
          assert k != i;
        } else {
          assert !InSubtree(i, Parent(k));
          assert r[k] == prev[k] && r[Parent(k)] == prev[Parent(k)];
        }
      }
      i := i - 1;
    }
  }

  /**
   * One iteration of the extraction loop for index i: swap the root into
   * slot i, then sift the new root down in the heap [0, i). Slot i receives
   * the old root; the heap keeps the other elements of s[..i + 1]; slots
   * past i are untouched. When s[..i + 1] was a max-heap, slot i now holds
   * its maximum and [0, i) is again a max-heap.
   */
  method ExtractMax(s: seq<int>, i: nat) returns (r: seq<int>)
    requires i < |s|
    ensures |r| == |s|
    ensures multiset(r) == multiset(s)
    ensures r[i] == s[0]
    ensures multiset(r[..i]) == multiset(s[1..i + 1])
    ensures forall k :: i < k < |s| ==> r[k] == s[k]
    ensures IsMaxHeap(s, i + 1) ==> IsMaxHeap(r, i) && forall k :: 0 <= k < i ==> r[k] <= r[i]
  {
    var t := Swap(s, 0, i);
    r := Heapify(t, i, 0);
    SwapToEndPrefix(s, t, i);
    if IsMaxHeap(s, i + 1) {
      ExtractedHeap(s, t, r, i);
    }
  }

  /** After swapping the root to slot i, the heap [0, i) holds the rest of s[..i + 1]. */
  lemma SwapToEndPrefix(s: seq<int>, t: seq<int>, i: nat)
    requires i < |s| && t == Swap(s, 0, i)
    ensures multiset(t[..i]) == multiset(s[1..i + 1])
  {
    if i > 0 {
      assert t[..i] == [s[i]] + s[1..i];
      assert s[1..i + 1] == s[1..i] + [s[i]];
    }
  }

  /** The heap half of ExtractMax, for a max-heap s[..i + 1]. */
  lemma ExtractedHeap(s: seq<int>, t: seq<int>, r: seq<int>, i: nat)
    requires i < |s| && IsMaxHeap(s, i + 1) && t == Swap(s, 0, i)
    requires |r| == |s| && r[i] == s[0]
    requires multiset(r[..i]) == multiset(s[1..i + 1])
    requires ChildrenHeaps(t, i, 0) ==> SubtreeHeap(r, i, 0)
    ensures IsMaxHeap(r, i)
    ensures forall k :: 0 <= k < i ==> r[k] <= r[i]
  {
    forall k | 0 < k < i && Parent(k) != 0
      ensures t[Parent(k)] >= t[k]
    {
      assert t[Parent(k)] == s[Parent(k)] && t[k] == s[k];
    }
    RootSubtreeHeap(r, i);
    var rest := s[1..i + 1];
    forall k | 0 <= k < |rest|
      ensures rest[k] <= s[0]
    {
      HeapRootIsMax(s, i + 1, k + 1);
    }
    BoundsCarryOver(r[..i], rest, s[0]);
    assert forall k :: 0 <= k < i ==> r[k] == r[..i][k];
  }

  /**
   * heapSort: build a max-heap, then repeatedly swap the root with the last
   * element of the heap and sift the new root down in the shrunken heap.
   * The result is the sorted permutation of the input.
   */
  method HeapSort(s: seq<int>) returns (r: seq<int>)
    ensures Sorted(r)
    ensures multiset(r) == multiset(s)
    ensures r == Sort(s)
    ensures Sorted(s) ==> r == s
  {
    r := BuildMaxHeap(s);
    var n := |r|;
    var i := n - 1;
    while i > 0
      invariant -1 <= i < n || (n == 0 && i == -1)
      invariant |r| == n
      invariant multiset(r) == multiset(s)
      invariant IsMaxHeap(r, i + 1)
      invariant forall x, y :: i < x < y < n ==> r[x] <= r[y]
      invariant forall x, y :: 0 <= x <= i < y < n ==> r[x] <= r[y]
    {
      var prev := r;
      r := ExtractMax(r, i);
      forall y | i < y < n
        ensures forall x :: 0 <= x < i ==> r[x] <= r[y]
      {
        var rest := prev[1..i + 1];
        forall z | 0 <= z < |rest|
          ensures rest[z] <= prev[y]
        {
          assert rest[z] == prev[z + 1];
        }
        BoundsCarryOver(r[..i], rest, prev[y]);
        assert forall x :: 0 <= x < i ==> r[x] == r[..i][x];
      }
      i := i - 1;
    }
    SortedPermutationIsSort(s, r);
    if Sorted(s) {
      SortOfSorted(s);
    }
  }
}
