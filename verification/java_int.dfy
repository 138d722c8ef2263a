/**
 * Java `int` index arithmetic in heapify. The Heap module computes child
 * indices with unbounded naturals; this module computes `2 * i + 1` and
 * `2 * i + 2` the way the Java code does, wrapping modulo 2^32 into
 * [-2^31, 2^31), and shows exactly where the two part ways.
 */
module JavaInt {
  import Heap

  const TwoTo31: int := 0x8000_0000
  const TwoTo32: int := 0x1_0000_0000

  /** The smallest array length on which heapSort can compute a wrapped child index. */
  const FirstWrappingLength: int := 0x4000_0000

  /** A mathematical integer reduced to a Java `int`. */
  function Wrap32(x: int): (r: int)
    ensures -TwoTo31 <= r < TwoTo31
    ensures (r - x) % TwoTo32 == 0
    ensures -TwoTo31 <= x < TwoTo31 ==> r == x
  {
    (x + TwoTo31) % TwoTo32 - TwoTo31
  }

  /** `int left = 2 * i + 1` as heapify computes it. */
  function JavaLeft(i: int): (r: int) {
    Wrap32(2 * i + 1)
  }

  /** `int right = 2 * i + 2` as heapify computes it. */
  function JavaRight(i: int): (r: int) {
    Wrap32(2 * i + 2)
  }

  /**
   * On every array shorter than FirstWrappingLength, every node heapify can
   * be called on (i < n) gets its true children from the Java arithmetic,
   * so the guards `left < n` and `right < n` decide exactly what the
   * exact-index Heap.Heapify decides.
   */
  lemma ChildIndicesExact(n: int, i: nat)
    requires i < n < FirstWrappingLength
    ensures JavaLeft(i) == Heap.Left(i) && JavaRight(i) == Heap.Right(i)
    ensures (JavaLeft(i) < n) == (Heap.Left(i) < n)
    ensures (JavaRight(i) < n) == (Heap.Right(i) < n)
  {
  }

  /**
   * A node i below n can get a wrapped child index only if n is at least
   * FirstWrappingLength: the first index to wrap is `right` at node 2^30 - 1.
   */
  lemma WrapNeedsLongArray(n: int, i: nat)
    requires i < n
    requires JavaLeft(i) != Heap.Left(i) || JavaRight(i) != Heap.Right(i)
    ensures n >= FirstWrappingLength
  {
  }

  /**
   * The wrap is reachable from heapSort on an array of FirstWrappingLength
   * elements. The first node the build loop sifts, n / 2 - 1, has its true
   * left child c below n and its right child at n. When s[c] exceeds its
   * parent the sift recurses into c. There `left` is 2^31 - 1, which the
   * guard `left < n` rejects, but `right` wraps to -2^31, which the guard
   * `right < n` lets through, so arr[right] is read out of bounds.
   */
  lemma BuildPhaseReadsNegativeIndex()
    ensures var n := FirstWrappingLength;
      var i0 := n / 2 - 1;
      var c := Heap.Left(i0);
      && 0 <= i0 < c < n
      && JavaLeft(i0) == c && JavaRight(i0) == Heap.Right(i0) == n
      && JavaLeft(c) == Heap.Left(c) && !(JavaLeft(c) < n)
      && JavaRight(c) == -TwoTo31 && JavaRight(c) < n
  {
  }
}
