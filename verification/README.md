# Sorting routines of the sorting-algorithm benchmark

The benchmark program (`src/Main.java`) times three hand-written in-place
sorts of `int[]` arrays: insertion sort, selection sort and heap sort, the
last one built on a recursive sift-down helper `heapify`. This project models
those four routines and proves what they are for: each returns the input's
elements in ascending order, and each loop and helper keeps the classic
invariant that gets it there.

Each Java routine mutates its array in place and returns nothing. Here the
array is a `seq<int>` value. Each method threads it through loops that follow
the Java statements one by one, and returns its final state. The Java
variables keep their names (`key`, `minIdx`, `largest`, `left`, `right`).
Array elements are mathematical integers. The code only compares elements and
never does arithmetic on them, so Java's 32-bit width does not matter for
them. Index arithmetic is exact in the sort modules. The one place where
Java's 32-bit index arithmetic matters is heapify's two child indices
`2 * i + 1` and `2 * i + 2`, both of which can wrap. That is modelled
separately in `JavaInt` (see Findings).

Files:

- `sort_spec.dfy` (`SortSpec`): what "sorted" means, a swap, a functional
  reference sort `Sort`, and the lemma that a sorted permutation is unique
  (`SortedUnique`). Because a sorted permutation is unique, every sort below
  is proved equal to `Sort`. So the three routines agree with each other on
  every input, and a sorted input comes back unchanged.
- `insertion.dfy` (`Insertion`): `insertionSort`. The inner shift loop is
  `ShiftGreater` and one outer iteration is `InsertKey`.
- `selection.dfy` (`Selection`): `selectionSort`. The inner scan is
  `MinIndex` and one outer iteration is `PlaceMinimum`.
- `heap.dfy` (`Heap`): `heapify` as `Heapify` (recursive, `decreases n - i`).
  `heapSort` is split into its build loop `BuildMaxHeap`, its extraction step
  `ExtractMax`, and `HeapSort`.
- `java_int.dfy` (`JavaInt`): Java's wrapping `int` arithmetic for heapify's
  child indices, with the array length below which it agrees with `Heap`.

Empty and one-element inputs need no separate contract. They are sorted, and
every sort ensures `Sorted(s) ==> r == s`. Every loop bound and index in the
model is proved in range, including the `n - 1` bound of selection sort's
outer loop when `n` is 0.

## Model

| member | source | states |
|---|---|---|
| `Insertion.ShiftGreater` | src/Main.java:25-32 | the shift loop moves exactly the run of prefix elements greater than `key` one slot right, stops at the first element not greater than `key`, and leaves every other slot alone; putting `key` into the gap restores the input's elements |
| `Insertion.InsertKey` | src/Main.java:25-33 | one outer iteration: `key` lands at `j + 1`, earlier slots keep their values, the greater elements are shifted by one, nothing past `i` moves, the multiset is unchanged, and a sorted `arr[0..i)` becomes a sorted `arr[0..i]` |
| `Insertion.ShiftedSorted` | src/Main.java:24-34 | after the outer iteration for index `i`, the prefix `arr[0..i]` is sorted whenever `arr[0..i)` was |
| `Insertion.InsertionSort` | src/Main.java:22-35 | the result is sorted ascending, is a permutation of the input, equals the reference sort, and equals the input when the input is already sorted |
| `Selection.MinIndex` | src/Main.java:47-52 | the inner scan returns an index in `[i, n)` whose element is at most every element of `arr[i..n)`; because the comparison is strict, every element before it in that range is greater, so it is the leftmost minimum |
| `Selection.PlaceMinimum` | src/Main.java:45-58 | one outer iteration changes only slots `i` and `minIdx` (it swaps them), picks the leftmost minimum of `arr[i..n)` (every element before `minIdx` in that range is greater) and puts it at `i`, keeps the multiset, and moves the invariant "`arr[0..i)` sorted and no larger than any of `arr[i..n)`" from `i` to `i + 1` |
| `Selection.SelectionSort` | src/Main.java:42-59 | the result is sorted ascending, is a permutation of the input, equals the reference sort, and equals the input when the input is already sorted |
| `Heap.MaxHeapChildren` | src/Main.java:91-100 | the heap property in parent form (no node exceeds its parent) is equivalent to the form heapify tests: each node is at least its children `2i+1` and `2i+2` below `n` |
| `Heap.Heapify` | src/Main.java:89-113 | heapify keeps the multiset of `arr[0..n)` and of the whole array. It changes nothing at or past `n` and nothing outside the subtree of `i`. It leaves at `i` the largest of `arr[i]` and its children below `n`. If both child subtrees were max-heaps, the subtree of `i` is one afterwards. It terminates because `largest > i` on the recursive call |
| `Heap.SiftStopHeap` | src/Main.java:94-105 | when no child below `n` is larger than `arr[i]` (so `largest == i`), child subtrees that are max-heaps make the subtree of `i` a max-heap without any change |
| `Heap.SwapKeepsChildHeaps` | src/Main.java:105-111 | swapping `arr[i]` with its larger child leaves the grandchild subtrees as they were, so the recursive call starts with max-heaps below `largest` |
| `Heap.SiftStepFrame` | src/Main.java:105-112 | the swap followed by the recursive call only rearranges elements of the subtree of `i` below `n`, and leaves the larger child's old value at `i` |
| `Heap.SiftStepHeap` | src/Main.java:105-112 | after the swap and the recursive sift below `largest`, the whole subtree of `i` is a max-heap |
| `Heap.HeapRootIsMax` | src/Main.java:76-79 | in a max-heap over `[0, n)` the root is at least every element, so the swap moves the maximum of the heap to the end |
| `Heap.BuildMaxHeap` | src/Main.java:67-72 | after heapifying every parent from `n/2 - 1` down to 0, the whole array is a max-heap and a permutation of the input |
| `Heap.ExtractMax` | src/Main.java:76-82 | one extraction step puts the old root at `i`. It keeps the rest of `arr[0..i]` in `arr[0..i)` and leaves every slot past `i` alone. Given a max-heap over `arr[0..i]`, it leaves a max-heap over `arr[0..i)` whose elements are all at most `arr[i]` |
| `Heap.ExtractedHeap` | src/Main.java:77-82 | after the swap to slot `i` and `heapify(arr, i, 0)`, `arr[0..i)` is a max-heap and none of its elements exceeds the extracted maximum |
| `Heap.HeapSort` | src/Main.java:66-84 | the result is sorted ascending, is a permutation of the input, equals the reference sort, and equals the input when the input is already sorted; the extraction loop keeps `arr[i..n)` sorted, `arr[0..i)` a max-heap and no element of `arr[0..i)` above any of `arr[i..n)` |
| `JavaInt.Wrap32` | src/Main.java:91-92 | Java `int` arithmetic: the result lies in `[-2^31, 2^31)`, agrees with the exact value modulo 2^32, and is the exact value when that is in range |
| `JavaInt.ChildIndicesExact` | src/Main.java:91-100 | for every node `i < n` of an array shorter than 2^30, Java's `left` and `right` equal the true children, so the guards `left < n` and `right < n` decide exactly what `Heap.Heapify` decides |
| `JavaInt.WrapNeedsLongArray` | src/Main.java:91-92 | a node `i < n` whose Java `left` or `right` differs from the true child exists only when `n` is at least 2^30 |
| `JavaInt.BuildPhaseReadsNegativeIndex` | src/Main.java:70-111 | on an array of 2^30 elements the first build-phase sift (node 2^29 - 1) has its left child 2^30 - 1 below `n` and no right child, and can recurse into that child. There `left` is 2^31 - 1 and fails `left < n`, but `right` wraps to -2^31 and passes `right < n` |

## Left out

- `main` (console banners, `PrintWriter`/`FileWriter` CSV output, `IOException` handling): input/output only.
- `generateRandomArray`: it depends on `java.util.Random`, a library not part of this model. Its seeds come from `System.nanoTime`, which is a clock.
- `timeSortingAlgorithm`: `System.nanoTime` timing is environmental, and the `"java"` case calls `Arrays.sort`, a library routine not part of this model. Copying the array before sorting needs no model here, because every sort works on a value and cannot touch its caller's copy.
- The trial averages: floating-point division and `%.2f` formatting, used only for output.
- In-place mutation and aliasing of the `int[]`: the array is modelled as a value passed in and returned, so the model says nothing about other references to the same array.
- Call-stack depth of the recursive `heapify`: the model proves termination, not stack usage.
- Stability and the O(n^2) / O(n log n) running-time claims in the comments: they are not functional properties of the result.
- 32-bit wrap-around of index arithmetic in the sort modules: their indices are unbounded naturals. The only index computations that can wrap for a valid array length are heapify's `left = 2 * i + 1` and `right = 2 * i + 2`. `JavaInt.ChildIndicesExact` shows that both are exact, so the exact-index `Heap.Heapify` is faithful, on every array shorter than 2^30 elements; this covers the benchmark's sizes up to 10,000,000. Longer arrays are listed under Findings.

## Findings

| source | as written | input that shows it | evidently intended | confidence | as-written member | corrected member |
|---|---|---|---|---|---|---|
| src/Main.java:91-100 | `int left = 2 * i + 1` and `int right = 2 * i + 2` are computed in 32-bit `int`. At node 2^30 - 1 `right` already wraps to -2^31, and at node 2^30 `left` wraps as well. The only guards before `arr[left]` and `arr[right]` are `left < n` and `right < n`, which negative indices pass | `heapSort` on an array of 2^30 elements in which `arr[2^30 - 1]` exceeds its parent `arr[2^29 - 1]`. The first build-phase `heapify` swaps and recurses into node 2^30 - 1, whose `right` wraps to -2^31 and passes `right < n`, so `arr[-2^31]` throws `ArrayIndexOutOfBoundsException`. No shorter array can wrap (`JavaInt.WrapNeedsLongArray`) | child indices computed without overflow, so that a node whose children lie past `n` ends the sift | not executed; needs an array of 2^30 `int`s, about 4 GiB, far beyond the benchmark's largest size of 10,000,000 | `JavaInt.BuildPhaseReadsNegativeIndex` | `Heap.Heapify` (exact child indices; every read is proved to lie in `[0, n)`), which agrees with the Java indices on every array shorter than 2^30 (`JavaInt.ChildIndicesExact`) |
