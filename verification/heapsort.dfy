/** The in-place heap sort that `get_sorted_room_numbers` runs on the list of
    occupied room numbers: build a max-heap, then move the root to the end and
    sift the new root down, shrinking the heap by one each time. */
module HeapSort {

  ghost predicate Sorted(s: seq<int>)
  {
    forall i, j :: 0 <= i < j < |s| ==> s[i] <= s[j]
  }

  function Left(i: int): int { 2 * i + 1 }

  function Right(i: int): int { 2 * i + 2 }

  /** Max-heap order on the parents in `[lo, hi)` with respect to their children below `hi`. */
  ghost predicate HeapFrom(s: seq<int>, lo: int, hi: int)
    requires 0 <= lo && hi <= |s|
  {
    forall i :: lo <= i < hi ==>
      (Left(i) < hi ==> s[i] >= s[Left(i)]) && (Right(i) < hi ==> s[i] >= s[Right(i)])
  }

  /** The root of a heap is its largest element. */
  lemma {:induction false} HeapRootMax(s: seq<int>, hi: int, k: int)
    requires 0 <= k < hi <= |s| && HeapFrom(s, 0, hi)
    ensures s[0] >= s[k]
    decreases k
  {
    if k > 0 {
      var parent := (k - 1) / 2;
      assert k == Left(parent) || k == Right(parent);
      HeapRootMax(s, hi, parent);
    }
  }

  /** Equal multisets and equal outer parts give equal multisets of the middle part. */
  lemma SegmentMultiset(s: seq<int>, t: seq<int>, lo: int, hi: int)
    requires 0 <= lo <= hi <= |s| == |t|
    requires multiset(s) == multiset(t) && s[..lo] == t[..lo] && s[hi..] == t[hi..]
    ensures multiset(s[lo..hi]) == multiset(t[lo..hi])
  {
    assert s == s[..lo] + s[lo..hi] + s[hi..];
    assert t == t[..lo] + t[lo..hi] + t[hi..];
    forall x
      ensures multiset(s[lo..hi])[x] == multiset(t[lo..hi])[x]
    {
      assert multiset(s)[x] == multiset(s[..lo])[x] + multiset(s[lo..hi])[x] + multiset(s[hi..])[x];
      assert multiset(t)[x] == multiset(t[..lo])[x] + multiset(t[lo..hi])[x] + multiset(t[hi..])[x];
    }
  }

  /** Equal multisets of the middle part and equal outer parts give equal multisets. */
  lemma WholeMultiset(s: seq<int>, t: seq<int>, lo: int, hi: int)
    requires 0 <= lo <= hi <= |s| == |t|
    requires multiset(s[lo..hi]) == multiset(t[lo..hi]) && s[..lo] == t[..lo] && s[hi..] == t[hi..]
    ensures multiset(s) == multiset(t)
  {
    assert s == s[..lo] + s[lo..hi] + s[hi..];
    assert t == t[..lo] + t[lo..hi] + t[hi..];
  }

  /** A bound on every element carries over to a permutation. */
  lemma BoundedPermutation(x: seq<int>, y: seq<int>, v: int)
    requires multiset(x) == multiset(y)
    requires forall m :: 0 <= m < |y| ==> y[m] <= v
    ensures forall k :: 0 <= k < |x| ==> x[k] <= v
  {
    forall k | 0 <= k < |x|
      ensures x[k] <= v
    {
      assert x[k] in multiset(y);
    }
  }

  /** Loop invariant of `sift_down`: heap order everywhere in `[start, end]`
      except at `root`, whose parent already dominates `root`'s children. */
  ghost predicate SiftInv(s: seq<int>, start: int, end: int, root: int, parent: int)
    requires 0 <= start <= root <= end < |s|
  {
    && (forall i :: start <= i <= end && i != root ==>
          (Left(i) <= end ==> s[i] >= s[Left(i)]) && (Right(i) <= end ==> s[i] >= s[Right(i)]))
    && (root > start ==> start <= parent < root && (root == Left(parent) || root == Right(parent)))
    && (root > start ==>
          (Left(root) <= end ==> s[parent] >= s[Left(root)]) && (Right(root) <= end ==> s[parent] >= s[Right(root)]))
  }

  /** `child` is the larger child of `root` inside the heap `[.., end]`. */
  ghost predicate LargerChild(s: seq<int>, end: int, root: int, child: int)
    requires 0 <= root && end < |s|
  {
    && (child == Left(root) || child == Right(root))
    && child <= end
    && s[child] >= s[Left(root)]
    && (Right(root) <= end ==> s[child] >= s[Right(root)])
  }

  /** Swapping two positions inside `[lo, hi)` permutes the sequence and leaves the outside alone. */
  lemma SwapFrame(s: seq<int>, i: int, j: int, lo: int, hi: int)
    requires 0 <= lo <= i < hi <= |s| && lo <= j < hi
    ensures var t := s[i := s[j]][j := s[i]];
            multiset(t) == multiset(s) && t[..lo] == s[..lo] && t[hi..] == s[hi..]
  {
  }

  lemma SiftStart(s: seq<int>, start: int, end: int)
    requires 0 <= start <= end < |s| && HeapFrom(s, start + 1, end + 1)
    ensures SiftInv(s, start, end, start, start)
  {
  }

  /** After swapping `root` with its larger child, every position other than
      the child is heap-ordered. */
  lemma SwapOrdersParent(s: seq<int>, start: int, end: int, root: int, parent: int, child: int, i: int)
    requires 0 <= start <= root <= end < |s|
    requires SiftInv(s, start, end, root, parent)
    requires LargerChild(s, end, root, child) && s[root] < s[child]
    requires start <= i <= end && i != child
    ensures var t := s[root := s[child]][child := s[root]];
            (Left(i) <= end ==> t[i] >= t[Left(i)]) && (Right(i) <= end ==> t[i] >= t[Right(i)])
  {
    var t := s[root := s[child]][child := s[root]];
    if i == root {
      assert t[i] == s[child];
    } else if root > start && i == parent {
      assert t[i] == s[parent] && t[root] == s[child];
    } else {
      assert t[i] == s[i];
    }
  }

  /** Swapping `root` with its larger child when the child is bigger moves the hole down one level. */
  lemma SiftSwap(s: seq<int>, start: int, end: int, root: int, parent: int, child: int)
    requires 0 <= start <= root <= end < |s|
    requires SiftInv(s, start, end, root, parent)
    requires LargerChild(s, end, root, child) && s[root] < s[child]
    ensures SiftInv(s[root := s[child]][child := s[root]], start, end, child, root)
  {
    var t := s[root := s[child]][child := s[root]];
    forall i | start <= i <= end && i != child
      ensures Left(i) <= end ==> t[i] >= t[Left(i)]
      ensures Right(i) <= end ==> t[i] >= t[Right(i)]
    {
      SwapOrdersParent(s, start, end, root, parent, child, i);
    }
    assert t[child] == s[root];
  }

  /** When `root` has no child or dominates its larger child, the heap is whole. */
  lemma SiftStop(s: seq<int>, start: int, end: int, root: int, parent: int)
    requires 0 <= start <= root <= end < |s|
    requires SiftInv(s, start, end, root, parent)
    requires 2 * root + 1 > end || exists child :: LargerChild(s, end, root, child) && s[root] >= s[child]
    ensures HeapFrom(s, start, end + 1)
  {
  }

  /** The larger child of `root` within the heap `[.., end]` (the left one on a tie). */
  function BiggerChild(s: seq<int>, end: int, root: int): (c: int)
    requires 0 <= root && Left(root) <= end < |s|
    ensures LargerChild(s, end, root, c)
  {
    if Right(root) <= end && s[Left(root)] < s[Right(root)] then Right(root) else Left(root)
  }

  /** What `sift_down` leaves in the list when it starts at `root`: while `root`
      has a child larger than itself, swap it with its larger child and go on from there. */
  function Sift(s: seq<int>, end: int, root: int): (t: seq<int>)
    requires 0 <= root <= end < |s|
    ensures |t| == |s|
    decreases end - root
  {
    if Left(root) > end then s
    else
      var c := BiggerChild(s, end, root);
      if s[root] < s[c] then Sift(s[root := s[c]][c := s[root]], end, c) else s
  }

  /** Sifting from a hole position completes the heap on `[start, end]`, permutes
      that segment only, and leaves everything outside it as it was. */
  lemma {:induction false} SiftCorrect(s: seq<int>, start: int, end: int, root: int, parent: int)
    requires 0 <= start <= root <= end < |s|
    requires SiftInv(s, start, end, root, parent)
    ensures HeapFrom(Sift(s, end, root), start, end + 1)
    ensures multiset(Sift(s, end, root)) == multiset(s)
    ensures Sift(s, end, root)[..start] == s[..start] && Sift(s, end, root)[end + 1..] == s[end + 1..]
    decreases end - root
  {
    if Left(root) > end {
      SiftStop(s, start, end, root, parent);
    } else {
      var c := BiggerChild(s, end, root);
      if s[root] < s[c] {
        var t := s[root := s[c]][c := s[root]];
        SiftSwap(s, start, end, root, parent, c);
        SwapFrame(s, root, c, start, end + 1);
        SiftCorrect(t, start, end, c, root);
      } else {
        SiftStop(s, start, end, root, parent);
      }
    }
  }

  /** `sift_down(start, end)`: moves `a[start]` down the heap `[start, end]`
      until it is no smaller than its children, swapping with the larger child. */
  method SiftDown(a: array<int>, start: int, end: int)
    requires 0 <= start <= end < a.Length
    modifies a
    ensures a[..] == Sift(old(a[..]), end, start)
  {
    var root := start;
    while true
      invariant start <= root <= end
      invariant Sift(a[..], end, root) == Sift(old(a[..]), end, start)
      decreases end - root
    {
      var child := 2 * root + 1;
      if child > end {
        break;
      }
      if child + 1 <= end && a[child] < a[child + 1] {
        child := child + 1;
      }
      if a[root] < a[child] {
        ghost var s := a[..];
        a[root], a[child] := a[child], a[root];
        assert a[..] == s[root := s[child]][child := s[root]];
        root := child;
      } else {
        break;
      }
    }
  }

  /** Invariant of the sorting loop: a heap on `[0, end]`, every heap element
      at most every element after it, and the part after `end` sorted. */
  ghost predicate SortInv(s: seq<int>, end: int)
    requires 0 <= end < |s|
  {
    && HeapFrom(s, 0, end + 1)
    && (forall i, j :: 0 <= i <= end < j < |s| ==> s[i] <= s[j])
    && (forall i, j :: end < i < j < |s| ==> s[i] <= s[j])
  }

  /** Swapping the root to position `end` leaves heap order on the parents `1..end-1`. */
  lemma SwapRootKeepsHeap(s: seq<int>, end: int)
    requires 0 < end < |s| && HeapFrom(s, 0, end + 1)
    ensures HeapFrom(s[end := s[0]][0 := s[end]], 1, end)
  {
  }

  /** After the swap and the sift, the invariant holds one position lower. */
  lemma SortStep(s: seq<int>, swapped: seq<int>, t: seq<int>, end: int)
    requires 0 < end < |s| && SortInv(s, end)
    requires swapped == s[end := s[0]][0 := s[end]]
    requires |t| == |s| && HeapFrom(t, 0, end)
    requires multiset(t[0..end]) == multiset(swapped[0..end]) && t[end..] == swapped[end..]
    ensures SortInv(t, end - 1)
  {
    forall k | 0 <= k <= end
      ensures s[0] >= s[k]
    {
      HeapRootMax(s, end + 1, k);
    }
    assert forall m :: 0 <= m < end ==> swapped[0..end][m] <= t[end];
    BoundedPermutation(t[0..end], swapped[0..end], t[end]);
    forall j | end < j < |s|
      ensures forall k :: 0 <= k < end ==> t[k] <= t[j]
    {
      assert forall m :: 0 <= m < end ==> swapped[0..end][m] <= t[j];
      BoundedPermutation(t[0..end], swapped[0..end], t[j]);
    }
  }

  /** The heapify phase: sift down from every parent position `start, start - 1, ..., 0`. */
  function Heapify(s: seq<int>, start: int): (t: seq<int>)
    requires -1 <= start < |s|
    ensures |t| == |s|
    decreases start + 1
  {
    if start < 0 then s else Heapify(Sift(s, |s| - 1, start), start - 1)
  }

  /** The sorting phase: swap the root with position `end`, sift the new root
      down the heap `[0, end - 1]`, and repeat down to `end == 1`. */
  function SortDown(s: seq<int>, end: int): (t: seq<int>)
    requires 0 <= end < |s|
    ensures |t| == |s|
    decreases end
  {
    if end == 0 then s else SortDown(Sift(s[end := s[0]][0 := s[end]], end - 1, 0), end - 1)
  }

  /** One step of the heapify phase. */
  lemma HeapifyStep(s: seq<int>, start: int, end: int, t: seq<int>)
    requires 0 <= start <= end && end == |s| - 1 && t == Sift(s, end, start)
    ensures Heapify(s, start) == Heapify(t, start - 1)
  {
  }

  /** One step of the sorting phase. */
  lemma SortDownStep(s: seq<int>, end: int, t: seq<int>)
    requires 0 < end < |s| && t == Sift(s[end := s[0]][0 := s[end]], end - 1, 0)
    ensures SortDown(s, end) == SortDown(t, end - 1)
  {
  }

  /** The whole heap sort of a list of at least two elements. */
  function HeapSorted(s: seq<int>): (t: seq<int>)
    requires |s| >= 2
    ensures |t| == |s|
  {
    SortDown(Heapify(s, |s| / 2 - 1), |s| - 1)
  }

  /** Positions from `|s| / 2` on have no children, so they are heap-ordered trivially. */
  lemma LeavesAreHeap(s: seq<int>)
    ensures HeapFrom(s, |s| / 2, |s|)
  {
  }

  /** Heapify turns a sequence whose positions above `start` are heap-ordered into a heap. */
  lemma {:induction false} HeapifyCorrect(s: seq<int>, start: int)
    requires -1 <= start < |s| && HeapFrom(s, start + 1, |s|)
    ensures HeapFrom(Heapify(s, start), 0, |s|)
    ensures multiset(Heapify(s, start)) == multiset(s)
    decreases start + 1
  {
    if start >= 0 {
      var t := Sift(s, |s| - 1, start);
      SiftStart(s, start, |s| - 1);
      SiftCorrect(s, start, |s| - 1, start, start);
      HeapifyCorrect(t, start - 1);
    }
  }

  /** With the sorting invariant at `end == 0` the sequence is sorted. */
  lemma SortInvZero(s: seq<int>)
    requires 0 < |s| && SortInv(s, 0)
    ensures Sorted(s)
  {
  }

  /** One round of the sorting phase keeps the invariant one position lower and permutes the sequence. */
  lemma SortRound(s: seq<int>, end: int) returns (t: seq<int>)
    requires 0 < end < |s| && SortInv(s, end)
    ensures |t| == |s|
    ensures SortDown(s, end) == SortDown(t, end - 1)
    ensures SortInv(t, end - 1)
    ensures multiset(t) == multiset(s)
  {
    var swapped := s[end := s[0]][0 := s[end]];
    t := Sift(swapped, end - 1, 0);
    SwapRootKeepsHeap(s, end);
    SwapFrame(s, end, 0, 0, |s|);
    SiftStart(swapped, 0, end - 1);
    SiftCorrect(swapped, 0, end - 1, 0, 0);
    SegmentMultiset(t, swapped, 0, end);
    SortStep(s, swapped, t, end);
    SortDownStep(s, end, t);
  }

  /** The sorting phase, started from its invariant, yields a sorted permutation. */
  lemma {:induction false} SortDownCorrect(s: seq<int>, end: int)
    requires 0 <= end < |s| && SortInv(s, end)
    ensures Sorted(SortDown(s, end))
    ensures multiset(SortDown(s, end)) == multiset(s)
    decreases end
  {
    if end == 0 {
      SortInvZero(s);
    } else {
      var t := SortRound(s, end);
      SortDownCorrect(t, end - 1);
    }
  }

  /** Heap sort returns a sorted permutation of its input. */
  lemma HeapSortedCorrect(s: seq<int>)
    requires |s| >= 2
    ensures Sorted(HeapSorted(s))
    ensures multiset(HeapSorted(s)) == multiset(s)
  {
    var h := Heapify(s, |s| / 2 - 1);
    LeavesAreHeap(s);
    HeapifyCorrect(s, |s| / 2 - 1);
    SortDownCorrect(h, |s| - 1);
  }

  /** The heapify phase of `get_sorted_room_numbers`: sift down from the last parent back to the root. */
  method BuildHeap(a: array<int>)
    modifies a
    ensures a[..] == Heapify(old(a[..]), a.Length / 2 - 1)
  {
    var n := a.Length;
    var start := n / 2 - 1;
    while start >= 0
      invariant -1 <= start <= n / 2 - 1
      invariant Heapify(a[..], start) == Heapify(old(a[..]), n / 2 - 1)
    {
      ghost var before := a[..];
      SiftDown(a, start, n - 1);
      HeapifyStep(before, start, n - 1, a[..]);
      start := start - 1;
    }
  }

  /** The sorting phase of `get_sorted_room_numbers`: swap the root to the end, shrink the heap, sift down. */
  method SortPhase(a: array<int>)
    requires a.Length >= 1
    modifies a
    ensures a[..] == SortDown(old(a[..]), a.Length - 1)
  {
    var end := a.Length - 1;
    while end > 0
      invariant 0 <= end < a.Length
      invariant SortDown(a[..], end) == SortDown(old(a[..]), a.Length - 1)
    {
      ghost var s := a[..];
      a[end], a[0] := a[0], a[end];
      assert a[..] == s[end := s[0]][0 := s[end]];
      SiftDown(a, 0, end - 1);
      SortDownStep(s, end, a[..]);
      end := end - 1;
    }
  }

  /** The heap sort of `get_sorted_room_numbers` on a list of at least two room numbers. */
  method Sort(a: array<int>)
    requires a.Length >= 2
    modifies a
    ensures a[..] == HeapSorted(old(a[..]))
  {
    BuildHeap(a);
    SortPhase(a);
  }
}
