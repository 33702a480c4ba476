/** Merge sort over a caller-supplied scratch buffer `temp` (mergesort.c, and merge.c, which
    holds the same kernels line for line): the merge, the recursive sort, the threaded
    driver read as sequential code, and the sortedness checks. */
module ScratchMergeSort {
  import opened SortSpec
  import MergeSpec

  /** Ranges wider than this are split across two threads. */
  const THREAD_THRESHOLD: nat := 100000

  /** The top-level driver's `(left + right) / 2` names the same midpoint. */
  lemma DriverMidpointAgrees(left: nat, right: nat)
    requires left <= right
    ensures (left + right) / 2 == MergeSpec.Midpoint(left, right)
  {
    var d := right - left;
    assert left + right == 2 * left + d;
    assert (2 * left + d) / 2 == left + d / 2;
  }

  /** Merges the sorted runs `arr[left..mid]` and `arr[mid+1..right]` through
      `temp[left..right]` and copies the result back. */
  method Merge(arr: array<u32>, left: nat, mid: nat, right: nat, temp: array<u32>)
    requires arr != temp
    requires left <= mid <= right < arr.Length && right < temp.Length
    modifies arr, temp
    ensures arr[left..right + 1] == MergeSpec.Merge(old(arr[left..mid + 1]), old(arr[mid + 1..right + 1]))
    ensures forall k :: 0 <= k < arr.Length && !(left <= k <= right) ==> arr[k] == old(arr[k])
    ensures forall k :: 0 <= k < temp.Length && !(left <= k <= right) ==> temp[k] == old(temp[k])
    ensures Permutes(old(arr[..]), arr[..], left, right)
    ensures (SortedRange(old(arr[..]), left, mid) && SortedRange(old(arr[..]), mid + 1, right))
            ==> SortedRange(arr[..], left, right)
  {
    ghost var a := arr[..];
    MergeRuns(arr, left, mid, right, temp);
    ghost var merged := temp[left..right + 1];
    assert arr[..] == a;
    assert merged == MergeSpec.Merge(a[left..mid + 1], a[mid + 1..right + 1]);
    for l := left to right + 1
      modifies arr
      invariant forall t :: left <= t < l ==> arr[t] == temp[t]
      invariant forall t :: 0 <= t < arr.Length && !(left <= t < l) ==> arr[t] == a[t]
    {
      arr[l] := temp[l];
    }
    assert arr[left..right + 1] == merged;
    MergeSpec.MergedRangePermutes(a, arr[..], left, mid, right, right + 1);
  }

  /** The three loops of the merge: write the merged run into `temp[left..right]`. */
  method MergeRuns(arr: array<u32>, left: nat, mid: nat, right: nat, temp: array<u32>)
    requires arr != temp
    requires left <= mid <= right < arr.Length && right < temp.Length
    modifies temp
    ensures temp[left..right + 1] == MergeSpec.Merge(arr[left..mid + 1], arr[mid + 1..right + 1])
    ensures forall k :: 0 <= k < temp.Length && !(left <= k <= right) ==> temp[k] == old(temp[k])
  {
    ghost var xs, ys := arr[left..mid + 1], arr[mid + 1..right + 1];
    var i, j, k, p, q := MergeHeads(arr, left, mid, right, temp, xs, ys);
    var end := CopyTails(arr, left, mid, right, temp, i, j, k, xs, ys, p, q, old(temp[..]));
  }

  /** The first loop of the merge: while both runs have elements left, move the smaller
      head (the left one on a tie) to `temp`. Returns both run positions and the next free
      index of `temp`, and, as ghosts, how many elements of each run have been used. */
  method MergeHeads(arr: array<u32>, left: nat, mid: nat, right: nat, temp: array<u32>,
                    ghost xs: seq<u32>, ghost ys: seq<u32>)
    returns (i: nat, j: nat, k: nat, ghost p: nat, ghost q: nat)
    requires arr != temp
    requires left <= mid <= right < arr.Length && right < temp.Length
    requires xs == arr[left..mid + 1] && ys == arr[mid + 1..right + 1]
    modifies temp
    ensures i == left + p <= mid + 1 && j == mid + 1 + q <= right + 1 && k == left + p + q
    ensures i == mid + 1 || j == right + 1
    ensures MergeSpec.HeadsWritten(temp[..], old(temp[..]), xs, ys, left, p, q)
  {
    ghost var t0 := temp[..];
    p, q := 0, 0;
    i, j, k := left, mid + 1, left;
    while i <= mid && j <= right
      invariant i == left + p <= mid + 1 && j == mid + 1 + q <= right + 1 && k == left + p + q
      invariant MergeSpec.HeadsWritten(temp[..], t0, xs, ys, left, p, q)
    {
      ghost var before, p0, q0 := temp[..], p, q;
      assert arr[i] == xs[p] && arr[j] == ys[q];
      if arr[i] <= arr[j] {
        temp[k] := arr[i];
        i, p := i + 1, p + 1;
      } else {
        temp[k] := arr[j];
        j, q := j + 1, q + 1;
      }
      k := k + 1;
      MergeSpec.HeadsAdvance(before, t0, xs, ys, left, p0, q0, temp[..], p, q);
    }
  }

  /** The two tail loops of the merge: once one run is used up, copy the rest of the left
      run and then the rest of the right run behind the heads already in `temp`. Returns
      the index after the last one written, which is `right + 1`. */
  method CopyTails(arr: array<u32>, left: nat, mid: nat, right: nat, temp: array<u32>,
                   i: nat, j: nat, k: nat,
                   ghost xs: seq<u32>, ghost ys: seq<u32>, ghost p: nat, ghost q: nat,
                   ghost t0: seq<u32>)
    returns (end: nat)
    requires arr != temp
    requires left <= mid <= right < arr.Length && right < temp.Length
    requires xs == arr[left..mid + 1] && ys == arr[mid + 1..right + 1]
    requires i == left + p <= mid + 1 && j == mid + 1 + q <= right + 1 && k == left + p + q
    requires i == mid + 1 || j == right + 1
    requires MergeSpec.HeadsWritten(temp[..], t0, xs, ys, left, p, q)
    modifies temp
    ensures end == right + 1
    ensures left <= end <= temp.Length && temp[left..end] == MergeSpec.Merge(xs, ys)
    ensures forall t :: 0 <= t < temp.Length && !(left <= t < end) ==> temp[t] == t0[t]
  {
    ghost var heads := temp[..];
    assert xs[p..] == arr[i..mid + 1] && ys[q..] == arr[j..right + 1];
    var k2 := CopyRun(arr, i, mid, temp, k, xs[p..]);
    ghost var mid1 := temp[..];
    end := CopyRun(arr, j, right, temp, k2, ys[q..]);
    MergeSpec.TailsWritten(heads, mid1, temp[..], t0, xs, ys, left, p, q, k, k2, end);
  }

  /** A tail loop of the merge: copies the rest `arr[i0..last]` of one run to `temp` from
      index `k0` on and returns the next free index of `temp`. */
  method CopyRun(arr: array<u32>, i0: nat, last: nat, temp: array<u32>, k0: nat,
                 ghost run: seq<u32>) returns (k: nat)
    requires arr != temp && i0 <= last + 1 && last < arr.Length
    requires k0 + (last + 1 - i0) <= temp.Length
    requires run == arr[i0..last + 1]
    modifies temp
    ensures k == k0 + |run|
    ensures forall t :: k0 <= t < k ==> temp[t] == run[t - k0]
    ensures forall t :: 0 <= t < temp.Length && !(k0 <= t < k) ==> temp[t] == old(temp[t])
  {
    var i := i0;
    k := k0;
    while i <= last
      invariant i0 <= i <= last + 1 && k == k0 + (i - i0)
      invariant forall t :: k0 <= t < k ==> temp[t] == run[t - k0]
      invariant forall t :: 0 <= t < temp.Length && !(k0 <= t < k) ==> temp[t] == old(temp[t])
    {
      temp[k] := arr[i];
      i, k := i + 1, k + 1;
    }
  }

  /** Answers whether every element of `arr[left..right]` is at most its successor. */
  method IsSubarraySorted(arr: array<u32>, left: nat, right: nat) returns (sorted: bool)
    requires left < right ==> right < arr.Length
    ensures sorted <==> forall i :: left <= i < right ==> arr[i] <= arr[i + 1]
    ensures right < arr.Length ==> (sorted <==> SortedRange(arr[..], left, right))
  {
    var i := left;
    while i < right
      invariant left <= i && (i == left || i <= right)
      invariant forall t :: left <= t < i ==> arr[t] <= arr[t + 1]
    {
      if arr[i] > arr[i + 1] {
        return false;
      }
      i := i + 1;
    }
    sorted := true;
    if right < arr.Length {
      AdjacentSortedIsSorted(arr[..], left, right);
    }
  }

  /** Sorts `arr[left..right]`, leaving everything outside it and every `temp` cell outside
      it untouched. */
  method MergeSort(arr: array<u32>, left: nat, right: nat, temp: array<u32>)
    requires arr != temp && right < arr.Length && right < temp.Length
    modifies arr, temp
    ensures SortsRange(old(arr[..]), arr[..], left, right)
    ensures forall k :: 0 <= k < temp.Length && !(left <= k <= right) ==> temp[k] == old(temp[k])
    decreases right - left
  {
    if left < right {
      var mid := MergeSpec.Midpoint(left, right);
      ghost var s0 := arr[..];
      MergeSort(arr, left, mid, temp);
      ghost var s1 := arr[..];
      MergeSort(arr, mid + 1, right, temp);
      ghost var s2 := arr[..];
      MergeSpec.SortedHalves(s0, s1, s2, left, mid, right);
      Merge(arr, left, mid, right, temp);
      PermutesTrans(s0, s2, arr[..], left, right);
    }
  }

  /** The thread body: split at the midpoint, sort both halves (on two threads above the
      threshold, otherwise with the serial sort), merge, then check the result. The
      out-parameter `reported` says whether the "not sorted" diagnostic would be printed. */
  method ParallelMergeSortThread(arr: array<u32>, left: nat, right: nat, temp: array<u32>)
    returns (reported: bool)
    requires arr != temp && left <= right < arr.Length && right < temp.Length
    modifies arr, temp
    ensures SortsRange(old(arr[..]), arr[..], left, right)
    ensures forall k :: 0 <= k < temp.Length && !(left <= k <= right) ==> temp[k] == old(temp[k])
    ensures !reported
    decreases right - left
  {
    var mid := MergeSpec.Midpoint(left, right);
    ghost var s0 := arr[..];
    ghost var s1;
    if right - left > THREAD_THRESHOLD {
      // The left half runs on a new thread, the right half on this one; they touch
      // disjoint cells of `arr` and `temp`, so running them one after the other is exact.
      var _ := ParallelMergeSortThread(arr, left, mid, temp);
      s1 := arr[..];
      var _ := ParallelMergeSortThread(arr, mid + 1, right, temp);
    } else {
      MergeSort(arr, left, mid, temp);
      s1 := arr[..];
      MergeSort(arr, mid + 1, right, temp);
    }
    ghost var s2 := arr[..];
    MergeSpec.SortedHalves(s0, s1, s2, left, mid, right);
    Merge(arr, left, mid, right, temp);
    PermutesTrans(s0, s2, arr[..], left, right);
    var sorted := IsSubarraySorted(arr, left, right);
    reported := !sorted;
  }

  /** The top-level driver: split at `(left + right) / 2` across two threads above the
      threshold, otherwise sort serially; then merge the two halves once more and check. */
  method ParallelMergeSort(arr: array<u32>, left: nat, right: nat, temp: array<u32>)
    returns (reported: bool)
    requires arr != temp && left <= right < arr.Length && right < temp.Length
    modifies arr, temp
    ensures SortsRange(old(arr[..]), arr[..], left, right)
    ensures forall k :: 0 <= k < temp.Length && !(left <= k <= right) ==> temp[k] == old(temp[k])
    ensures !reported
  {
    var mid := (left + right) / 2;
    DriverMidpointAgrees(left, right);
    ghost var s0 := arr[..];
    if right - left > THREAD_THRESHOLD {
      var _ := ParallelMergeSortThread(arr, left, mid, temp);
      ghost var s1 := arr[..];
      var _ := ParallelMergeSortThread(arr, mid + 1, right, temp);
      MergeSpec.SortedHalves(s0, s1, arr[..], left, mid, right);
    } else {
      MergeSort(arr, left, right, temp);
      forall x, y | left <= x < y <= mid ensures arr[x] <= arr[y] { }
    }
    ghost var s2 := arr[..];
    Merge(arr, left, mid, right, temp);
    PermutesTrans(s0, s2, arr[..], left, right);
    var sorted := IsSubarraySorted(arr, left, right);
    reported := !sorted;
  }

  /** The lower and upper index the whole-array scan hands to `IsSubarraySorted` for an
      array of `size` elements, with `size - 1` computed in `size_t`. */
  function SortedCheckRange(size: nat): (range: (nat, nat))
    requires size <= SIZE_MAX
    ensures range.0 == 0
    ensures 1 <= size ==> range.1 == size - 1
    ensures size == 0 ==> range.1 == SIZE_MAX
  {
    (0, SizeSub(size, 1))
  }

  /** For an empty array the scan's upper index wraps to `SIZE_MAX`, so the range handed
      to `IsSubarraySorted` is not empty and its first step reads `arr[0]` and `arr[1]` of
      a zero-length array. */
  lemma EmptyArrayCheckOverruns()
    ensures SortedCheckRange(0).0 < SortedCheckRange(0).1
    ensures SortedCheckRange(0).1 == SIZE_MAX
  {
  }

  /** The scan of the first `size` elements, with the empty prefix answered directly. */
  method IsSorted(arr: array<u32>, size: nat) returns (sorted: bool)
    requires size <= arr.Length
    ensures sorted <==> SortedRange(arr[..], 0, size - 1)
  {
    if size == 0 {
      return true;
    }
    sorted := IsSubarraySorted(arr, 0, size - 1);
  }
}
