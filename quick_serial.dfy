/** The quicksort of quicksort_serial.c: Hoare's partition around the median of the
    first, middle and last elements, the driver built on it, and the sortedness check. */
module HoareQuickSort {
  import opened SortSpec

  /** The pivot of `s[i..j]`: the median of its first, middle and last elements. */
  function Pivot(s: seq<u32>, i: nat, j: nat): (v: u32)
    requires i <= j < |s|
    ensures v == s[i] || v == s[(i + j) / 2] || v == s[j]
    ensures (s[i] <= v && s[(i + j) / 2] <= v) || (s[i] <= v && s[j] <= v) || (s[(i + j) / 2] <= v && s[j] <= v)
    ensures (v <= s[i] && v <= s[(i + j) / 2]) || (v <= s[i] && v <= s[j]) || (v <= s[(i + j) / 2] && v <= s[j])
  {
    Median3(s[i], s[(i + j) / 2], s[j])
  }

  /** The state at the head of the partition loop. `s` rearranges `a0[i..j]`; everything
      up to `left` is at most `v` and everything from `right` on is at least `v`. The
      cells `ls` and `rs` are the ones the next two scans are sure to stop at. Until the
      first swap the sampled first and middle cells are untouched. */
  ghost predicate HoareScanning(a0: seq<u32>, s: seq<u32>, i: int, j: int, v: u32,
                                left: int, right: int, ls: int, rs: int)
    requires 0 <= i <= j < |a0|
  {
    && i - 1 <= left < right <= j + 1
    && Permutes(a0, s, i, j)
    && left < ls <= j && v <= s[ls]
    && i <= rs < right && s[rs] <= v
    && (forall k :: i <= k <= left ==> s[k] <= v)
    && (forall k :: right <= k <= j ==> v <= s[k])
    && (right == j + 1 ==> left == i - 1 && s[i] == a0[i] && s[(i + j) / 2] == a0[(i + j) / 2])
  }

  /** Before the first scan nothing has been scanned or moved, and the sampled element
      equal to the pivot stops both scans. */
  lemma HoareStart(a0: seq<u32>, i: int, j: int, v: u32, m: int)
    requires 0 <= i <= j < |a0| && v == Pivot(a0, i, j)
    requires m == if v == a0[i] then i else if v == a0[(i + j) / 2] then (i + j) / 2 else j
    ensures HoareScanning(a0, a0, i, j, v, i - 1, j + 1, m, m)
  {
    PermutesRefl(a0, i, j);
  }

  /** The scan from the left: the first index after `left0` whose element is at least
      `v`, which `ls` guarantees exists. */
  method ScanFromLeft(a: array<u32>, left0: int, ghost ls: int, v: u32) returns (left: nat)
    requires -1 <= left0 < ls < a.Length && v <= a[ls]
    ensures left0 < left <= ls && v <= a[left]
    ensures forall k :: left0 < k < left ==> a[k] < v
  {
    left := left0 + 1;
    while a[left] < v
      invariant left0 < left <= ls
      decreases ls - left
      invariant forall k :: left0 < k < left ==> a[k] < v
    {
      left := left + 1;
    }
  }

  /** The scan from the right: the last index before `right0` whose element is at most
      `v`, which `rs` guarantees exists. */
  method ScanFromRight(a: array<u32>, right0: int, ghost rs: int, v: u32) returns (right: nat)
    requires 0 <= rs < right0 <= a.Length && a[rs] <= v
    ensures rs <= right < right0 && a[right] <= v
    ensures forall k :: right < k < right0 ==> v < a[k]
  {
    right := right0 - 1;
    while a[right] > v
      invariant rs <= right < right0
      decreases right - rs
      invariant forall k :: right < k < right0 ==> v < a[k]
    {
      right := right - 1;
    }
  }

  /** A round of the loop that ends in a swap, `l2 < r2`, keeps the invariant with the
      swapped cells as the new stoppers, and narrows the gap. */
  lemma HoareRound(a0: seq<u32>, s: seq<u32>, t: seq<u32>, i: int, j: int, v: u32,
                   left: int, right: int, ls: int, rs: int, l2: int, r2: int)
    requires 0 <= i <= j < |a0|
    requires HoareScanning(a0, s, i, j, v, left, right, ls, rs)
    requires left < l2 <= ls && v <= s[l2] && (forall k :: left < k < l2 ==> s[k] < v)
    requires rs <= r2 < right && s[r2] <= v && (forall k :: r2 < k < right ==> v < s[k])
    requires l2 < r2
    requires t == s[l2 := s[r2]][r2 := s[l2]]
    ensures HoareScanning(a0, t, i, j, v, l2, r2, r2, l2)
    ensures r2 - l2 < right - left
  {
    SwapPermutes(s, i, j, l2, r2);
    PermutesTrans(a0, s, t, i, j);
  }

  /** When the scans cross, `r2` splits `s[i..j]` around `v`, and for a range of two or
      more cells it is below `j`: the median pivot cannot have every other sampled
      element below it. */
  lemma HoareMeet(a0: seq<u32>, s: seq<u32>, i: int, j: int, v: u32,
                  left: int, right: int, ls: int, rs: int, l2: int, r2: int)
    requires 0 <= i <= j < |a0| && v == Pivot(a0, i, j)
    requires HoareScanning(a0, s, i, j, v, left, right, ls, rs)
    requires left < l2 <= ls && v <= s[l2] && (forall k :: left < k < l2 ==> s[k] < v)
    requires rs <= r2 < right && s[r2] <= v && (forall k :: r2 < k < right ==> v < s[k])
    requires r2 <= l2
    ensures i <= r2 <= j && (i < j ==> r2 < j)
    ensures SplitBy(s, i, r2, j, v)
  {
  }

  /** Partitions `a[i..j]` around the median-of-three pivot and returns the split index
      `p`: afterwards `a[i..p]` is at most the pivot and `a[p+1..j]` at least it. */
  method Partition(a: array<u32>, i: nat, j: nat) returns (p: nat)
    requires i <= j < a.Length
    modifies a
    ensures i <= p <= j && (i < j ==> p < j)
    ensures Permutes(old(a[..]), a[..], i, j)
    ensures SplitBy(a[..], i, p, j, Pivot(old(a[..]), i, j))
  {
    ghost var a0 := a[..];
    var v0, v1, v2 := a[i], a[(i + j) / 2], a[j];
    var v := Median3(v0, v1, v2);
    var left: int := i - 1;
    var right: int := j + 1;
    ghost var ls: int := if v == v0 then i else if v == v1 then (i + j) / 2 else j;
    ghost var rs: int := ls;
    HoareStart(a0, i, j, v, ls);
    while true
      invariant v == Pivot(a0, i, j)
      invariant HoareScanning(a0, a[..], i, j, v, left, right, ls, rs)
      decreases right - left
    {
      ghost var before, left0, right0 := a[..], left, right;
      left := ScanFromLeft(a, left, ls, v);
      right := ScanFromRight(a, right, rs, v);
      if left >= right {
        HoareMeet(a0, a[..], i, j, v, left0, right0, ls, rs, left, right);
        return right;
      }
      Swap(a, left, right);
      HoareRound(a0, before, a[..], i, j, v, left0, right0, ls, rs, left, right);
      ls, rs := right, left;
    }
  }

  /** Sorts `a[lo..hi]` in place; the left call is skipped when it would cover only
      `a[lo]`. */
  method QuickSort(a: array<u32>, lo: nat, hi: nat)
    requires hi < a.Length
    modifies a
    ensures SortsRange(old(a[..]), a[..], lo, hi)
    decreases hi - lo
  {
    if lo < hi {
      ghost var a0 := a[..];
      ghost var v := Pivot(a0, lo, hi);
      var p := Partition(a, lo, hi);
      ghost var s := a[..];
      if p > lo {
        QuickSort(a, lo, p);
      }
      ghost var u := a[..];
      QuickSort(a, p + 1, hi);
      SortSidesOfSplit(s, u, a[..], lo, p, hi, v, lo, p, p + 1, hi);
      PermutesTrans(a0, s, a[..], lo, hi);
    }
  }

  /** The sortedness scan of quicksort_serial.c: 1 when every neighbouring pair of `arr[0..size-1]`
      is in order (so an empty or one-element prefix passes), 0 otherwise. */
  method IsSorted(arr: array<u32>, size: nat) returns (r: int)
    requires size <= arr.Length
    ensures r == 0 || r == 1
    ensures r == 1 <==> AdjacentSorted(arr[..], 0, size - 1)
    ensures r == 1 <==> SortedRange(arr[..], 0, size - 1)
  {
    AdjacentSortedIsSorted(arr[..], 0, size - 1);
    var i := 0;
    while i + 1 < size
      invariant i <= size || size == 0
      invariant forall k :: 0 <= k < i && k + 1 < size ==> arr[k] <= arr[k + 1]
    {
      if arr[i] > arr[i + 1] {
        return 0;
      }
      i := i + 1;
    }
    return 1;
  }
}
