/** Merge sort that copies both runs into freshly allocated arrays `L` and `R` and merges
    them back into place (sorting.c, and test.c, which holds the same two functions). */
module TempMergeSort {
  import opened SortSpec
  import MergeSpec

  /** Merges the sorted runs `arr[left..mid]` and `arr[mid+1..right]` in place, through
      copies of both runs. */
  method Merge(arr: array<u32>, left: nat, mid: nat, right: nat)
    requires left <= mid <= right < arr.Length
    modifies arr
    ensures arr[left..right + 1] == MergeSpec.Merge(old(arr[left..mid + 1]), old(arr[mid + 1..right + 1]))
    ensures forall k :: 0 <= k < arr.Length && !(left <= k <= right) ==> arr[k] == old(arr[k])
    ensures Permutes(old(arr[..]), arr[..], left, right)
    ensures (SortedRange(old(arr[..]), left, mid) && SortedRange(old(arr[..]), mid + 1, right))
            ==> SortedRange(arr[..], left, right)
  {
    ghost var a := arr[..];
    var n1 := mid - left + 1;
    var n2 := right - mid;
    var L := CopyOut(arr, left, n1);
    var R := CopyOut(arr, mid + 1, n2);
    assert L[..] == a[left..mid + 1] && R[..] == a[mid + 1..right + 1];
    var end := MergeBack(arr, L, R, left);
    MergeSpec.MergedRangePermutes(a, arr[..], left, mid, right, end);
  }

  /** Allocates an array of `n` elements and copies `arr[start..start+n-1]` into it. */
  method CopyOut(arr: array<u32>, start: nat, n: nat) returns (copy: array<u32>)
    requires start + n <= arr.Length
    ensures fresh(copy)
    ensures copy[..] == arr[start..start + n]
  {
    copy := new u32[n];
    for i := 0 to n
      invariant forall t :: 0 <= t < i ==> copy[t] == arr[start + t]
    {
      copy[i] := arr[start + i];
    }
  }

  /** The loops of the merge: write the merge of `L` and `R` to `arr` from index `left` on.
      Returns the index after the last one written. */
  method MergeBack(arr: array<u32>, L: array<u32>, R: array<u32>, left: nat) returns (end: nat)
    requires arr != L && arr != R
    requires left + L.Length + R.Length <= arr.Length
    modifies arr
    ensures end == left + L.Length + R.Length
    ensures end <= arr.Length && arr[left..end] == MergeSpec.Merge(L[..], R[..])
    ensures forall t :: 0 <= t < arr.Length && !(left <= t < end) ==> arr[t] == old(arr[t])
  {
    ghost var xs, ys := L[..], R[..];
    var i, j, k := MergeHeads(arr, L, R, left);
    ghost var heads := arr[..];
    assert xs[i..] == L[i..] && ys[j..] == R[j..];
    var k2 := CopyIn(L, i, arr, k, xs[i..]);
    ghost var mid1 := arr[..];
    end := CopyIn(R, j, arr, k2, ys[j..]);
    MergeSpec.TailsWritten(heads, mid1, arr[..], old(arr[..]), xs, ys, left, i, j, k, k2, end);
  }

  /** The first loop of the merge: while both `L` and `R` have elements left, write the
      smaller head (the one of `L` on a tie) to `arr`. */
  method MergeHeads(arr: array<u32>, L: array<u32>, R: array<u32>, left: nat)
    returns (i: nat, j: nat, k: nat)
    requires arr != L && arr != R
    requires left + L.Length + R.Length <= arr.Length
    modifies arr
    ensures k == left + i + j
    ensures i == L.Length || j == R.Length
    ensures MergeSpec.HeadsWritten(arr[..], old(arr[..]), L[..], R[..], left, i, j)
  {
    ghost var a0 := arr[..];
    i, j, k := 0, 0, left;
    while i < L.Length && j < R.Length
      invariant k == left + i + j
      invariant MergeSpec.HeadsWritten(arr[..], a0, L[..], R[..], left, i, j)
    {
      ghost var before, i0, j0 := arr[..], i, j;
      if L[i] <= R[j] {
        arr[k] := L[i];
        i := i + 1;
      } else {
        arr[k] := R[j];
        j := j + 1;
      }
      k := k + 1;
      MergeSpec.HeadsAdvance(before, a0, L[..], R[..], left, i0, j0, arr[..], i, j);
    }
  }

  /** A tail loop of the merge: copies `src[i0..]` (the ghost `run`) into `arr` from index
      `k0` on and returns the next index of `arr` to write. */
  method CopyIn(src: array<u32>, i0: nat, arr: array<u32>, k0: nat, ghost run: seq<u32>)
    returns (k: nat)
    requires src != arr && i0 <= src.Length && k0 + (src.Length - i0) <= arr.Length
    requires run == src[i0..]
    modifies arr
    ensures k == k0 + |run|
    ensures forall t :: k0 <= t < k ==> arr[t] == run[t - k0]
    ensures forall t :: 0 <= t < arr.Length && !(k0 <= t < k) ==> arr[t] == old(arr[t])
  {
    var i := i0;
    k := k0;
    while i < src.Length
      invariant i0 <= i <= src.Length && k == k0 + (i - i0)
      invariant forall t :: k0 <= t < k ==> arr[t] == run[t - k0]
      invariant forall t :: 0 <= t < arr.Length && !(k0 <= t < k) ==> arr[t] == old(arr[t])
    {
      arr[k] := src[i];
      i, k := i + 1, k + 1;
    }
  }

  /** Sorts `arr[left..right]` in place, leaving everything outside it untouched. */
  method MergeSort(arr: array<u32>, left: nat, right: nat)
    requires right < arr.Length
    modifies arr
    ensures SortsRange(old(arr[..]), arr[..], left, right)
    decreases right - left
  {
    if left < right {
      var mid := MergeSpec.Midpoint(left, right);
      ghost var s0 := arr[..];
      MergeSort(arr, left, mid);
      ghost var s1 := arr[..];
      MergeSort(arr, mid + 1, right);
      ghost var s2 := arr[..];
      MergeSpec.SortedHalves(s0, s1, s2, left, mid, right);
      Merge(arr, left, mid, right);
      PermutesTrans(s0, s2, arr[..], left, right);
    }
  }
}
