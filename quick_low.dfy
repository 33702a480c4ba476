/** The quicksort of sorting.c: the pivot-at-`low` partition with an `i <= j` loop, the
    serial driver, the threaded driver read sequentially, and the reverse fill used to
    build inputs. */
module LowPivotQuickSort {
  import opened SortSpec
  import opened LowPivot

  /** Fills `arr[0..size-1]` with `size - i`, stored as a 32-bit value. */
  method PopulateArray(arr: array<u32>, size: nat)
    requires size <= arr.Length
    modifies arr
    ensures forall k :: 0 <= k < size ==> arr[k] as int == (size - k) % 0x1_0000_0000
    ensures forall k :: size <= k < arr.Length ==> arr[k] == old(arr[k])
    ensures size < 0x1_0000_0000 ==>
              (forall k :: 0 <= k < size ==> arr[k] as int == size - k)
              && (forall x, y :: 0 <= x < y < size ==> arr[y] < arr[x])
  {
    for i := 0 to size
      invariant forall k :: 0 <= k < i ==> arr[k] as int == (size - k) % 0x1_0000_0000
      invariant forall k :: i <= k < arr.Length ==> arr[k] == old(arr[k])
    {
      arr[i] := ((size - i) % 0x1_0000_0000) as u32;
    }
  }

  /** Partitions `arr[low..high]` around the pivot `arr[low]` and returns the pivot's
      final index. */
  method Partition(arr: array<u32>, low: nat, high: nat) returns (p: nat)
    requires low <= high < arr.Length
    modifies arr
    ensures PivotPlaced(old(arr[..]), arr[..], low, high, p)
  {
    ghost var a0 := arr[..];
    var pivot := low;
    var i, j := low, high;
    while i <= j
      invariant Scanning(a0, arr[..], low, high, i, j, a0[low])
      decreases j + 1 - i
    {
      ghost var before, i0, j0 := arr[..], i, j;
      i := ScanUp(arr, i, high, arr[pivot]);
      j := ScanDown(arr, low, j, arr[pivot]);
      if i < j {
        Swap(arr, i, j);
      }
      ScanRound(a0, before, arr[..], low, high, i0, j0, i, j, a0[low]);
    }
    ghost var before := arr[..];
    Swap(arr, low, j);
    PlacePivot(a0, before, arr[..], low, high, i, j);
    p := j;
  }

  /** The serial quick sort on `arr[low..high]`, with the left call's upper bound
      `p - 1` taken as a signed value, so that `p == 0` gives an empty range. */
  method QuickSort(arr: array<u32>, low: nat, high: int)
    requires high < arr.Length
    modifies arr
    ensures SortsRange(old(arr[..]), arr[..], low, high)
    decreases high - low
  {
    if low < high {
      var p := Partition(arr, low, high);
      var (l1, h1, l2, h2) := PivotSides(low, high, p);
      ghost var s, u := arr[..], arr[..];
      QuickSort(arr, l1, h1);
      u := arr[..];
      QuickSort(arr, l2, h2);
      SortAroundPivot(s, u, arr[..], low, p, high);
      PermutesTrans(old(arr[..]), s, arr[..], low, high);
    }
  }

  /** The threaded quick sort read sequentially: the side `[p+1, high]` is sorted by the
      calling thread and the side `[low, p-1]` by the thread it joins, on the same
      sub-ranges as `QuickSort`. */
  method ParallelQuicksort(arr: array<u32>, low: nat, high: int)
    requires high < arr.Length
    modifies arr
    ensures SortsRange(old(arr[..]), arr[..], low, high)
    decreases high - low
  {
    if low < high {
      var p := Partition(arr, low, high);
      var (l1, h1, l2, h2) := PivotSides(low, high, p);
      ghost var s, u := arr[..], arr[..];
      ParallelQuicksort(arr, l2, h2);
      u := arr[..];
      ParallelQuicksort(arr, l1, h1);
      SortAroundPivot(s, u, arr[..], low, p, high);
      PermutesTrans(old(arr[..]), s, arr[..], low, high);
    }
  }

  /** Entry point of the threaded sort. */
  method StartParallelQuicksort(arr: array<u32>, low: nat, high: int)
    requires high < arr.Length
    modifies arr
    ensures SortsRange(old(arr[..]), arr[..], low, high)
  {
    ParallelQuicksort(arr, low, high);
  }
}
