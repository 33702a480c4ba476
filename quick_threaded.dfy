/** The quicksort of quicksort.c: the pivot-at-`low` partition with an `i < j` loop, a
    serial driver that keeps the pivot in its left call, a threaded driver whose forks
    are bounded by depth, size and a global thread counter, and the sortedness check. */
module ThreadedQuickSort {
  import opened SortSpec
  import opened LowPivot

  /** Limit on the number of live threads. */
  const MAX_THREADS: int := 8
  /** Ranges at most this wide (`high - low`) are never handed to a new thread. */
  const MIN_SIZE: int := 10000
  /** Forks happen only at recursion depths below this. */
  const MAX_FORK_DEPTH: nat := 3

  /** The global `thread_count`: the number of forked threads not yet joined. */
  class ThreadCounter {
    var count: int

    constructor ()
      ensures count == 0
    {
      count := 0;
    }
  }

  /** Partitions `arr[low..high]` around the pivot value `arr[low]` and returns the
      pivot's final index. */
  method Partition(arr: array<u32>, low: nat, high: nat) returns (p: nat)
    requires low <= high < arr.Length
    modifies arr
    ensures PivotPlaced(old(arr[..]), arr[..], low, high, p)
  {
    ghost var a0 := arr[..];
    var pivotValue := arr[low];
    var i, j := low, high;
    while i < j
      invariant Scanning(a0, arr[..], low, high, i, j, pivotValue)
      decreases j + 1 - i
    {
      ghost var before, i0, j0 := arr[..], i, j;
      i := ScanUp(arr, i, high, pivotValue);
      j := ScanDown(arr, low, j, pivotValue);
      if i < j {
        Swap(arr, i, j);
      }
      ScanRound(a0, before, arr[..], low, high, i0, j0, i, j, pivotValue);
    }
    ghost var before := arr[..];
    Swap(arr, low, j);
    PlacePivot(a0, before, arr[..], low, high, i, j);
    p := j;
  }

  /** The ranges of the two recursive calls of the serial quick sort as written: the
      left one keeps the pivot, `[low, p]`, the right one is `[p+1, high]`. */
  function SerialCallsAsWritten(low: nat, high: nat, p: nat): (r: (nat, nat, nat, nat))
    requires low <= p <= high
    ensures r.0 == low && r.3 == high && r.1 + 1 == r.2
    ensures r.1 - r.0 < high - low <==> p < high
  {
    (low, p, p + 1, high)
  }

  /** On `[2, 2]` the pivot equals every other element, so the partition has to leave it
      at `high`, and the left call as written is on the very range it came from: the
      serial quick sort never returns. */
  lemma EqualPairLeftCallRepeats(t: seq<u32>, p: nat)
    requires PivotPlaced([2, 2], t, 0, 1, p)
    ensures p == 1
    ensures SerialCallsAsWritten(0, 1, p).0 == 0 && SerialCallsAsWritten(0, 1, p).1 == 1
  {
    assert t[0..2] == [t[0], t[1]];
    assert [2 as u32, 2][0..2] == [2, 2];
    assert multiset([t[0], t[1]]) == multiset{2, 2};
  }

  /** The serial quick sort with the left call on `[low, p-1]`, as the threaded driver
      of the same file has it, taken as a signed bound. */
  method QuickSort(arr: array<u32>, low: nat, high: int)
    requires high < arr.Length
    modifies arr
    ensures SortsRange(old(arr[..]), arr[..], low, high)
    decreases high - low
  {
    if low < high {
      var p := Partition(arr, low, high);
      var (l1, h1, l2, h2) := PivotSides(low, high, p);
      ghost var s, u := arr[..], arr[..];
      QuickSort(arr, l1, h1);
      u := arr[..];
      QuickSort(arr, l2, h2);
      SortAroundPivot(s, u, arr[..], low, p, high);
      PermutesTrans(old(arr[..]), s, arr[..], low, high);
    }
  }

  /** The fork test of the threaded driver for the range `[low, high]` at `depth`, with
      `count` threads live. */
  predicate ShouldThread(depth: nat, low: nat, high: nat, count: int): (fork: bool)
    ensures fork ==> depth + 1 <= MAX_FORK_DEPTH && count + 1 <= MAX_THREADS
    ensures fork ==> low + MIN_SIZE < high
    ensures depth >= MAX_FORK_DEPTH || high - low <= MIN_SIZE || count >= MAX_THREADS ==> !fork
  {
    depth < MAX_FORK_DEPTH && high - low > MIN_SIZE && count < MAX_THREADS
  }

  /** The most forks one call at `depth` can make, itself and all its descendants. */
  function ForkBound(depth: nat): (n: nat)
    decreases MAX_FORK_DEPTH - depth
  {
    if depth >= MAX_FORK_DEPTH then 0 else 1 + 2 * ForkBound(depth + 1)
  }

  /** A call at depth `d` forks at most `2^(3-d) - 1` times, so a top-level call at most 7. */
  lemma {:induction false} ForkBoundClosedForm(depth: nat)
    ensures ForkBound(depth) == if depth >= MAX_FORK_DEPTH then 0 else Pow2(MAX_FORK_DEPTH - depth) - 1
    decreases MAX_FORK_DEPTH - depth
  {
    if depth < MAX_FORK_DEPTH {
      ForkBoundClosedForm(depth + 1);
      assert Pow2(MAX_FORK_DEPTH - depth) == 2 * Pow2(MAX_FORK_DEPTH - (depth + 1));
    }
  }

  function Pow2(n: nat): (r: nat)
    ensures r >= 1
  {
    if n == 0 then 1 else 2 * Pow2(n - 1)
  }

  /** The threaded quick sort read sequentially. When it forks, the counter is raised
      first, the calling thread sorts `[p+1, high]`, the forked one `[low, p-1]`, and the
      counter is lowered after the join. Returns the number of forks made. */
  method ParallelQuicksort(arr: array<u32>, low: nat, high: int, depth: nat, threads: ThreadCounter)
    returns (forks: nat)
    requires high < arr.Length
    modifies arr, threads
    ensures SortsRange(old(arr[..]), arr[..], low, high)
    ensures threads.count == old(threads.count)
    ensures forks <= ForkBound(depth)
    ensures depth >= MAX_FORK_DEPTH || high - low <= MIN_SIZE ==> forks == 0
    decreases high - low
  {
    forks := 0;
    if low < high {
      var p := Partition(arr, low, high);
      var (l1, h1, l2, h2) := PivotSides(low, high, p);
      ghost var s, u := arr[..], arr[..];
      var shouldThread := ShouldThread(depth, low, high, threads.count);
      if shouldThread {
        threads.count := threads.count + 1;
        var right := ParallelQuicksort(arr, l2, h2, depth + 1, threads);
        u := arr[..];
        var left := ParallelQuicksort(arr, l1, h1, depth + 1, threads);
        threads.count := threads.count - 1;
        forks := 1 + left + right;
        SortAroundPivot(s, u, arr[..], low, p, high);
      } else {
        var left := ParallelQuicksort(arr, l1, h1, depth + 1, threads);
        u := arr[..];
        var right := ParallelQuicksort(arr, l2, h2, depth + 1, threads);
        forks := left + right;
        SortAroundPivot(s, u, arr[..], low, p, high);
      }
      PermutesTrans(old(arr[..]), s, arr[..], low, high);
    }
  }

  /** The range the threaded sort starts on as written: `[0, size-1]` with `size - 1` in
      `size_t`. */
  function StartRangeAsWritten(size: nat): (r: (nat, nat))
    requires size <= SIZE_MAX
    ensures r.0 == 0
    ensures 0 < size ==> r.1 == size - 1
    ensures size == 0 ==> r.1 == SIZE_MAX
  {
    (0, SizeSub(size, 1))
  }

  /** For an empty buffer the start range as written is `[0, SIZE_MAX]`, which passes the
      `low < high` test and sends the partition past the end of the buffer. */
  lemma EmptyStartOverruns(size: nat)
    requires size == 0
    ensures StartRangeAsWritten(size).0 < StartRangeAsWritten(size).1
    ensures StartRangeAsWritten(size).1 >= size
  {
  }

  /** Sorts `arr[0..size-1]` with the threaded quick sort from depth 0, taking `size - 1`
      as a signed bound, so an empty buffer is left alone. */
  method StartParallelQuicksort(arr: array<u32>, size: nat, threads: ThreadCounter)
    returns (forks: nat)
    requires size <= arr.Length
    modifies arr, threads
    ensures SortsRange(old(arr[..]), arr[..], 0, size - 1)
    ensures threads.count == old(threads.count)
    ensures forks <= 7
  {
    forks := ParallelQuicksort(arr, 0, size - 1, 0, threads);
    ForkBoundClosedForm(0);
  }

  /** The sortedness scan of quicksort.c: the first index `i >= 1` of `arr[0..size-1]` with
      `arr[i] < arr[i-1]`, or `None` when the prefix is in order. */
  method VerifySorted(arr: array<u32>, size: nat) returns (r: Option<nat>)
    requires size <= arr.Length
    ensures r.None? <==> SortedRange(arr[..], 0, size - 1)
    ensures r.Some? ==> 1 <= r.value < size && arr[r.value] < arr[r.value - 1]
    ensures r.Some? ==> SortedRange(arr[..], 0, r.value - 1)
  {
    var i := 1;
    while i < size
      invariant 1 <= i
      invariant size == 0 || (i <= size && SortedRange(arr[..], 0, i - 1))
    {
      if arr[i] < arr[i - 1] {
        return Some(i);
      }
      i := i + 1;
    }
    return None;
  }
}
