/** The quicksort of test.c: a partition around the median of the first, upper-middle
    and last elements that stores the pivot value where its two scans meet, the serial
    driver that recurses on the smaller side and loops on the larger one, the two
    threaded drivers read sequentially, and the strict sortedness check. */
module MedianQuickSort {
  import opened SortSpec
  import opened LowPivot

  /** The pivot of `s[i..j]`: the median of `s[i]`, `s[(i+j+1)/2]` and `s[j]`. */
  function Pivot(s: seq<u32>, i: int, j: int): (v: u32)
    requires 0 <= i <= j < |s|
    ensures v == s[i] || v == s[(i + j + 1) / 2] || v == s[j]
    ensures (s[i] <= v && s[(i + j + 1) / 2] <= v) || (s[i] <= v && s[j] <= v) || (s[(i + j + 1) / 2] <= v && s[j] <= v)
    ensures (v <= s[i] && v <= s[(i + j + 1) / 2]) || (v <= s[i] && v <= s[j]) || (v <= s[(i + j + 1) / 2] && v <= s[j])
  {
    Median3(s[i], s[(i + j + 1) / 2], s[j])
  }

  /** A cell of `s[i..j]` that holds the pivot: the sampled cell its value came from. */
  function PivotCell(s: seq<u32>, i: int, j: int): (c: int)
    requires 0 <= i <= j < |s|
    ensures i <= c <= j && s[c] == Pivot(s, i, j)
  {
    if Pivot(s, i, j) == s[i] then i
    else if Pivot(s, i, j) == s[(i + j + 1) / 2] then (i + j + 1) / 2
    else j
  }

  /** Where the upward scan `a[i] < v && ++i < j` stops: at the first cell from `i` on
      that is at least `v`, or at `j`. */
  ghost function ScanUp(s: seq<u32>, i: int, j: int, v: u32): (r: int)
    requires 0 <= i < j < |s|
    ensures i <= r <= j
    ensures forall k :: i <= k < r ==> s[k] < v
    ensures r < j ==> v <= s[r]
    decreases j - i
  {
    if s[i] < v then (if i + 1 < j then ScanUp(s, i + 1, j, v) else i + 1) else i
  }

  /** Where the downward scan `v < a[j] && i < --j` stops: at the last cell up to `j`
      that is at most `v`, or at `i`; started with `i == j` on a cell above `v`, it
      stops at `i - 1`. */
  ghost function ScanDown(s: seq<u32>, i: int, j: int, v: u32): (r: int)
    requires 0 <= i <= j < |s|
    ensures i - 1 <= r <= j
    ensures forall k :: r < k <= j ==> v < s[k]
    ensures (r == j || i < r) ==> s[r] <= v
    decreases j - i
  {
    if v < s[j] then (if i < j - 1 then ScanDown(s, i, j - 1, v) else j - 1) else j
  }

  /** One pass of the partition loop as written: the upward scan, the downward scan, and
      the swap of the two cells they stopped at. `pv` is a cell of `[i, j]` holding `v`;
      neither scan gets past it, so both stop inside `[i, j]`. */
  ghost function RoundAsWritten(s: seq<u32>, i: int, j: int, v: u32, pv: int): (r: (seq<u32>, int, int))
    requires 0 <= i < j < |s| && i <= pv <= j && s[pv] == v
    ensures i <= r.1 <= pv <= r.2 <= j
  {
    var i2 := ScanUp(s, i, j, v);
    var j2 := ScanDown(s, i2, j, v);
    (s[i2 := s[j2]][j2 := s[i2]], i2, j2)
  }

  /** Neither scan can move from `(i, j)`: `s[i]` is at least `v` and `s[j]` at most `v`. */
  predicate Stalled(s: seq<u32>, i: int, j: int, v: u32)
    requires 0 <= i <= j < |s|
  {
    v <= s[i] && s[j] <= v
  }

  /** One pass of the corrected loop: the pass as written and then, when the swap has left
      equal values (both `v`) at `i2 < j2`, a step of `i` past the left one. Also returns a
      cell of the new `[i, j]` that holds `v`. Every pass either narrows `[i, j]` or starts
      stalled and ends not stalled. */
  ghost function Round(s: seq<u32>, i: int, j: int, v: u32, pv: int): (r: (seq<u32>, int, int, int))
    requires 0 <= i < j < |s| && i <= pv <= j && s[pv] == v
    ensures i <= r.1 <= r.3 <= r.2 <= j && |r.0| == |s| && r.0[r.3] == v
    ensures r.2 - r.1 < j - i || (r.1 == i && r.2 == j && Stalled(s, i, j, v) && !Stalled(r.0, i, j, v))
  {
    var (t, i2, j2) := RoundAsWritten(s, i, j, v, pv);
    if i2 < j2 && t[i2] == t[j2] then (t, i2 + 1, j2, j2)
    else (t, i2, j2, if pv == i2 then j2 else if pv == j2 then i2 else pv)
  }

  /** The corrected partition loop from the state `(s, i, j)`, followed by the store
      `a[i] = v`: the final array and the split index `j`. */
  ghost function PartitionLoop(s: seq<u32>, i: int, j: int, v: u32, pv: int): (r: (seq<u32>, int))
    requires 0 <= i <= pv <= j < |s| && s[pv] == v
    ensures |r.0| == |s| && i <= r.1 <= j
    decreases j - i, if Stalled(s, i, j, v) then 1 else 0, 1
  {
    if i < j then PassThenLoop(s, i, j, v, pv) else (s[i := v], j)
  }

  /** The loop entered with `i < j`: one corrected pass, then the loop from the state it
      leaves. */
  ghost function PassThenLoop(s: seq<u32>, i: int, j: int, v: u32, pv: int): (r: (seq<u32>, int))
    requires 0 <= i < j < |s| && i <= pv <= j && s[pv] == v
    ensures |r.0| == |s| && i <= r.1 <= j
    decreases j - i, if Stalled(s, i, j, v) then 1 else 0, 0
  {
    var (t, i2, j2, pv2) := Round(s, i, j, v, pv);
    PartitionLoop(t, i2, j2, v, pv2)
  }

  /** What the corrected partition of `s[lo..hi]` leaves behind, and the index it returns. */
  ghost function PartitionResult(s: seq<u32>, lo: int, hi: int): (r: (seq<u32>, int))
    requires 0 <= lo <= hi < |s|
    ensures |r.0| == |s| && lo <= r.1 <= hi
  {
    PartitionLoop(s, lo, hi, Pivot(s, lo, hi), PivotCell(s, lo, hi))
  }

  /** The invariant of the partition loop on `[lo, hi]`: `s0[lo..hi]` has been rearranged
      into `s`, everything before `i` is at most `v` and everything after `j` at least `v`. */
  ghost predicate Partitioning(s0: seq<u32>, s: seq<u32>, lo: int, hi: int, i: int, j: int, v: u32)
    requires 0 <= lo <= hi < |s0|
  {
    && lo <= i <= j <= hi
    && Permutes(s0, s, lo, hi)
    && (forall k :: lo <= k < i ==> s[k] <= v)
    && (forall k :: j < k <= hi ==> v <= s[k])
  }

  /** A corrected pass keeps the loop invariant. */
  lemma RoundKeeps(s0: seq<u32>, s: seq<u32>, lo: int, hi: int, i: int, j: int, v: u32, pv: int)
    requires 0 <= lo <= hi < |s0|
    requires Partitioning(s0, s, lo, hi, i, j, v) && i < j && i <= pv <= j && s[pv] == v
    ensures Partitioning(s0, Round(s, i, j, v, pv).0, lo, hi, Round(s, i, j, v, pv).1, Round(s, i, j, v, pv).2, v)
  {
    var (t, i2, j2) := RoundAsWritten(s, i, j, v, pv);
    assert t == s[i2 := s[j2]][j2 := s[i2]];
    SwapPermutes(s, i, j, i2, j2);
    PermutesWiden(s, t, i, j, lo, hi);
    PermutesTrans(s0, s, t, lo, hi);
  }

  /** When the corrected loop ends, `i` and `j` have met on a cell holding `v`, so the
      store `a[i] = v` changes nothing: the range is only rearranged, and it is split around
      the pivot at the returned index. */
  lemma {:induction false} PartitionLoopSplits(s0: seq<u32>, s: seq<u32>, lo: int, hi: int,
                                               i: int, j: int, v: u32, pv: int)
    requires 0 <= lo <= hi < |s0|
    requires Partitioning(s0, s, lo, hi, i, j, v) && i <= pv <= j && s[pv] == v
    ensures Permutes(s0, PartitionLoop(s, i, j, v, pv).0, lo, hi)
    ensures PartitionLoop(s, i, j, v, pv).0[PartitionLoop(s, i, j, v, pv).1] == v
    ensures SplitBy(PartitionLoop(s, i, j, v, pv).0, lo, PartitionLoop(s, i, j, v, pv).1, hi, v)
    decreases j - i, if Stalled(s, i, j, v) then 1 else 0
  {
    if i < j {
      var (t, i2, j2, pv2) := Round(s, i, j, v, pv);
      RoundKeeps(s0, s, lo, hi, i, j, v, pv);
      PartitionLoopSplits(s0, t, lo, hi, i2, j2, v, pv2);
    } else {
      assert s[i := v] == s;
    }
  }

  /** `t` is `s` after a partition of `s[lo..hi]` that stored the median-of-three pivot at
      `p`: everything before it is at most the pivot, everything after it at least the
      pivot, and the range was only rearranged. */
  ghost predicate PivotStored(s: seq<u32>, t: seq<u32>, lo: int, hi: int, p: int)
    requires 0 <= lo <= hi < |s|
  {
    && lo <= p <= hi
    && Permutes(s, t, lo, hi)
    && t[p] == Pivot(s, lo, hi)
    && SplitBy(t, lo, p, hi, t[p])
  }

  /** The corrected partition stores the pivot at the index it returns. */
  lemma PartitionStoresPivot(s: seq<u32>, lo: int, hi: int)
    requires 0 <= lo <= hi < |s|
    ensures PivotStored(s, PartitionResult(s, lo, hi).0, lo, hi, PartitionResult(s, lo, hi).1)
  {
    PermutesRefl(s, lo, hi);
    PartitionLoopSplits(s, s, lo, hi, lo, hi, Pivot(s, lo, hi), PivotCell(s, lo, hi));
  }

  /** On `[1, 5, 5]` the pivot is 5. The first pass as written stops on the two 5s and
      swaps them; from then on every pass does the same and leaves the state as it found
      it, so the loop as written never ends. The corrected pass steps past the left 5. */
  lemma EqualPivotCellsRepeat()
    ensures Pivot([1, 5, 5], 0, 2) == 5 && PivotCell([1, 5, 5], 0, 2) == 1
    ensures RoundAsWritten([1, 5, 5], 0, 2, 5, 1) == ([1, 5, 5], 1, 2)
    ensures RoundAsWritten([1, 5, 5], 1, 2, 5, 1) == ([1, 5, 5], 1, 2)
    ensures Round([1, 5, 5], 1, 2, 5, 1) == ([1, 5, 5], 2, 2, 2)
  {
    var s: seq<u32> := [1, 5, 5];
    assert ScanUp(s, 0, 2, 5) == 1;
    assert ScanUp(s, 1, 2, 5) == 1;
    assert ScanDown(s, 1, 2, 5) == 2;
    assert s[1 := s[2]][2 := s[1]] == s;
  }

  /** The upward scan on `a`: returns where `ScanUp` stops. The cell `pv` holding `v`
      keeps it at or below `pv`. */
  method MoveUp(a: array<u32>, i0: int, j: int, v: u32, ghost pv: int) returns (i: int)
    requires 0 <= i0 <= pv <= j < a.Length && i0 < j && a[pv] == v
    ensures i == ScanUp(a[..], i0, j, v) && i <= pv
  {
    i := i0;
    while a[i] < v
      invariant i0 <= i <= pv && i < j && ScanUp(a[..], i0, j, v) == ScanUp(a[..], i, j, v)
      decreases j - i
    {
      i := i + 1;
      if i >= j {
        break;
      }
    }
  }

  /** The downward scan on `a`: returns where `ScanDown` stops. The cell `pv` holding
      `v` keeps it at or above `pv`, so it never steps below `i`. */
  method MoveDown(a: array<u32>, i: int, j0: int, v: u32, ghost pv: int) returns (j: int)
    requires 0 <= i <= pv <= j0 < a.Length && a[pv] == v
    ensures j == ScanDown(a[..], i, j0, v) && pv <= j
  {
    j := j0;
    while v < a[j]
      invariant pv <= j <= j0 && ScanDown(a[..], i, j0, v) == ScanDown(a[..], i, j, v)
      decreases j - i
    {
      j := j - 1;
      if j <= i {
        break;
      }
    }
  }

  /** The state a corrected pass leaves, built from the two scan results, the swap and the
      step past an equal pair, is `Round`'s: it still holds `v` at the returned cell `pv2`,
      it narrows `[i, j]` or ends a stall, and the loop goes on from there. */
  lemma PassIsRound(s: seq<u32>, i: int, j: int, v: u32, pv: int, i1: int, j1: int, t: seq<u32>, i2: int)
    returns (pv2: int)
    requires 0 <= i < j < |s| && i <= pv <= j && s[pv] == v
    requires i1 == ScanUp(s, i, j, v) && j1 == ScanDown(s, i1, j, v)
    requires 0 <= i1 <= j1 && t == s[i1 := s[j1]][j1 := s[i1]]
    requires i2 == if i1 < j1 && t[i1] == t[j1] then i1 + 1 else i1
    ensures Round(s, i, j, v, pv) == (t, i2, j1, pv2)
    ensures i <= i2 <= pv2 <= j1 <= j && t[pv2] == v
    ensures j1 - i2 < j - i || (i2 == i && j1 == j && Stalled(s, i, j, v) && !Stalled(t, i, j, v))
    ensures PartitionLoop(s, i, j, v, pv) == PartitionLoop(t, i2, j1, v, pv2)
  {
    pv2 := Round(s, i, j, v, pv).3;
  }

  /** One pass of the corrected partition loop on `a`: the upward scan, the downward scan,
      the swap, and the step past an equal pair. It keeps a cell holding `v` inside the
      new `[i, j]`, narrows `[i, j]` or ends a stall, and leaves the loop with the result
      it would have had from the old state. */
  method PartitionPass(a: array<u32>, i0: int, j0: int, v: u32, ghost pv0: int)
    returns (i: int, j: int, ghost pv: int)
    requires 0 <= i0 < j0 < a.Length && i0 <= pv0 <= j0 && a[pv0] == v
    modifies a
    ensures i0 <= i <= pv <= j <= j0 && a[pv] == v
    ensures j - i < j0 - i0 || (i == i0 && j == j0 && Stalled(old(a[..]), i0, j0, v) && !Stalled(a[..], i0, j0, v))
    ensures PartitionLoop(old(a[..]), i0, j0, v, pv0) == PartitionLoop(a[..], i, j, v, pv)
  {
    ghost var s := a[..];
    i := MoveUp(a, i0, j0, v, pv0);
    j := MoveDown(a, i, j0, v, pv0);
    ghost var i1 := i;
    Swap(a, i, j);
    if i < j && a[i] == a[j] {
      i := i + 1;
    }
    pv := PassIsRound(s, i0, j0, v, pv0, i1, j, a[..], i);
  }

  /** Partitions `a[lo..hi]` around the median-of-three pivot and returns the index where
      the pivot is stored. The loop is the corrected one: after a swap that leaves the
      pivot value on both sides, `i` steps past the left one. */
  method Partition(a: array<u32>, lo: nat, hi: nat) returns (p: nat)
    requires lo <= hi < a.Length
    modifies a
    ensures (a[..], p as int) == PartitionResult(old(a[..]), lo, hi)
  {
    ghost var a0 := a[..];
    var v0, v1, v2 := a[lo], a[(lo + hi + 1) / 2], a[hi];
    var v := Median3(v0, v1, v2);
    var i: int, j: int := lo, hi;
    ghost var pv := PivotCell(a0, lo, hi);
    ghost var pv0 := pv;
    while i < j
      invariant lo <= i <= pv <= j <= hi && a[pv] == v
      invariant PartitionLoop(a[..], i, j, v, pv) == PartitionLoop(a0, lo, hi, v, pv0)
      decreases j - i, if Stalled(a[..], i, j, v) then 1 else 0
    {
      i, j, pv := PartitionPass(a, i, j, v, pv);
    }
    a[i] := v;
    p := j;
  }

  /** The state of the driver's loop on `[lo0, hi0]`: `a0[lo0..hi0]` has been rearranged
      into `s`, and every pair of cells with the left one before `lo` or the right one
      after `hi` is in order, so only the middle `[lo, hi]` is left to sort. */
  ghost predicate TailSorted(a0: seq<u32>, s: seq<u32>, lo0: int, hi0: int, lo: int, hi: int)
    requires 0 <= lo0 && hi0 < |a0|
  {
    && lo0 <= lo && hi <= hi0
    && Permutes(a0, s, lo0, hi0)
    && (forall x, y :: lo0 <= x < y <= hi0 && (x < lo || hi < y) ==> s[x] <= s[y])
  }

  lemma TailStart(a0: seq<u32>, lo0: int, hi0: int)
    requires 0 <= lo0 && hi0 < |a0|
    ensures TailSorted(a0, a0, lo0, hi0, lo0, hi0)
  {
    PermutesRefl(a0, lo0, hi0);
  }

  /** Once `[lo, hi]` holds at most one cell, the whole range is sorted. */
  lemma TailDone(a0: seq<u32>, s: seq<u32>, lo0: int, hi0: int, lo: int, hi: int)
    requires 0 <= lo0 && hi0 < |a0|
    requires TailSorted(a0, s, lo0, hi0, lo, hi) && hi <= lo
    ensures SortsRange(a0, s, lo0, hi0)
  {
  }

  /** A loop pass that sorts the left side `[lo, j-1]` of the stored pivot and moves `lo`
      to `j + 1` keeps the loop state. */
  lemma TailLeft(a0: seq<u32>, s: seq<u32>, s1: seq<u32>, s2: seq<u32>,
                 lo0: int, hi0: int, lo: int, hi: int, j: int)
    requires 0 <= lo0 && hi0 < |a0|
    requires TailSorted(a0, s, lo0, hi0, lo, hi) && lo <= hi
    requires PivotStored(s, s1, lo, hi, j)
    requires SortsRange(s1, s2, lo, j - 1)
    ensures TailSorted(a0, s2, lo0, hi0, j + 1, hi)
  {
    SortBelowPivot(s1, s2, lo, j, hi);
    PermutesWiden(s1, s2, lo, j, lo, hi);
    PermutesTrans(s, s1, s2, lo, hi);
    PermutesWiden(s, s2, lo, hi, lo0, hi0);
    PermutesTrans(a0, s, s2, lo0, hi0);
    forall x, y | lo0 <= x < y <= hi0 && (x < j + 1 || hi < y)
      ensures s2[x] <= s2[y]
    {
      if x < lo && lo <= y <= hi {
        PermutesKeepsMembers(s, s2, lo, hi, y);
      } else if lo <= x <= hi && hi < y {
        PermutesKeepsMembers(s, s2, lo, hi, x);
      } else if lo <= x && y <= hi && j < y {
        assert s2[x] <= s2[j];
      }
    }
  }

  /** A loop pass that sorts the right side `[j+1, hi]` of the stored pivot and moves `hi`
      to `j - 1` keeps the loop state. */
  lemma TailRight(a0: seq<u32>, s: seq<u32>, s1: seq<u32>, s2: seq<u32>,
                  lo0: int, hi0: int, lo: int, hi: int, j: int)
    requires 0 <= lo0 && hi0 < |a0|
    requires TailSorted(a0, s, lo0, hi0, lo, hi) && lo <= hi
    requires PivotStored(s, s1, lo, hi, j)
    requires SortsRange(s1, s2, j + 1, hi)
    ensures TailSorted(a0, s2, lo0, hi0, lo, j - 1)
  {
    SortAbovePivot(s1, s2, lo, j, hi);
    PermutesWiden(s1, s2, j, hi, lo, hi);
    PermutesTrans(s, s1, s2, lo, hi);
    PermutesWiden(s, s2, lo, hi, lo0, hi0);
    PermutesTrans(a0, s, s2, lo0, hi0);
    forall x, y | lo0 <= x < y <= hi0 && (x < lo || j - 1 < y)
      ensures s2[x] <= s2[y]
    {
      if x < lo && lo <= y <= hi {
        PermutesKeepsMembers(s, s2, lo, hi, y);
      } else if lo <= x <= hi && hi < y {
        PermutesKeepsMembers(s, s2, lo, hi, x);
      } else if lo <= x < j && y <= hi {
        assert s2[x] <= s2[j];
      }
    }
  }

  /** The serial quick sort: partitions `[lo, hi]`, sorts the smaller side by a recursive
      call and loops on the larger one. The bounds `j - 1` are signed, so a pivot stored
      at index 0 gives an empty left side. */
  method QuickSort(a: array<u32>, lo0: nat, hi0: int)
    requires hi0 < a.Length
    modifies a
    ensures SortsRange(old(a[..]), a[..], lo0, hi0)
    decreases hi0 - lo0, 1
  {
    ghost var a0 := a[..];
    var lo: int, hi: int := lo0, hi0;
    TailStart(a0, lo0, hi0);
    while lo < hi
      invariant TailSorted(a0, a[..], lo0, hi0, lo, hi)
      decreases hi - lo
    {
      lo, hi := SortSmallerSide(a, lo, hi, a0, lo0, hi0);
    }
    TailDone(a0, a[..], lo0, hi0, lo, hi);
  }

  /** The loop body the drivers share: partitions `[lo, hi]`, sorts the smaller side by a
      call to `QuickSort` and returns the larger side as the new `[lo, hi]`. */
  method SortSmallerSide(a: array<u32>, lo: nat, hi: nat, ghost a0: seq<u32>, ghost lo0: int, ghost hi0: int)
    returns (lo2: int, hi2: int)
    requires lo < hi < a.Length && 0 <= lo0 && hi0 < |a0|
    requires TailSorted(a0, a[..], lo0, hi0, lo, hi)
    modifies a
    ensures TailSorted(a0, a[..], lo0, hi0, lo2, hi2)
    ensures hi2 - lo2 < hi - lo
    decreases hi - lo, 0
  {
    ghost var s := a[..];
    var j := Partition(a, lo, hi);
    ghost var s1 := a[..];
    PartitionStoresPivot(s, lo, hi);
    if j - lo < hi - j {
      QuickSort(a, lo, j - 1);
      TailLeft(a0, s, s1, a[..], lo0, hi0, lo, hi, j);
      lo2, hi2 := j + 1, hi;
    } else {
      QuickSort(a, j + 1, hi);
      TailRight(a0, s, s1, a[..], lo0, hi0, lo, hi, j);
      lo2, hi2 := lo, j - 1;
    }
  }

  /** On `[5, 0]` the pivot is 0 and the partition stores it at index 0. The left side is
      then the smaller one, and `quick_sort(a, lo, j - 1)` as written asks to sort
      `[0, SIZE_MAX]` of a two-element buffer. */
  lemma ZeroSplitLeftCallOverruns()
    ensures PartitionResult([5, 0], 0, 1) == ([0, 5], 0)
    ensures 0 - 0 < 1 - 0 && LeftCallAsWritten(0, PartitionResult([5, 0], 0, 1).1) == (0, SIZE_MAX)
  {
    var s: seq<u32> := [5, 0];
    var t: seq<u32> := [0, 5];
    assert Pivot(s, 0, 1) == 0 && PivotCell(s, 0, 1) == 1;
    assert ScanUp(s, 0, 1, 0) == 0 && ScanDown(s, 0, 1, 0) == 1;
    assert s[0 := s[1]][1 := s[0]] == t;
    assert Round(s, 0, 1, 0, 1) == (t, 0, 1, 0);
    assert ScanUp(t, 0, 1, 0) == 0 && ScanDown(t, 0, 1, 0) == 0;
    assert t[0 := t[0]][0 := t[0]] == t;
    assert Round(t, 0, 1, 0, 0) == (t, 0, 0, 0);
    assert t[0 := 0] == t;
  }

  /** What `parallel_quick_sort` as written leaves in `t`: one partition, the smaller side
      sorted by the forked thread, and then the `return` after the join, so the larger side
      stays as the partition left it. */
  ghost predicate SmallerSideSorted(s: seq<u32>, t: seq<u32>, lo: int, hi: int)
    requires 0 <= lo <= hi < |s|
  {
    var r := PartitionResult(s, lo, hi);
    if r.1 - lo < hi - r.1 then SortsRange(r.0, t, lo, r.1 - 1) else SortsRange(r.0, t, r.1 + 1, hi)
  }

  /** After the partition, sorting its smaller side leaves `s[lo..hi]` rearranged and
      that side sorted. */
  lemma ForkedSideSorted(s: seq<u32>, s1: seq<u32>, t: seq<u32>, lo: int, hi: int, j: int)
    requires 0 <= lo <= hi < |s|
    requires (s1, j) == PartitionResult(s, lo, hi)
    requires if j - lo < hi - j then SortsRange(s1, t, lo, j - 1) else SortsRange(s1, t, j + 1, hi)
    ensures Permutes(s, t, lo, hi)
    ensures SmallerSideSorted(s, t, lo, hi)
  {
    PartitionStoresPivot(s, lo, hi);
    SideSortedPermutes(s, s1, t, lo, hi, j);
  }

  /** Rearranging `s[lo..hi]` into `s1` and then sorting one side of `j` in place
      rearranges `s[lo..hi]`. */
  lemma SideSortedPermutes(s: seq<u32>, s1: seq<u32>, t: seq<u32>, lo: int, hi: int, j: int)
    requires 0 <= lo <= j <= hi < |s| && Permutes(s, s1, lo, hi)
    requires if j - lo < hi - j then SortsRange(s1, t, lo, j - 1) else SortsRange(s1, t, j + 1, hi)
    ensures Permutes(s, t, lo, hi)
  {
    if j - lo < hi - j {
      PermutesWiden(s1, t, lo, j - 1, lo, hi);
    } else {
      PermutesWiden(s1, t, j + 1, hi, lo, hi);
    }
    PermutesTrans(s, s1, t, lo, hi);
  }

  /** The forking step of both threaded drivers: one partition of `[lo, hi]`, then the
      smaller side sorted by the forked thread, read as a call to `QuickSort`. The bound
      `j - 1` of a left side is taken signed, so a split at 0 gives an empty side here
      where the C code wraps it to `SIZE_MAX`. */
  method ForkSmallerSide(a: array<u32>, lo: nat, hi: nat)
    requires lo < hi < a.Length
    modifies a
    ensures Permutes(old(a[..]), a[..], lo, hi)
    ensures SmallerSideSorted(old(a[..]), a[..], lo, hi)
  {
    var j := Partition(a, lo, hi);
    ghost var s1 := a[..];
    if j - lo < hi - j {
      QuickSort(a, lo, j - 1);
    } else {
      QuickSort(a, j + 1, hi);
    }
    ForkedSideSorted(old(a[..]), s1, a[..], lo, hi, j);
  }

  /** `parallel_quick_sort` as written, with the forked `quick_sort` read as a call. Its
      `while (lo < hi)` body ends in `return`, so the loop runs at most once, written here
      as an `if`: one partition, and only the smaller side sorted. */
  method ParallelQuickSortAsWritten(a: array<u32>, lo0: nat, hi0: int)
    requires hi0 < a.Length
    modifies a
    ensures Permutes(old(a[..]), a[..], lo0, hi0)
    ensures lo0 < hi0 ==> SmallerSideSorted(old(a[..]), a[..], lo0, hi0)
  {
    if lo0 < hi0 {
      ForkSmallerSide(a, lo0, hi0);
    } else {
      PermutesRefl(a[..], lo0, hi0);
    }
  }

  /** On `[0, 2, 3, 1]` the partition stores the pivot 1 at index 1 and leaves
      `[0, 1, 3, 2]`; the smaller side `[0, 0]` is sorted and the function returns with
      the larger side `[3, 2]` out of order. */
  lemma EarlyReturnLeavesLargerSide(t: seq<u32>)
    requires SmallerSideSorted([0, 2, 3, 1], t, 0, 3)
    ensures t == [0, 1, 3, 2]
    ensures !SortedRange(t, 0, 3)
  {
    var s: seq<u32> := [0, 2, 3, 1];
    var s1: seq<u32> := [0, 1, 3, 2];
    assert Pivot(s, 0, 3) == 1 && PivotCell(s, 0, 3) == 3;
    assert ScanUp(s, 1, 3, 1) == 1 && ScanUp(s, 0, 3, 1) == 1;
    assert ScanDown(s, 1, 3, 1) == 3;
    assert s[1 := s[3]][3 := s[1]] == s1;
    assert Round(s, 0, 3, 1, 3) == (s1, 1, 3, 1);
    assert ScanUp(s1, 1, 3, 1) == 1;
    assert ScanDown(s1, 1, 2, 1) == 1 && ScanDown(s1, 1, 3, 1) == 1;
    assert s1[1 := s1[1]][1 := s1[1]] == s1;
    assert Round(s1, 1, 3, 1, 1) == (s1, 1, 1, 1);
    assert s1[1 := 1] == s1;
    assert PartitionResult(s, 0, 3) == (s1, 1);
    assert t[0..1] == [t[0]];
    assert s1[0..1] == [0];
    assert multiset([t[0]]) == multiset{0};
    assert t == s1;
    assert t[2] > t[3];
  }

  /** `optimized_parallel_quick_sort` as written, with the forked `quick_sort` read as a
      call. A range with `hi - lo` above 1000 has its smaller side sorted by the forked
      thread and then the function returns; a narrower one has the same side sorted by a
      call and the loop goes on, as in `QuickSort`. The ranges only shrink, so only the
      first pass can fork. The model takes the fork test before the partition, which
      does not change `lo` or `hi`. */
  method OptimizedParallelQuickSortAsWritten(a: array<u32>, lo0: nat, hi0: int)
    requires hi0 < a.Length
    modifies a
    ensures Permutes(old(a[..]), a[..], lo0, hi0)
    ensures hi0 - lo0 <= 1000 ==> SortsRange(old(a[..]), a[..], lo0, hi0)
    ensures hi0 - lo0 > 1000 ==> SmallerSideSorted(old(a[..]), a[..], lo0, hi0)
  {
    ghost var a0 := a[..];
    var lo: int, hi: int := lo0, hi0;
    TailStart(a0, lo0, hi0);
    while lo < hi
      invariant TailSorted(a0, a[..], lo0, hi0, lo, hi)
      invariant hi - lo <= hi0 - lo0
      invariant hi0 - lo0 > 1000 ==> lo == lo0 && hi == hi0 && a[..] == a0
      decreases hi - lo
    {
      if hi - lo > 1000 {
        ForkSmallerSide(a, lo, hi);
        return;
      }
      lo, hi := SortSmallerSide(a, lo, hi, a0, lo0, hi0);
    }
    TailDone(a0, a[..], lo0, hi0, lo, hi);
  }

  /** Every neighbouring pair of `s[lo..hi]` is strictly increasing. */
  ghost predicate StrictlyAscending(s: seq<u32>, lo: int, hi: int)
    requires 0 <= lo && hi < |s|
  {
    forall i :: lo <= i < hi ==> s[i] < s[i + 1]
  }

  /** The check of test.c as written: 1 when every neighbouring pair of `arr[0..size-1]`
      is strictly increasing, 0 as soon as one pair is equal or descending. */
  method IsSortedAsWritten(arr: array<u32>, size: nat) returns (r: int)
    requires size <= arr.Length
    ensures r == 0 || r == 1
    ensures r == 1 <==> StrictlyAscending(arr[..], 0, size - 1)
  {
    var i := 0;
    while i + 1 < size
      invariant i <= size || size == 0
      invariant forall k :: 0 <= k < i && k + 1 < size ==> arr[k] < arr[k + 1]
    {
      if arr[i] >= arr[i + 1] {
        return 0;
      }
      i := i + 1;
    }
    return 1;
  }

  /** A strictly ascending range is sorted, but a sorted range with two equal neighbours
      is not strictly ascending: the scan as written rejects `[1, 1]`. */
  lemma {:induction false} StrictCheckRejectsDuplicates(s: seq<u32>, lo: int, hi: int)
    requires 0 <= lo && hi < |s|
    ensures StrictlyAscending(s, lo, hi) ==> SortedRange(s, lo, hi)
    ensures SortedRange([1, 1], 0, 1) && !StrictlyAscending([1, 1], 0, 1)
  {
    AdjacentSortedIsSorted(s, lo, hi);
    assert [1 as u32, 1][0] == [1 as u32, 1][1];
  }
}
