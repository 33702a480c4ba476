/** What the pivot-at-`low` partition (sorting.c and quicksort.c) promises, its two scan
    loops, which both files share word for word, and why sorting the two sides of the
    placed pivot sorts the whole range. */
module LowPivot {
  import opened SortSpec

  /** `t` is `s` after a partition of `s[low..high]` around the pivot `s[low]` that
      left the pivot at index `p`: everything before it is at most the pivot, everything
      after it is strictly greater, and the range was only rearranged. */
  ghost predicate PivotPlaced(s: seq<u32>, t: seq<u32>, low: int, high: int, p: int)
    requires 0 <= low <= high < |s|
  {
    && low <= p <= high
    && Permutes(s, t, low, high)
    && t[p] == s[low]
    && (forall k :: low <= k < p ==> t[k] <= t[p])
    && (forall k :: p < k <= high ==> t[p] < t[k])
  }

  /** `k` lies in the inclusive range `[a, b]`. */
  predicate InRange(k: int, a: int, b: int) {
    a <= k <= b
  }

  /** The sub-ranges a driver recurses on once the pivot sits at `p`:
      `[low, p-1]` and `[p+1, high]`, taken as signed bounds. */
  function PivotSides(low: nat, high: nat, p: nat): (r: (int, int, int, int))
    requires low <= p <= high
    ensures r.0 == low && r.3 == high
    ensures r.1 - r.0 < high - low && r.3 - r.2 < high - low
    ensures forall k :: InRange(k, low, high) <==>
              (InRange(k, r.0, r.1) && k != p && !InRange(k, r.2, r.3))
              || (k == p && !InRange(k, r.0, r.1) && !InRange(k, r.2, r.3))
              || (InRange(k, r.2, r.3) && k != p && !InRange(k, r.0, r.1))
  {
    (low, p - 1, p + 1, high)
  }

  /** The upward scan: from `i0`, moves past every element that is at most `v`. It
      stops at the first greater element at or after `i0`, or at `high + 1`. */
  method ScanUp(arr: array<u32>, i0: nat, high: nat, v: u32) returns (i: nat)
    requires i0 <= high + 1 && high < arr.Length
    ensures i0 <= i <= high + 1
    ensures forall k :: i0 <= k < i ==> arr[k] <= v
    ensures i <= high ==> v < arr[i]
  {
    i := i0;
    while i <= high && arr[i] <= v
      invariant i0 <= i <= high + 1
      invariant forall k :: i0 <= k < i ==> arr[k] <= v
    {
      i := i + 1;
    }
  }

  /** The downward scan: from `j0`, moves past every element greater than `v`. Because
      `arr[low]` is at most `v` it stops at or above `low`, on an element at most `v`. */
  method ScanDown(arr: array<u32>, low: nat, j0: nat, v: u32) returns (j: nat)
    requires low <= j0 < arr.Length && arr[low] <= v
    ensures low <= j <= j0 && arr[j] <= v
    ensures forall k :: j < k <= j0 ==> v < arr[k]
  {
    j := j0;
    while j >= low && arr[j] > v
      invariant low <= j <= j0
      invariant forall k :: j < k <= j0 ==> v < arr[k]
    {
      j := j - 1;
    }
  }

  /** Sorting `[low, p-1]` keeps it below a pivot that bounds it from above, so the
      range `[low, p]` is then sorted too. */
  lemma SortBelowPivot(s: seq<u32>, u: seq<u32>, low: int, p: int, high: int)
    requires 0 <= low <= p <= high < |s|
    requires forall k :: low <= k < p ==> s[k] <= s[p]
    requires SortsRange(s, u, low, p - 1)
    ensures SortsRange(s, u, low, p)
  {
    PermutesWiden(s, u, low, p - 1, low, p);
    PermutesKeepsBounds(s, u, low, p - 1, 0, s[p]);
  }

  /** Sorting `[p+1, high]` keeps it above a pivot that bounds it from below, so the
      range `[p, high]` is then sorted too. */
  lemma SortAbovePivot(s: seq<u32>, u: seq<u32>, low: int, p: int, high: int)
    requires 0 <= low <= p <= high < |s|
    requires forall k :: p < k <= high ==> s[p] <= s[k]
    requires SortsRange(s, u, p + 1, high)
    ensures SortsRange(s, u, p, high)
  {
    PermutesWiden(s, u, p + 1, high, p, high);
    PermutesKeepsBounds(s, u, p + 1, high, s[p], 0xFFFF_FFFF);
  }

  /** Quicksort's step for a placed pivot: sorting the two sides in place, in either
      order, sorts the whole range. */
  lemma SortAroundPivot(s: seq<u32>, u: seq<u32>, t: seq<u32>, low: int, p: int, high: int)
    requires 0 <= low <= p <= high < |s|
    requires forall k :: low <= k < p ==> s[k] <= s[p]
    requires forall k :: p < k <= high ==> s[p] <= s[k]
    requires (SortsRange(s, u, low, p - 1) && SortsRange(u, t, p + 1, high))
             || (SortsRange(s, u, p + 1, high) && SortsRange(u, t, low, p - 1))
    ensures SortsRange(s, t, low, high)
  {
    if SortsRange(s, u, low, p - 1) && SortsRange(u, t, p + 1, high) {
      SortLeftThenRight(s, u, t, low, p, high);
    } else {
      SortRightThenLeft(s, u, t, low, p, high);
    }
  }

  lemma SortLeftThenRight(s: seq<u32>, u: seq<u32>, t: seq<u32>, low: int, p: int, high: int)
    requires 0 <= low <= p <= high < |s|
    requires forall k :: low <= k < p ==> s[k] <= s[p]
    requires forall k :: p < k <= high ==> s[p] <= s[k]
    requires SortsRange(s, u, low, p - 1) && SortsRange(u, t, p + 1, high)
    ensures SortsRange(s, t, low, high)
  {
    assert SplitBy(s, low, p, high, s[p]);
    SortBelowPivot(s, u, low, p, high);
    SortSidesOfSplit(s, u, t, low, p, high, s[p], low, p, p + 1, high);
  }

  lemma SortRightThenLeft(s: seq<u32>, u: seq<u32>, t: seq<u32>, low: int, p: int, high: int)
    requires 0 <= low <= p <= high < |s|
    requires forall k :: low <= k < p ==> s[k] <= s[p]
    requires forall k :: p < k <= high ==> s[p] <= s[k]
    requires SortsRange(s, u, p + 1, high) && SortsRange(u, t, low, p - 1)
    ensures SortsRange(s, t, low, high)
  {
    assert SplitBy(s, low, p, high, s[p]);
    PermuteWithinSide(s, u, low, p, high, s[p], p + 1, high);
    assert u[p] == s[p];
    SortBelowPivot(u, t, low, p, high);
    SortSidesOfSplit(s, u, t, low, p, high, s[p], p + 1, high, low, p);
  }

  /** The loop invariant of both partitions: `a0[low..high]` has been rearranged into
      `s`, the pivot `v` still sits at `low`, everything before `i` is at most `v`,
      everything after `j` is greater, and the cell at `i`, if not past `j`, is at most `v`. */
  ghost predicate Scanning(a0: seq<u32>, s: seq<u32>, low: int, high: int, i: int, j: int, v: u32)
    requires 0 <= low <= high < |a0|
  {
    && low <= i <= high + 1 && low <= j <= high && i <= j + 1
    && Permutes(a0, s, low, high)
    && s[low] == v
    && (forall k :: low <= k < i ==> s[k] <= v)
    && (forall k :: j < k <= high ==> v < s[k])
    && (i <= j ==> s[i] <= v)
  }

  /** One round of the partition loop, both scans then the swap if `i2 < j2`, keeps the
      invariant and closes the gap between `i` and `j`. */
  lemma ScanRound(a0: seq<u32>, s: seq<u32>, t: seq<u32>, low: int, high: int, i: int, j: int,
                  i2: int, j2: int, v: u32)
    requires 0 <= low <= high < |a0|
    requires Scanning(a0, s, low, high, i, j, v) && i <= j
    requires i <= i2 <= high + 1 && (forall k :: i <= k < i2 ==> s[k] <= v) && (i2 <= high ==> v < s[i2])
    requires low <= j2 <= j && s[j2] <= v && (forall k :: j2 < k <= j ==> v < s[k])
    requires t == if i2 < j2 then s[i2 := s[j2]][j2 := s[i2]] else s
    ensures Scanning(a0, t, low, high, i2, j2, v)
    ensures j2 + 1 - i2 < j + 1 - i
  {
    assert i < i2;
    ghost var next := if j2 < high then s[j2 + 1] else v;
    assert i2 <= j2 + 1;
    if i2 < j2 {
      assert low < i2;
      SwapPermutes(s, low, high, i2, j2);
      PermutesTrans(a0, s, t, low, high);
    }
  }

  /** The final swap of both partitions: once the scans have met, exchanging the pivot at
      `low` with the last small element `s[j]` places the pivot at `j`. */
  lemma PlacePivot(a0: seq<u32>, s: seq<u32>, t: seq<u32>, low: int, high: int, i: int, j: int)
    requires 0 <= low <= high < |a0|
    requires Scanning(a0, s, low, high, i, j, a0[low]) && j <= i
    requires t == s[low := s[j]][j := s[low]]
    ensures PivotPlaced(a0, t, low, high, j)
  {
    SwapPermutes(s, low, high, low, j);
    PermutesTrans(a0, s, t, low, high);
  }

  /** The left call's bounds as sorting.c and quicksort.c compute them, with `p - 1` in `size_t`. */
  function LeftCallAsWritten(low: nat, p: nat): (r: (nat, nat))
    requires p <= SIZE_MAX
    ensures r.0 == low
    ensures 0 < p ==> r.1 == p - 1
    ensures p == 0 ==> r.1 == SIZE_MAX
  {
    (low, SizeSub(p, 1))
  }

  /** On `[1, 2]` the pivot `1` is the smaller element, so every partition result puts it
      at index 0, and the left call as written asks to sort `[0, SIZE_MAX]`, far past the
      end of a two-element buffer. */
  lemma SortedPairLeftCallOverruns(t: seq<u32>, p: nat)
    requires PivotPlaced([1, 2], t, 0, 1, p)
    ensures p == 0
    ensures LeftCallAsWritten(0, p) == (0, SIZE_MAX)
  {
    assert t[0..2] == [t[0], t[1]];
    assert [1 as u32, 2][0..2] == [1, 2];
    assert multiset([t[0], t[1]]) == multiset{1, 2};
  }
}
