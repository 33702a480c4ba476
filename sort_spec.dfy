/** Vocabulary shared by every sorting kernel: the 32-bit element type, `size_t`
    wrap-around, and what it means for a call to sort an inclusive index range
    `[lo, hi]` of a buffer in place. */
module SortSpec {

  /** `uint32_t`, the element type of every buffer. */
  newtype u32 = x: int | 0 <= x < 0x1_0000_0000

  /** `SIZE_MAX` of the 64-bit `size_t` the kernels use for indices. */
  const SIZE_MAX: int := 0xFFFF_FFFF_FFFF_FFFF

  /** `a - b` evaluated in `size_t`. */
  function SizeSub(a: nat, b: nat): (r: nat)
    requires a <= SIZE_MAX && b <= SIZE_MAX
    ensures r <= SIZE_MAX
    ensures b <= a ==> r == a - b
    ensures a < b ==> r == SIZE_MAX + 1 - (b - a)
  {
    (a - b) % (SIZE_MAX + 1)
  }

  datatype Option<T> = None | Some(value: T)

  /** The median-of-three pivot expression of quicksort_serial.c and test.c: the median
      of `v0`, `v1` and `v2`. */
  function Median3(v0: u32, v1: u32, v2: u32): (v: u32)
    ensures v == v0 || v == v1 || v == v2
    ensures (v0 <= v && v1 <= v) || (v0 <= v && v2 <= v) || (v1 <= v && v2 <= v)
    ensures (v <= v0 && v <= v1) || (v <= v0 && v <= v2) || (v <= v1 && v <= v2)
  {
    if v0 < v1 then
      (if v1 < v2 then v1 else if v0 < v2 then v2 else v0)
    else
      (if v0 < v2 then v0 else if v1 < v2 then v2 else v1)
  }

  /** `xs` is non-decreasing. */
  ghost predicate Sorted(xs: seq<u32>) {
    forall i, j :: 0 <= i < j < |xs| ==> xs[i] <= xs[j]
  }

  /** `s[lo..hi]` (inclusive) is non-decreasing; an empty range (`lo > hi`) is sorted. */
  ghost predicate SortedRange(s: seq<u32>, lo: int, hi: int)
    requires 0 <= lo && hi < |s|
  {
    forall x, y :: lo <= x < y <= hi ==> s[x] <= s[y]
  }

  /** Every neighbouring pair of `s[lo..hi]` is in order: what the sortedness scans look at. */
  ghost predicate AdjacentSorted(s: seq<u32>, lo: int, hi: int)
    requires 0 <= lo && hi < |s|
  {
    forall i :: lo <= i < hi ==> s[i] <= s[i + 1]
  }

  /** `t` is `s` with `s[lo..hi]` rearranged and nothing outside that range changed. */
  ghost predicate Permutes(s: seq<u32>, t: seq<u32>, lo: int, hi: int)
    requires 0 <= lo && hi < |s|
  {
    && |t| == |s|
    && (forall k :: 0 <= k < |s| && !(lo <= k <= hi) ==> t[k] == s[k])
    && (lo <= hi ==> multiset(t[lo..hi + 1]) == multiset(s[lo..hi + 1]))
  }

  /** `t` sorts `s[lo..hi]` in place: the range is a sorted permutation of its old contents
      and everything else is unchanged. */
  ghost predicate SortsRange(s: seq<u32>, t: seq<u32>, lo: int, hi: int)
    requires 0 <= lo && hi < |s|
  {
    Permutes(s, t, lo, hi) && SortedRange(t, lo, hi)
  }

  /** Partitioned around `v` at `m`: `s[lo..m]` is at most `v`, `s[m+1..hi]` at least `v`. */
  ghost predicate SplitBy(s: seq<u32>, lo: int, m: int, hi: int, v: u32)
    requires 0 <= lo && hi < |s|
  {
    && (forall k :: lo <= k <= m && k <= hi ==> s[k] <= v)
    && (forall k :: m < k <= hi && lo <= k ==> v <= s[k])
  }

  /** Checking neighbours is enough: adjacent order on a range is full sortedness. */
  lemma {:induction false} AdjacentSortedIsSorted(s: seq<u32>, lo: int, hi: int)
    requires 0 <= lo && hi < |s|
    ensures AdjacentSorted(s, lo, hi) <==> SortedRange(s, lo, hi)
  {
    if AdjacentSorted(s, lo, hi) && lo < hi {
      AdjacentSortedIsSorted(s, lo, hi - 1);
      assert SortedRange(s, lo, hi - 1);
      forall x, y | lo <= x < y <= hi ensures s[x] <= s[y] {
        if y < hi {
        } else if x < hi - 1 {
          assert s[x] <= s[hi - 1];
        }
      }
    }
  }

  /** Range sortedness is sortedness of the slice. */
  lemma SortedRangeIsSortedSlice(s: seq<u32>, lo: int, hi: int)
    requires 0 <= lo <= hi + 1 && hi < |s|
    ensures SortedRange(s, lo, hi) <==> Sorted(s[lo..hi + 1])
  {
    var t := s[lo..hi + 1];
    if SortedRange(s, lo, hi) {
      forall i, j | 0 <= i < j < |t| ensures t[i] <= t[j] {
        assert t[i] == s[lo + i] && t[j] == s[lo + j];
      }
    }
    if Sorted(t) {
      forall x, y | lo <= x < y <= hi ensures s[x] <= s[y] {
        assert t[x - lo] == s[x] && t[y - lo] == s[y];
      }
    }
  }

  lemma PermutesRefl(s: seq<u32>, lo: int, hi: int)
    requires 0 <= lo && hi < |s|
    ensures Permutes(s, s, lo, hi)
  {
  }

  lemma PermutesTrans(s: seq<u32>, t: seq<u32>, u: seq<u32>, lo: int, hi: int)
    requires 0 <= lo && hi < |s|
    requires Permutes(s, t, lo, hi) && Permutes(t, u, lo, hi)
    ensures Permutes(s, u, lo, hi)
  {
  }

  /** Rearranging a sub-range rearranges every range that contains it. */
  lemma PermutesWiden(s: seq<u32>, t: seq<u32>, a: int, b: int, lo: int, hi: int)
    requires 0 <= lo <= a && b <= hi < |s|
    requires Permutes(s, t, a, b)
    ensures Permutes(s, t, lo, hi)
  {
    if a > b {
      assert t == s;
    } else if lo <= hi {
      assert s[lo..hi + 1] == s[lo..a] + s[a..b + 1] + s[b + 1..hi + 1];
      assert t[lo..hi + 1] == t[lo..a] + t[a..b + 1] + t[b + 1..hi + 1];
      assert t[lo..a] == s[lo..a];
      assert t[b + 1..hi + 1] == s[b + 1..hi + 1];
    }
  }

  /** Exchanges `a[x]` and `a[y]`: the swap through a temporary that every partition
      performs. */
  method Swap(a: array<u32>, x: nat, y: nat)
    requires x < a.Length && y < a.Length
    modifies a
    ensures a[..] == old(a[..])[x := old(a[y])][y := old(a[x])]
  {
    a[x], a[y] := a[y], a[x];
  }

  /** Exchanging two cells of a range rearranges that range. */
  lemma SwapPermutes(s: seq<u32>, lo: int, hi: int, x: int, y: int)
    requires 0 <= lo <= x <= hi < |s| && lo <= y <= hi
    ensures Permutes(s, s[x := s[y]][y := s[x]], lo, hi)
  {
    SwapMultiset(s, lo, hi, x, y);
  }

  lemma SwapMultiset(s: seq<u32>, lo: int, hi: int, x: int, y: int)
    requires 0 <= lo <= x <= hi < |s| && lo <= y <= hi
    ensures multiset(s[x := s[y]][y := s[x]][lo..hi + 1]) == multiset(s[lo..hi + 1])
  {
    var t := s[x := s[y]][y := s[x]];
    var r, r2 := s[lo..hi + 1], t[lo..hi + 1];
    if x == y {
      assert r2 == r;
    } else {
      var a, b := if x < y then x - lo else y - lo, if x < y then y - lo else x - lo;
      var w := r[a := r[b]][b := r[a]];
      forall k | 0 <= k < |r| ensures r2[k] == w[k] {
        assert r2[k] == t[lo + k] && r[k] == s[lo + k];
      }
      assert r2 == w;
      MultisetSwap(r, a, b);
    }
  }

  lemma MultisetSwap(r: seq<u32>, a: int, b: int)
    requires 0 <= a < b < |r|
    ensures multiset(r[a := r[b]][b := r[a]]) == multiset(r)
  {
    var w := r[a := r[b]][b := r[a]];
    var p1, p2, p3 := r[..a], r[a + 1..b], r[b + 1..];
    assert r == p1 + [r[a]] + p2 + [r[b]] + p3;
    assert w == p1 + [r[b]] + p2 + [r[a]] + p3;
    calc {
      multiset(w);
      multiset(p1) + multiset{r[b]} + multiset(p2) + multiset{r[a]} + multiset(p3);
      multiset(p1) + multiset{r[a]} + multiset(p2) + multiset{r[b]} + multiset(p3);
      multiset(r);
    }
  }

  lemma MultisetCancel(a: multiset<u32>, x: multiset<u32>, y: multiset<u32>, b: multiset<u32>)
    requires a + x + b == a + y + b
    ensures x == y
  {
    forall e ensures x[e] == y[e] {
      assert (a + x + b)[e] == (a + y + b)[e];
    }
  }

  /** A range permutation keeps every element of the range inside the range. */
  lemma PermutesKeepsMembers(s: seq<u32>, t: seq<u32>, lo: int, hi: int, k: int)
    requires 0 <= lo <= k <= hi < |s|
    requires Permutes(s, t, lo, hi)
    ensures exists k' :: lo <= k' <= hi && s[k'] == t[k]
  {
    assert t[lo..hi + 1][k - lo] == t[k];
    assert t[k] in multiset(s[lo..hi + 1]);
    var i :| 0 <= i < hi + 1 - lo && s[lo..hi + 1][i] == t[k];
    assert s[lo + i] == t[k];
  }

  /** Bounds on a range survive rearranging it. */
  lemma PermutesKeepsBounds(s: seq<u32>, t: seq<u32>, lo: int, hi: int, low: u32, high: u32)
    requires 0 <= lo && hi < |s|
    requires Permutes(s, t, lo, hi)
    requires forall k :: lo <= k <= hi ==> low <= s[k] <= high
    ensures forall k :: lo <= k <= hi ==> low <= t[k] <= high
  {
    forall k | lo <= k <= hi ensures low <= t[k] <= high {
      PermutesKeepsMembers(s, t, lo, hi, k);
    }
  }

  /** Rearranging a range that lies within one side of a split keeps the split. */
  lemma PermuteWithinSide(s: seq<u32>, t: seq<u32>, lo: int, m: int, hi: int, v: u32, a: int, b: int)
    requires 0 <= lo && hi < |s| && lo <= a && b <= hi
    requires (b <= m) || (m < a)
    requires SplitBy(s, lo, m, hi, v)
    requires Permutes(s, t, a, b)
    ensures SplitBy(t, lo, m, hi, v)
  {
    if a <= b {
      if b <= m {
        PermutesKeepsBounds(s, t, a, b, 0, v);
      } else {
        PermutesKeepsBounds(s, t, a, b, v, 0xFFFF_FFFF);
      }
    }
  }

  /** Two sorted sides of a split make a sorted range. */
  lemma SortedFromSplit(t: seq<u32>, lo: int, m: int, hi: int, v: u32)
    requires 0 <= lo <= m + 1 && m <= hi < |t|
    requires SplitBy(t, lo, m, hi, v)
    requires SortedRange(t, lo, m) && SortedRange(t, m + 1, hi)
    ensures SortedRange(t, lo, hi)
  {
  }

  /** Quicksort's step: a range split around a pivot value, with each side then sorted in
      place (in either order), ends up sorted and rearranged. */
  lemma {:induction false} SortSidesOfSplit(s: seq<u32>, u: seq<u32>, t: seq<u32>,
                                            lo: int, m: int, hi: int, v: u32,
                                            a1: int, b1: int, a2: int, b2: int)
    requires 0 <= lo <= m + 1 && m <= hi < |s|
    requires SplitBy(s, lo, m, hi, v)
    requires (a1, b1, a2, b2) == (lo, m, m + 1, hi) || (a1, b1, a2, b2) == (m + 1, hi, lo, m)
    requires SortsRange(s, u, a1, b1) && SortsRange(u, t, a2, b2)
    ensures SortsRange(s, t, lo, hi)
  {
    PermuteWithinSide(s, u, lo, m, hi, v, a1, b1);
    PermuteWithinSide(u, t, lo, m, hi, v, a2, b2);
    PermutesWiden(s, u, a1, b1, lo, hi);
    PermutesWiden(u, t, a2, b2, lo, hi);
    PermutesTrans(s, u, t, lo, hi);
    assert SortedRange(t, a1, b1);
    SortedFromSplit(t, lo, m, hi, v);
  }

  /** Two sorted sequences with the same elements are the same sequence. */
  lemma {:induction false} SortedSeqUnique(xs: seq<u32>, ys: seq<u32>)
    requires Sorted(xs) && Sorted(ys) && multiset(xs) == multiset(ys)
    ensures xs == ys
  {
    if xs != [] {
      assert |ys| == |xs| by {
        assert |multiset(ys)| == |multiset(xs)|;
      }
      assert xs[0] in multiset(ys);
      assert ys[0] in multiset(xs);
      assert xs[0] == ys[0];
      assert xs == [xs[0]] + xs[1..];
      assert ys == [ys[0]] + ys[1..];
      assert multiset(xs) == multiset{xs[0]} + multiset(xs[1..]);
      assert multiset(ys) == multiset{ys[0]} + multiset(ys[1..]);
      MultisetCancel(multiset{xs[0]}, multiset(xs[1..]), multiset(ys[1..]), multiset{});
      SortedSeqUnique(xs[1..], ys[1..]);
    }
  }

  /** There is only one sorted rearrangement of a range: any two kernels that sort
      `s[lo..hi]` in place leave the same buffer behind. */
  lemma SortsRangeUnique(s: seq<u32>, t1: seq<u32>, t2: seq<u32>, lo: int, hi: int)
    requires 0 <= lo && hi < |s|
    requires SortsRange(s, t1, lo, hi) && SortsRange(s, t2, lo, hi)
    ensures t1 == t2
  {
    if lo <= hi {
      SortedSeqUnique(t1[lo..hi + 1], t2[lo..hi + 1]);
      assert t1 == t1[..lo] + t1[lo..hi + 1] + t1[hi + 1..];
      assert t2 == t2[..lo] + t2[lo..hi + 1] + t2[hi + 1..];
      assert t1[..lo] == t2[..lo];
      assert t1[hi + 1..] == t2[hi + 1..];
    } else {
      assert t1 == s == t2;
    }
  }

  /** A sorted range is already its own sorted rearrangement. */
  lemma SortedRangeSortsItself(s: seq<u32>, lo: int, hi: int)
    requires 0 <= lo && hi < |s|
    requires SortedRange(s, lo, hi)
    ensures SortsRange(s, s, lo, hi)
  {
  }
}
