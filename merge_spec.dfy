/** The two-way merge that every `merge` kernel performs, stated on values: repeatedly
    emit the smaller head of the two runs, the left run's head on a tie, then the rest of
    whichever run is left over. */
module MergeSpec {
  import opened SortSpec

  /** The run a merge of `xs` (left) and `ys` (right) writes out. */
  function Merge(xs: seq<u32>, ys: seq<u32>): (r: seq<u32>)
    ensures |r| == |xs| + |ys|
    decreases |xs| + |ys|
  {
    if xs == [] then ys
    else if ys == [] then xs
    else if xs[0] <= ys[0] then [xs[0]] + Merge(xs[1..], ys)
    else [ys[0]] + Merge(xs, ys[1..])
  }

  /** Which run each element of `Merge(xs, ys)` was taken from. */
  datatype Run = Left | Right

  function MergeSources(xs: seq<u32>, ys: seq<u32>): (r: seq<Run>)
    ensures |r| == |xs| + |ys|
    decreases |xs| + |ys|
  {
    if xs == [] then seq(|ys|, _ => Right)
    else if ys == [] then seq(|xs|, _ => Left)
    else if xs[0] <= ys[0] then [Left] + MergeSources(xs[1..], ys)
    else [Right] + MergeSources(xs, ys[1..])
  }

  /** Every element of both runs is emitted exactly once. */
  lemma {:induction false} MergePermutes(xs: seq<u32>, ys: seq<u32>)
    ensures |Merge(xs, ys)| == |xs| + |ys|
    ensures multiset(Merge(xs, ys)) == multiset(xs) + multiset(ys)
    decreases |xs| + |ys|
  {
    if xs == [] || ys == [] {
    } else if xs[0] <= ys[0] {
      MergePermutes(xs[1..], ys);
      assert xs == [xs[0]] + xs[1..];
    } else {
      MergePermutes(xs, ys[1..]);
      assert ys == [ys[0]] + ys[1..];
    }
  }

  /** Lower bounds on both runs bound the merged run. */
  lemma MergeBounded(xs: seq<u32>, ys: seq<u32>, b: u32)
    requires forall k :: 0 <= k < |xs| ==> b <= xs[k]
    requires forall k :: 0 <= k < |ys| ==> b <= ys[k]
    ensures forall k :: 0 <= k < |Merge(xs, ys)| ==> b <= Merge(xs, ys)[k]
  {
    MergePermutes(xs, ys);
    forall k | 0 <= k < |Merge(xs, ys)| ensures b <= Merge(xs, ys)[k] {
      var m := Merge(xs, ys);
      assert m[k] in multiset(m);
      assert m[k] in multiset(xs) || m[k] in multiset(ys);
    }
  }

  /** Merging two sorted runs gives a sorted run. */
  lemma {:induction false} MergeSorted(xs: seq<u32>, ys: seq<u32>)
    requires Sorted(xs) && Sorted(ys)
    ensures Sorted(Merge(xs, ys))
    decreases |xs| + |ys|
  {
    if xs == [] || ys == [] {
    } else if xs[0] <= ys[0] {
      MergeSorted(xs[1..], ys);
      MergeBounded(xs[1..], ys, xs[0]);
    } else {
      MergeSorted(xs, ys[1..]);
      MergeBounded(xs, ys[1..], ys[0]);
    }
  }

  /** Merging a range that is already sorted, split anywhere, gives it back unchanged. */
  lemma {:induction false} MergeOfSortedIsConcat(xs: seq<u32>, ys: seq<u32>)
    requires Sorted(xs + ys)
    ensures Merge(xs, ys) == xs + ys
    decreases |xs|
  {
    if xs != [] && ys != [] {
      assert (xs + ys)[0] == xs[0] && (xs + ys)[|xs|] == ys[0];
      assert xs[1..] + ys == (xs + ys)[1..];
      MergeOfSortedIsConcat(xs[1..], ys);
      assert xs == [xs[0]] + xs[1..];
    }
  }

  /** One step of a merge loop that has consumed `xs[..i]` and `ys[..j]`: the next element
      written is the smaller head, and what remains is the merge of what is left. */
  lemma MergeAdvance(xs: seq<u32>, ys: seq<u32>, merged: seq<u32>, n: nat,
                     i: nat, j: nat, n2: nat, i2: nat, j2: nat)
    requires i < |xs| && j < |ys| && n <= |merged|
    requires merged[n..] == Merge(xs[i..], ys[j..])
    requires (xs[i] <= ys[j] && i2 == i + 1 && j2 == j) || (ys[j] < xs[i] && i2 == i && j2 == j + 1)
    requires n2 == n + 1
    ensures n < |merged|
    ensures merged[n] == if xs[i] <= ys[j] then xs[i] else ys[j]
    ensures n2 <= |merged| && merged[n2..] == Merge(xs[i2..], ys[j2..])
  {
    var m := merged[n..];
    var rest := Merge(xs[i2..], ys[j2..]);
    assert xs[i..][0] == xs[i] && xs[i..][1..] == xs[i + 1..];
    assert ys[j..][0] == ys[j] && ys[j..][1..] == ys[j + 1..];
    assert m == [m[0]] + rest;
    assert m[1..] == rest;
    assert merged[n2..] == m[1..];
  }

  /** The state of a merge loop that has consumed `xs[..i]` and `ys[..j]` and writes the
      merge of `xs` and `ys` to `out` from index `base` on (`out0` is `out` before the
      loop): the first `i + j` elements of the merge are in place, the rest of the merge is
      the merge of what is left, and nothing else has been written. */
  ghost predicate HeadsWritten(out: seq<u32>, out0: seq<u32>, xs: seq<u32>, ys: seq<u32>,
                               base: nat, i: nat, j: nat)
  {
    && |out| == |out0| && i <= |xs| && j <= |ys| && base + |xs| + |ys| <= |out|
    && (forall t :: base <= t < base + i + j ==> out[t] == Merge(xs, ys)[t - base])
    && Merge(xs, ys)[i + j..] == Merge(xs[i..], ys[j..])
    && (forall t :: 0 <= t < |out| && !(base <= t < base + i + j) ==> out[t] == out0[t])
  }

  /** Writing the smaller head (the one of `xs` on a tie) at the next index keeps
      `HeadsWritten`, one element further on. */
  lemma HeadsAdvance(out: seq<u32>, out0: seq<u32>, xs: seq<u32>, ys: seq<u32>, base: nat,
                     i: nat, j: nat, out2: seq<u32>, i2: nat, j2: nat)
    requires HeadsWritten(out, out0, xs, ys, base, i, j) && i < |xs| && j < |ys|
    requires (xs[i] <= ys[j] && i2 == i + 1 && j2 == j) || (ys[j] < xs[i] && i2 == i && j2 == j + 1)
    requires |out2| == |out| && out2[base + i + j] == (if xs[i] <= ys[j] then xs[i] else ys[j])
    requires forall t :: 0 <= t < |out| && t != base + i + j ==> out2[t] == out[t]
    ensures HeadsWritten(out2, out0, xs, ys, base, i2, j2)
  {
    var merged := Merge(xs, ys);
    MergeAdvance(xs, ys, merged, i + j, i, j, i2 + j2, i2, j2);
    forall t | base <= t < base + i2 + j2 ensures out2[t] == merged[t - base] {
      if t < base + i + j {
        assert out2[t] == out[t];
      }
    }
    forall t | 0 <= t < |out2| && !(base <= t < base + i2 + j2) ensures out2[t] == out0[t] {
      assert out2[t] == out[t];
    }
  }

  /** The two tail loops of a merge: once `HeadsWritten` holds with one run used up,
      copying the rest of `xs` (giving `mid1`) and then the rest of `ys` (giving `out`)
      behind the heads completes the merge, and still nothing outside it is written. */
  lemma TailsWritten(heads: seq<u32>, mid1: seq<u32>, out: seq<u32>, out0: seq<u32>,
                     xs: seq<u32>, ys: seq<u32>, base: nat, i: nat, j: nat, k: nat, k2: nat, k3: nat)
    requires HeadsWritten(heads, out0, xs, ys, base, i, j) && (i == |xs| || j == |ys|)
    requires k == base + i + j && k2 == k + (|xs| - i) && k3 == k2 + (|ys| - j)
    requires |mid1| == |heads| && |out| == |heads|
    requires forall t :: k <= t < k2 ==> mid1[t] == xs[i..][t - k]
    requires forall t :: 0 <= t < |heads| && !(k <= t < k2) ==> mid1[t] == heads[t]
    requires forall t :: k2 <= t < k3 ==> out[t] == ys[j..][t - k2]
    requires forall t :: 0 <= t < |heads| && !(k2 <= t < k3) ==> out[t] == mid1[t]
    ensures base <= k3 <= |out| && out[base..k3] == Merge(xs, ys)
    ensures forall t :: 0 <= t < |out| && !(base <= t < k3) ==> out[t] == out0[t]
  {
    var merged := Merge(xs, ys);
    var n := i + j;
    assert merged[n..] == xs[i..] + ys[j..] by {
      if i == |xs| {
        assert xs[i..] == [];
      } else {
        assert ys[j..] == [];
      }
    }
    TailsPlaced(heads, mid1, out, merged, xs[i..], ys[j..], base, n, k, k2, k3);
    forall t | 0 <= t < |out| && !(base <= t < k3) ensures out[t] == out0[t] {
      assert out[t] == mid1[t] == heads[t];
    }
  }

  /** The index arithmetic of `TailsWritten`: `out` holds `merged` at `base` when it holds
      its first elements up to `k` there, followed by `rx` up to `k2` and then `ry` up to
      `k3`, and `merged` continues after those first elements with `rx + ry`. */
  lemma TailsPlaced(heads: seq<u32>, mid1: seq<u32>, out: seq<u32>, merged: seq<u32>,
                    rx: seq<u32>, ry: seq<u32>, base: nat, n: nat, k: nat, k2: nat, k3: nat)
    requires k == base + n && k2 == k + |rx| && k3 == k2 + |ry| && k3 == base + |merged|
    requires merged[n..] == rx + ry
    requires k3 <= |heads| == |mid1| == |out|
    requires forall t :: base <= t < k ==> heads[t] == merged[t - base]
    requires forall t :: k <= t < k2 ==> mid1[t] == rx[t - k]
    requires forall t :: 0 <= t < |heads| && !(k <= t < k2) ==> mid1[t] == heads[t]
    requires forall t :: k2 <= t < k3 ==> out[t] == ry[t - k2]
    requires forall t :: 0 <= t < |heads| && !(k2 <= t < k3) ==> out[t] == mid1[t]
    ensures out[base..k3] == merged
  {
    forall t | base <= t < k3 ensures out[t] == merged[t - base] {
      if t >= k {
        assert merged[t - base] == merged[n..][t - k];
      }
    }
  }

  /** Writing the merge of the two runs of `[left, right]` over that range permutes it, and
      sorts it when both runs were sorted. */
  lemma MergedRangePermutes(a: seq<u32>, b: seq<u32>, left: nat, mid: nat, right: nat, end: nat)
    requires left <= mid <= right < |a| == |b| && end == right + 1
    requires b[left..end] == Merge(a[left..mid + 1], a[mid + 1..end])
    requires forall t :: 0 <= t < |a| && !(left <= t < end) ==> b[t] == a[t]
    ensures Permutes(a, b, left, right)
    ensures (SortedRange(a, left, mid) && SortedRange(a, mid + 1, right)) ==> SortedRange(b, left, right)
  {
    var xs, ys := a[left..mid + 1], a[mid + 1..right + 1];
    MergedRangeMultiset(xs, ys, a[left..right + 1], b[left..right + 1]);
    if SortedRange(a, left, mid) && SortedRange(a, mid + 1, right) {
      SortedRangeIsSortedSlice(a, left, mid);
      SortedRangeIsSortedSlice(a, mid + 1, right);
      MergeSorted(xs, ys);
      SortedRangeIsSortedSlice(b, left, right);
    }
  }

  lemma MergedRangeMultiset(xs: seq<u32>, ys: seq<u32>, whole: seq<u32>, out: seq<u32>)
    requires whole == xs + ys && out == Merge(xs, ys)
    ensures multiset(out) == multiset(whole)
  {
    MergePermutes(xs, ys);
  }


  /** Elements reported as coming from the left run are left-run values. */
  lemma {:induction false} MergeSourcesLeftIn(xs: seq<u32>, ys: seq<u32>, q: int)
    requires 0 <= q < |xs| + |ys|
    ensures MergeSources(xs, ys)[q] == Left ==> Merge(xs, ys)[q] in xs
    decreases |xs| + |ys|
  {
    if xs == [] || ys == [] {
    } else if q > 0 {
      if xs[0] <= ys[0] {
        MergeShift(xs, ys, q);
        MergeSourcesLeftIn(xs[1..], ys, q - 1);
      } else {
        MergeShift(xs, ys, q);
        MergeSourcesLeftIn(xs, ys[1..], q - 1);
      }
    }
  }

  /** Past the first element, the merge and its sources continue with the merge of what is
      left once the smaller head is taken. */
  lemma MergeShift(xs: seq<u32>, ys: seq<u32>, p: int)
    requires xs != [] && ys != [] && 0 < p < |xs| + |ys|
    ensures xs[0] <= ys[0] ==> Merge(xs, ys)[p] == Merge(xs[1..], ys)[p - 1]
    ensures xs[0] <= ys[0] ==> MergeSources(xs, ys)[p] == MergeSources(xs[1..], ys)[p - 1]
    ensures ys[0] < xs[0] ==> Merge(xs, ys)[p] == Merge(xs, ys[1..])[p - 1]
    ensures ys[0] < xs[0] ==> MergeSources(xs, ys)[p] == MergeSources(xs, ys[1..])[p - 1]
  {
  }

  /** The merge is stable: among equal keys, no right-run element is emitted before a
      left-run one. */
  lemma {:induction false} MergeStable(xs: seq<u32>, ys: seq<u32>, p: int, q: int)
    requires Sorted(xs) && Sorted(ys)
    requires 0 <= p < q < |xs| + |ys|
    requires Merge(xs, ys)[p] == Merge(xs, ys)[q]
    requires MergeSources(xs, ys)[q] == Left
    ensures MergeSources(xs, ys)[p] == Left
    decreases |xs| + |ys|
  {
    if xs == [] {
    } else if ys == [] {
    } else if xs[0] <= ys[0] {
      if p > 0 {
        MergeShift(xs, ys, p);
        MergeShift(xs, ys, q);
        MergeStable(xs[1..], ys, p - 1, q - 1);
      }
    } else {
      MergeShift(xs, ys, q);
      MergeSourcesLeftIn(xs, ys[1..], q - 1);
      if p > 0 {
        MergeShift(xs, ys, p);
        MergeStable(xs, ys[1..], p - 1, q - 1);
      } else {
        assert false;
      }
    }
  }

  /** Midpoint of `[left, right]` as the recursive sorts and the thread body compute it. */
  function Midpoint(left: nat, right: nat): (mid: nat)
    requires left <= right
    ensures left <= mid <= right
    ensures left < right ==> mid < right
    ensures mid - left == right - mid || mid - left + 1 == right - mid
  {
    left + (right - left) / 2
  }

  /** After both halves of `[left, right]` have been sorted independently, the range is a
      permutation of what it was and each half is sorted. */
  lemma SortedHalves(s0: seq<u32>, s1: seq<u32>, s2: seq<u32>, left: nat, mid: nat, right: nat)
    requires left <= mid <= right < |s0|
    requires SortsRange(s0, s1, left, mid) && SortsRange(s1, s2, mid + 1, right)
    ensures Permutes(s0, s2, left, right)
    ensures SortedRange(s2, left, mid) && SortedRange(s2, mid + 1, right)
  {
    PermutesWiden(s0, s1, left, mid, left, right);
    PermutesWiden(s1, s2, mid + 1, right, left, right);
    PermutesTrans(s0, s1, s2, left, right);
    forall x, y | left <= x < y <= mid ensures s2[x] <= s2[y] {
      assert s2[x] == s1[x] && s2[y] == s1[y];
    }
  }
}
