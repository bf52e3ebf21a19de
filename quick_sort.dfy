/**
 * quick_sort of quick_sort.c on an array of elements: Lomuto partitioning
 * around the last element of the range, then recursion on both sides.
 * Every swap goes through a temporary buffer of elem_size bytes and silently
 * does nothing when that buffer cannot be allocated.  The oracle
 * swapOk(low, high, j) says whether the swap made while partitioning the
 * range [low, high] at loop position j succeeds (j = high for the final
 * swap that places the pivot); a range is partitioned at most once, so
 * this names every swap of a run.
 */
module QuickSort {
  import opened Common
  import opened SortSpec

  /** Every swap of the partition of [low, high] succeeds. */
  ghost predicate PartitionOk(swapOk: (nat, nat, nat) -> bool, low: nat, high: nat)
  {
    forall j :: low <= j <= high ==> swapOk(low, high, j)
  }

  /** Every swap of every partition of a range inside [low, high] succeeds. */
  ghost predicate SwapsOk(swapOk: (nat, nat, nat) -> bool, low: int, high: int)
  {
    forall l: nat, h: nat, j: nat :: low <= l <= j <= h <= high ==> swapOk(l, h, j)
  }

  /** The elements of s[lo..hi] all compare at most pv. */
  ghost predicate AtMost<T>(s: seq<T>, lo: int, hi: int, pv: T, cmp: (T, T) -> int)
  {
    forall q :: 0 <= lo <= q < hi <= |s| ==> cmp(s[q], pv) <= 0
  }

  /** The elements of s[lo..hi] all compare above pv. */
  ghost predicate Above<T>(s: seq<T>, lo: int, hi: int, pv: T, cmp: (T, T) -> int)
  {
    forall q :: 0 <= lo <= q < hi <= |s| ==> cmp(s[q], pv) > 0
  }

  /** swap: slots x and y exchange their elements; nothing happens when the temporary buffer cannot be allocated. */
  method Swap<T>(a: array<T>, x: nat, y: nat, allocOk: bool)
    requires x < a.Length && y < a.Length
    modifies a
    ensures a[..] == if allocOk then old(a[..])[x := old(a[y])][y := old(a[x])] else old(a[..])
  {
    if !allocOk {
      return;
    }
    var temp := a[x];
    a[x] := a[y];
    a[y] := temp;
  }

  /**
   * partition: the pivot is the element in slot high.  i starts one below
   * low (in C an unsigned wrap-around when low is 0, undone by the first
   * increment); each element of [low, high) comparing at most the pivot is
   * swapped to slot i + 1 after i moves up, and finally the pivot is
   * swapped into slot i + 1, which is returned.  Whatever swaps fail, the
   * range is rearranged and nothing outside it changes; when they all
   * succeed the pivot sits at p with nothing above it before it and only
   * elements above it after it.
   */
  method Partition<T(!new)>(a: array<T>, low: nat, high: nat, cmp: (T, T) -> int, swapOk: (nat, nat, nat) -> bool)
    returns (p: nat)
    requires low < high < a.Length
    modifies a
    ensures low <= p <= high
    ensures a[..low] == old(a[..low]) && a[high + 1..] == old(a[high + 1..])
    ensures multiset(a[low..high + 1]) == multiset(old(a[low..high + 1]))
    ensures PartitionOk(swapOk, low, high) ==>
              a[p] == old(a[high]) && AtMost(a[..], low, p, a[p], cmp) && Above(a[..], p + 1, high + 1, a[p], cmp)
  {
    ghost var s0 := a[..];
    var i := PartitionLoop(a, low, high, cmp, swapOk);
    ghost var s := a[..];
    assert PartitionOk(swapOk, low, high) ==> swapOk(low, high, high);
    Swap(a, i + 1, high, swapOk(low, high, high));
    PivotPlaced(s0, s, a[..], low, high, i, cmp, PartitionOk(swapOk, low, high), swapOk(low, high, high));
    p := i + 1;
  }

  /**
   * The final swap of partition, from the array s the loop left (s0 before
   * the loop): the range stays a rearrangement, and when every swap
   * succeeded the pivot lands in slot i + 1 between the two blocks.
   */
  lemma PivotPlaced<T>(s0: seq<T>, s: seq<T>, t: seq<T>, low: nat, high: nat, i: int, cmp: (T, T) -> int, ok: bool, done: bool)
    requires low - 1 <= i < high < |s0| == |s|
    requires forall q :: 0 <= q < low ==> s[q] == s0[q]
    requires forall q :: high <= q < |s| ==> s[q] == s0[q]
    requires multiset(s[low..high]) == multiset(s0[low..high])
    requires ok ==> done && AtMost(s, low, i + 1, s0[high], cmp) && Above(s, i + 1, high, s0[high], cmp)
    requires t == if done then s[i + 1 := s[high]][high := s[i + 1]] else s
    ensures t[..low] == s0[..low] && t[high + 1..] == s0[high + 1..]
    ensures multiset(t[low..high + 1]) == multiset(s0[low..high + 1])
    ensures ok ==> t[i + 1] == s0[high] && AtMost(t, low, i + 1, t[i + 1], cmp) && Above(t, i + 2, high + 1, t[i + 1], cmp)
  {
    PivotJoined(s0, s, low, high);
    SwapInside(s, t, i + 1, high, low, high + 1, done);
    if ok {
      PivotStep(s, t, low, i + 1, high, s0[high], cmp);
    }
    FramesOf(s0, t, low, high);
  }

  /**
   * The loop of partition over j in [low, high): i is the last slot of the
   * block comparing at most the pivot (one below low while that block is
   * empty); slots i + 1 .. j - 1 hold the elements above the pivot.
   */
  method PartitionLoop<T(!new)>(a: array<T>, low: nat, high: nat, cmp: (T, T) -> int, swapOk: (nat, nat, nat) -> bool)
    returns (i: int)
    requires low < high < a.Length
    modifies a
    ensures low - 1 <= i < high
    ensures forall q :: 0 <= q < low ==> a[q] == old(a[q])
    ensures forall q :: high <= q < a.Length ==> a[q] == old(a[q])
    ensures multiset(a[low..high]) == multiset(old(a[low..high]))
    ensures PartitionOk(swapOk, low, high) ==>
              AtMost(a[..], low, i + 1, old(a[high]), cmp) && Above(a[..], i + 1, high, old(a[high]), cmp)
  {
    ghost var s0 := a[..];
    ghost var ok := PartitionOk(swapOk, low, high);
    ghost var pv := a[high];
    i := low - 1;
    for j := low to high
      invariant low - 1 <= i < j
      invariant forall q :: 0 <= q < low ==> a[q] == s0[q]
      invariant forall q :: high <= q < a.Length ==> a[q] == s0[q]
      invariant multiset(a[low..high]) == multiset(s0[low..high])
      invariant ok ==> AtMost(a[..], low, i + 1, pv, cmp) && Above(a[..], i + 1, j, pv, cmp)
    {
      if cmp(a[j], a[high]) <= 0 {
        i := i + 1;
        ghost var s := a[..];
        Swap(a, i, j, swapOk(low, high, j));
        SwapInside(s, a[..], i, j, low, high, swapOk(low, high, j));
        if ok {
          assert swapOk(low, high, j);
          LowStep(s, a[..], low, i, j, pv, cmp);
        }
      }
    }
  }

  /** The range [low, high] is [low, high) with slot high added, which the loop never touches. */
  lemma PivotJoined<T>(s0: seq<T>, s: seq<T>, low: nat, high: nat)
    requires low <= high < |s0| == |s|
    requires multiset(s[low..high]) == multiset(s0[low..high]) && s[high] == s0[high]
    ensures multiset(s[low..high + 1]) == multiset(s0[low..high + 1])
  {
    assert s[low..high + 1] == s[low..high] + [s[high]];
    assert s0[low..high + 1] == s0[low..high] + [s0[high]];
  }

  /** The pointwise frame of the partition, as slices. */
  lemma FramesOf<T>(s0: seq<T>, t: seq<T>, low: nat, high: nat)
    requires low <= high < |s0| == |t|
    requires forall q :: 0 <= q < low ==> t[q] == s0[q]
    requires forall q :: high < q < |t| ==> t[q] == s0[q]
    ensures t[..low] == s0[..low] && t[high + 1..] == s0[high + 1..]
  {
  }

  /**
   * A swap (or a failed one) of two slots inside [lo, hi) rearranges that
   * range and leaves every other slot alone.
   */
  lemma SwapInside<T>(s: seq<T>, t: seq<T>, x: nat, y: nat, lo: nat, hi: nat, done: bool)
    requires lo <= x <= y < hi <= |s|
    requires t == if done then s[x := s[y]][y := s[x]] else s
    ensures |t| == |s|
    ensures forall q :: 0 <= q < lo ==> t[q] == s[q]
    ensures forall q :: hi <= q < |s| ==> t[q] == s[q]
    ensures multiset(t[lo..hi]) == multiset(s[lo..hi])
  {
    if done {
      var u := s[lo..hi];
      assert t[lo..hi] == u[x - lo := u[y - lo]][y - lo := u[x - lo]];
    }
  }

  /**
   * The loop step that moves an element comparing at most the pivot from
   * slot j down to slot i, the first slot of the block above the pivot;
   * that block's first element goes to slot j, so it shifts up by one.
   */
  lemma LowStep<T>(s: seq<T>, t: seq<T>, low: nat, i: nat, j: nat, pv: T, cmp: (T, T) -> int)
    requires low <= i <= j < |s|
    requires t == s[i := s[j]][j := s[i]]
    requires cmp(s[j], pv) <= 0
    requires AtMost(s, low, i, pv, cmp) && Above(s, i, j, pv, cmp)
    ensures AtMost(t, low, i + 1, pv, cmp) && Above(t, i + 1, j + 1, pv, cmp)
  {
  }

  /** The final swap puts the pivot between the block at most it and the block above it. */
  lemma PivotStep<T>(s: seq<T>, t: seq<T>, low: nat, p: nat, high: nat, pv: T, cmp: (T, T) -> int)
    requires low <= p <= high < |s|
    requires t == s[p := s[high]][high := s[p]]
    requires s[high] == pv
    requires AtMost(s, low, p, pv, cmp) && Above(s, p, high, pv, cmp)
    ensures t[p] == pv && AtMost(t, low, p, t[p], cmp) && Above(t, p + 1, high + 1, t[p], cmp)
  {
  }

  /**
   * quick_sort_recursive: a range [low, high] with low < high is
   * partitioned, the part before the pivot is sorted when the pivot is not
   * in slot 0 (in C, high = pi - 1 would wrap around otherwise), and the
   * part after it is sorted.  high may be one below low: an empty range.
   * The range is always rearranged in place; it ends sorted when every
   * swap succeeds.
   */
  method QuickSortRecursive<T(!new)>(a: array<T>, low: nat, high: nat, cmp: (T, T) -> int, swapOk: (nat, nat, nat) -> bool)
    requires TotalPreorder(cmp)
    requires low <= high + 1 && high < a.Length
    modifies a
    decreases high + 1 - low
    ensures a[..low] == old(a[..low]) && a[high + 1..] == old(a[high + 1..])
    ensures multiset(a[low..high + 1]) == multiset(old(a[low..high + 1]))
    ensures SwapsOk(swapOk, low, high) ==> Sorted(a[low..high + 1], cmp)
  {
    if low < high {
      ghost var s0 := a[..];
      var pi := Partition(a, low, high, cmp, swapOk);
      ghost var s1 := a[..];
      if pi > 0 {
        QuickSortRecursive(a, low, pi - 1, cmp, swapOk);
      }
      ghost var s2 := a[..];
      QuickSortRecursive(a, pi + 1, high, cmp, swapOk);
      QuickDone(s0, s1, s2, a[..], low, pi, high, cmp, swapOk);
    }
  }

  /** The partition and the two recursive calls together sort the range, when every swap succeeds. */
  lemma QuickDone<T(!new)>(s0: seq<T>, s1: seq<T>, s2: seq<T>, s3: seq<T>, low: nat, p: nat, high: nat,
                           cmp: (T, T) -> int, swapOk: (nat, nat, nat) -> bool)
    requires TotalPreorder(cmp)
    requires low <= p <= high < |s0| == |s1| == |s2| == |s3|
    requires s1[..low] == s0[..low] && s1[high + 1..] == s0[high + 1..]
    requires multiset(s1[low..high + 1]) == multiset(s0[low..high + 1])
    requires PartitionOk(swapOk, low, high) ==>
               AtMost(s1, low, p, s1[p], cmp) && Above(s1, p + 1, high + 1, s1[p], cmp)
    requires s2[..low] == s1[..low] && s2[p..] == s1[p..]
    requires multiset(s2[low..p]) == multiset(s1[low..p])
    requires p > 0 && SwapsOk(swapOk, low, p - 1) ==> Sorted(s2[low..p], cmp)
    requires p == 0 ==> low == 0
    requires s3[..p + 1] == s2[..p + 1] && s3[high + 1..] == s2[high + 1..]
    requires multiset(s3[p + 1..high + 1]) == multiset(s2[p + 1..high + 1])
    requires SwapsOk(swapOk, p + 1, high) ==> Sorted(s3[p + 1..high + 1], cmp)
    ensures s3[..low] == s0[..low] && s3[high + 1..] == s0[high + 1..]
    ensures multiset(s3[low..high + 1]) == multiset(s0[low..high + 1])
    ensures SwapsOk(swapOk, low, high) ==> Sorted(s3[low..high + 1], cmp)
  {
    QuickFrames(s0, s1, s2, s3, low, p, high);
    QuickCounts(s0, s1, s3, low, p, high);
    assert s3[low..high + 1] == s3[low..p] + [s1[p]] + s3[p + 1..high + 1];
    if SwapsOk(swapOk, low, high) {
      OkInside(swapOk, low, high, p);
      SortedRange(s1, s3[low..p], s3[p + 1..high + 1], low, p, high, cmp);
    }
  }

  /** When every swap inside [low, high] succeeds, so do those of its partition and of the two parts around p. */
  lemma OkInside(swapOk: (nat, nat, nat) -> bool, low: nat, high: nat, p: nat)
    requires SwapsOk(swapOk, low, high) && low <= p <= high
    ensures PartitionOk(swapOk, low, high)
    ensures p > 0 ==> SwapsOk(swapOk, low, p - 1)
    ensures SwapsOk(swapOk, p + 1, high)
  {
  }

  /**
   * How the snapshots around the partition (s0 to s1), the left call (s1
   * to s2) and the right call (s2 to s3) fit together slot by slot.
   */
  lemma QuickFrames<T>(s0: seq<T>, s1: seq<T>, s2: seq<T>, s3: seq<T>, low: nat, p: nat, high: nat)
    requires low <= p <= high < |s0| == |s1| == |s2| == |s3|
    requires s1[..low] == s0[..low] && s1[high + 1..] == s0[high + 1..]
    requires s2[..low] == s1[..low] && s2[p..] == s1[p..]
    requires s3[..p + 1] == s2[..p + 1] && s3[high + 1..] == s2[high + 1..]
    ensures s3[..low] == s0[..low] && s3[high + 1..] == s0[high + 1..]
    ensures s3[low..p] == s2[low..p] && s3[p] == s1[p]
    ensures s2[p + 1..high + 1] == s1[p + 1..high + 1]
  {
    SameUpTo(s3, s2, low, p + 1);
    SameFrom(s2, s1, p, high + 1, high + 1);
    SameFrom(s2, s1, p, p + 1, high + 1);
    SameUpTo(s3, s2, p, p + 1);
    assert s3[low..p] == s2[low..p] by {
      assert s3[low..p] == s3[..p + 1][low..p];
      assert s2[low..p] == s2[..p + 1][low..p];
    }
    assert s3[p] == s1[p] by {
      assert s3[p] == s3[..p + 1][p] && s2[p] == s2[..p + 1][p];
      assert s2[p] == s2[p..][0] && s1[p] == s1[p..][0];
    }
  }

  /** Rearranging both sides of the pivot rearranges the whole range. */
  lemma QuickCounts<T>(s0: seq<T>, s1: seq<T>, s3: seq<T>, low: nat, p: nat, high: nat)
    requires low <= p <= high < |s0| == |s1| == |s3|
    requires multiset(s1[low..high + 1]) == multiset(s0[low..high + 1])
    requires multiset(s3[low..p]) == multiset(s1[low..p]) && s3[p] == s1[p]
    requires multiset(s3[p + 1..high + 1]) == multiset(s1[p + 1..high + 1])
    ensures multiset(s3[low..high + 1]) == multiset(s0[low..high + 1])
  {
    assert s3[low..high + 1] == s3[low..p] + [s3[p]] + s3[p + 1..high + 1];
    assert s1[low..high + 1] == s1[low..p] + [s1[p]] + s1[p + 1..high + 1];
  }

  /**
   * Parts sorted on their own, rearranged from the blocks at most and above
   * the pivot p that partitioning left in s1, make the range sorted.
   */
  lemma SortedRange<T(!new)>(s1: seq<T>, l: seq<T>, r: seq<T>, low: nat, p: nat, high: nat, cmp: (T, T) -> int)
    requires TotalPreorder(cmp) && low <= p <= high < |s1|
    requires multiset(l) == multiset(s1[low..p]) && multiset(r) == multiset(s1[p + 1..high + 1])
    requires AtMost(s1, low, p, s1[p], cmp) && Above(s1, p + 1, high + 1, s1[p], cmp)
    requires Sorted(l, cmp) && Sorted(r, cmp)
    ensures Sorted(l + [s1[p]] + r, cmp)
  {
    BoundsKept(l, s1, low, p, s1[p], cmp);
    BoundsKept(r, s1, p + 1, high + 1, s1[p], cmp);
    SortedAround(l, s1[p], r, cmp);
  }

  /** A rearrangement of a block of t whose elements all compare at most (or above) pv has the same bound. */
  lemma BoundsKept<T>(s: seq<T>, t: seq<T>, lo: nat, hi: nat, pv: T, cmp: (T, T) -> int)
    requires lo <= hi <= |t| && multiset(s) == multiset(t[lo..hi])
    ensures AtMost(t, lo, hi, pv, cmp) ==> AtMost(s, 0, |s|, pv, cmp)
    ensures Above(t, lo, hi, pv, cmp) ==> Above(s, 0, |s|, pv, cmp)
  {
    forall q | 0 <= q < |s|
      ensures exists k :: lo <= k < hi && t[k] == s[q]
    {
      assert s[q] in multiset(t[lo..hi]);
      assert s[q] in t[lo..hi];
    }
  }

  /** Sorted blocks at most and above a pivot, on either side of it, make a sorted run. */
  lemma SortedAround<T(!new)>(l: seq<T>, pv: T, r: seq<T>, cmp: (T, T) -> int)
    requires TotalPreorder(cmp) && Sorted(l, cmp) && Sorted(r, cmp)
    requires AtMost(l, 0, |l|, pv, cmp) && Above(r, 0, |r|, pv, cmp)
    ensures Sorted(l + [pv] + r, cmp)
  {
    forall j | 0 <= j < |r|
      ensures cmp(pv, r[j]) <= 0
    {
      assert cmp(r[j], pv) > 0;
    }
    forall i, j | 0 <= i < |l| && 0 <= j < |r|
      ensures cmp(l[i], r[j]) <= 0
    {
      assert cmp(l[i], pv) <= 0 && cmp(pv, r[j]) <= 0;
    }
    Reflexive(cmp, pv);
    SortedJoin(l, [pv], cmp);
    SortedJoin(l + [pv], r, cmp);
  }

  /**
   * quick_sort: nothing happens for fewer than two elements; otherwise the
   * whole array [0, size - 1] is sorted in place.  The result is always a
   * rearrangement, and sorted when every swap succeeds.
   */
  method QuickSort<T(!new)>(a: array<T>, cmp: (T, T) -> int, swapOk: (nat, nat, nat) -> bool)
    requires TotalPreorder(cmp)
    modifies a
    ensures a.Length < 2 ==> a[..] == old(a[..])
    ensures multiset(a[..]) == multiset(old(a[..]))
    ensures a.Length >= 2 && SwapsOk(swapOk, 0, a.Length - 1) ==> Sorted(a[..], cmp)
  {
    if a.Length < 2 {
      return;
    }
    assert a[..] == a[0..a.Length];
    QuickSortRecursive(a, 0, a.Length - 1, cmp, swapOk);
    assert a[..] == a[0..a.Length];
  }
}
