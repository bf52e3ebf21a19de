/**
 * merge_sort of merge_sort.c on an array of elements.  Every merge
 * allocates two temporary buffers for the halves it merges; allocOk(l, r)
 * says whether both allocations succeed for the merge of range l .. r (each
 * range is merged at most once).  A merge whose buffers cannot be allocated
 * returns without touching the array.
 */
module MergeSort {
  import opened Common
  import opened SortSpec

  /**
   * What merge writes back: repeatedly the smaller head of the two runs,
   * the left head when the two compare equal, then what is left of either.
   */
  function Merge<T>(left: seq<T>, right: seq<T>, cmp: (T, T) -> int): (r: seq<T>)
    ensures |r| == |left| + |right|
    decreases |left| + |right|
  {
    if left == [] then right
    else if right == [] then left
    else if cmp(left[0], right[0]) <= 0 then [left[0]] + Merge(left[1..], right, cmp)
    else [right[0]] + Merge(left, right[1..], cmp)
  }

  /** The merge holds exactly the elements of its two runs. */
  lemma {:induction false} MergePermutation<T>(left: seq<T>, right: seq<T>, cmp: (T, T) -> int)
    ensures multiset(Merge(left, right, cmp)) == multiset(left) + multiset(right)
    decreases |left| + |right|
  {
    if left == [] || right == [] {
      MergeEmpty(left, right, cmp);
    } else if cmp(left[0], right[0]) <= 0 {
      MergePermutation(left[1..], right, cmp);
      TakeLeft(left, right, cmp);
      MultisetHead(left);
    } else {
      MergePermutation(left, right[1..], cmp);
      TakeRight(left, right, cmp);
      MultisetHead(right);
    }
  }

  /** A merge with an exhausted run is the other run. */
  lemma MergeEmpty<T>(left: seq<T>, right: seq<T>, cmp: (T, T) -> int)
    requires left == [] || right == []
    ensures Merge(left, right, cmp) == left + right
  {
  }

  lemma MultisetHead<T>(s: seq<T>)
    requires s != []
    ensures multiset(s) == multiset{s[0]} + multiset(s[1..])
  {
    assert s == [s[0]] + s[1..];
  }

  /** The first step of a merge of nonempty runs, with either run possibly exhausted. */
  lemma MergeHead<T>(left: seq<T>, right: seq<T>, cmp: (T, T) -> int)
    requires left != [] || right != []
    ensures Merge(left, right, cmp) ==
            if right == [] || (left != [] && cmp(left[0], right[0]) <= 0) then [left[0]] + Merge(left[1..], right, cmp)
            else [right[0]] + Merge(left, right[1..], cmp)
  {
    if right == [] {
      assert left == [left[0]] + left[1..];
    } else if left == [] {
      assert right == [right[0]] + right[1..];
    }
  }

  /** MergeHead on the parts of two runs not yet consumed, from positions i and j. */
  lemma MergeStep<T>(left: seq<T>, right: seq<T>, i: nat, j: nat, cmp: (T, T) -> int)
    requires i <= |left| && j <= |right| && (i < |left| || j < |right|)
    ensures Merge(left[i..], right[j..], cmp) ==
            if j == |right| || (i < |left| && cmp(left[i], right[j]) <= 0) then [left[i]] + Merge(left[i + 1..], right[j..], cmp)
            else [right[j]] + Merge(left[i..], right[j + 1..], cmp)
  {
    MergeHead(left[i..], right[j..], cmp);
    if i < |left| {
      assert left[i..][1..] == left[i + 1..];
    }
    if j < |right| {
      assert right[j..][1..] == right[j + 1..];
    }
  }

  /** Something not above any element of two runs is not above any element of their merge. */
  lemma MergeLowerBound<T>(x: T, left: seq<T>, right: seq<T>, cmp: (T, T) -> int)
    requires forall i :: 0 <= i < |left| ==> cmp(x, left[i]) <= 0
    requires forall j :: 0 <= j < |right| ==> cmp(x, right[j]) <= 0
    ensures forall k :: 0 <= k < |Merge(left, right, cmp)| ==> cmp(x, Merge(left, right, cmp)[k]) <= 0
  {
    var m := Merge(left, right, cmp);
    MergePermutation(left, right, cmp);
    forall k | 0 <= k < |m|
      ensures cmp(x, m[k]) <= 0
    {
      assert m[k] in multiset(m);
      assert m[k] in left || m[k] in right;
    }
  }

  /** In a sorted run, whatever is not above its first element is not above any element. */
  lemma BelowRun<T(!new)>(x: T, s: seq<T>, cmp: (T, T) -> int)
    requires TotalPreorder(cmp) && Sorted(s, cmp) && s != [] && cmp(x, s[0]) <= 0
    ensures forall j :: 0 <= j < |s| ==> cmp(x, s[j]) <= 0
  {
    forall j | 0 < j < |s|
      ensures cmp(x, s[j]) <= 0
    {
      assert cmp(s[0], s[j]) <= 0;
    }
  }

  /** In a sorted run whose first element is above k, every element is above k. */
  lemma AboveRun<T(!new)>(s: seq<T>, k: T, cmp: (T, T) -> int)
    requires TotalPreorder(cmp) && Sorted(s, cmp) && s != [] && cmp(s[0], k) > 0
    ensures forall j :: 0 <= j < |s| ==> cmp(s[j], k) > 0
  {
    forall j | 0 < j < |s|
      ensures cmp(s[j], k) > 0
    {
      assert cmp(s[0], s[j]) <= 0;
    }
  }

  /** An element not above any element of a sorted run, put in front, keeps it sorted. */
  lemma SortedCons<T>(h: T, s: seq<T>, cmp: (T, T) -> int)
    requires Sorted(s, cmp) && forall k :: 0 <= k < |s| ==> cmp(h, s[k]) <= 0
    ensures Sorted([h] + s, cmp)
  {
    var t := [h] + s;
    forall p, q | 0 <= p < q < |t|
      ensures cmp(t[p], t[q]) <= 0
    {
      assert t[q] == s[q - 1];
      if p > 0 {
        assert t[p] == s[p - 1];
      }
    }
  }

  /** The merge of two sorted runs is sorted. */
  lemma {:induction false} MergeSorted<T(!new)>(left: seq<T>, right: seq<T>, cmp: (T, T) -> int)
    requires TotalPreorder(cmp) && Sorted(left, cmp) && Sorted(right, cmp)
    ensures Sorted(Merge(left, right, cmp), cmp)
    decreases |left| + |right|
  {
    if left != [] && right != [] {
      var h := if cmp(left[0], right[0]) <= 0 then left[0] else right[0];
      if cmp(left[0], right[0]) <= 0 {
        MergeSorted(left[1..], right, cmp);
        BelowRun(h, right, cmp);
        BelowRun(h, left, cmp);
        MergeLowerBound(h, left[1..], right, cmp);
        SortedCons(h, Merge(left[1..], right, cmp), cmp);
      } else {
        MergeSorted(left, right[1..], cmp);
        assert cmp(right[0], left[0]) < 0;
        BelowRun(h, left, cmp);
        BelowRun(h, right, cmp);
        MergeLowerBound(h, left, right[1..], cmp);
        SortedCons(h, Merge(left, right[1..], cmp), cmp);
      }
    }
  }

  /**
   * Merging sorted runs keeps every class of equal elements in order: the
   * left run's members of a class, then the right run's, since a right head
   * is taken only when the whole left run is above it.
   */
  lemma {:induction false} MergeTies<T(!new)>(left: seq<T>, right: seq<T>, x: T, cmp: (T, T) -> int)
    requires TotalPreorder(cmp) && Sorted(left, cmp) && Sorted(right, cmp)
    ensures Ties(Merge(left, right, cmp), x, cmp) == Ties(left, x, cmp) + Ties(right, x, cmp)
    decreases |left| + |right|
  {
    if left == [] || right == [] {
      MergeEmpty(left, right, cmp);
      TiesAppend(left, right, x, cmp);
    } else if cmp(left[0], right[0]) <= 0 {
      SortedTail(left, cmp);
      MergeTies(left[1..], right, x, cmp);
      TakeLeftTies(left, right, x, cmp);
    } else {
      SortedTail(right, cmp);
      MergeTies(left, right[1..], x, cmp);
      LeftAbove(left, right[0], x, cmp);
      TakeRightTies(left, right, x, cmp);
    }
  }

  lemma SortedTail<T>(s: seq<T>, cmp: (T, T) -> int)
    requires Sorted(s, cmp) && s != []
    ensures Sorted(s[1..], cmp)
  {
    assert forall i :: 0 <= i < |s| - 1 ==> s[1..][i] == s[i + 1];
  }

  /** When the right head is tied with x and the sorted left run is above it, the left run has no tie of x. */
  lemma LeftAbove<T(!new)>(left: seq<T>, k: T, x: T, cmp: (T, T) -> int)
    requires TotalPreorder(cmp) && Sorted(left, cmp) && left != [] && cmp(left[0], k) > 0
    ensures cmp(k, x) == 0 ==> Ties(left, x, cmp) == []
  {
    if cmp(k, x) == 0 {
      AboveRun(left, k, cmp);
      NoTiesAbove(left, k, x, cmp);
    }
  }

  /** A merge whose left head is not above the right head starts with the left head. */
  lemma TakeLeft<T>(left: seq<T>, right: seq<T>, cmp: (T, T) -> int)
    requires left != [] && right != [] && cmp(left[0], right[0]) <= 0
    ensures Merge(left, right, cmp) == [left[0]] + Merge(left[1..], right, cmp)
  {
  }

  /** A merge whose left head is above the right head starts with the right head. */
  lemma TakeRight<T>(left: seq<T>, right: seq<T>, cmp: (T, T) -> int)
    requires left != [] && right != [] && cmp(left[0], right[0]) > 0
    ensures Merge(left, right, cmp) == [right[0]] + Merge(left, right[1..], cmp)
  {
  }

  /** Taking the left head extends the left run's ties in front. */
  lemma TakeLeftTies<T>(left: seq<T>, right: seq<T>, x: T, cmp: (T, T) -> int)
    requires left != [] && right != [] && cmp(left[0], right[0]) <= 0
    requires Ties(Merge(left[1..], right, cmp), x, cmp) == Ties(left[1..], x, cmp) + Ties(right, x, cmp)
    ensures Ties(Merge(left, right, cmp), x, cmp) == Ties(left, x, cmp) + Ties(right, x, cmp)
  {
    TakeLeft(left, right, cmp);
    TiesHead(left, x, cmp);
    TiesCons(left[0], Merge(left[1..], right, cmp), left[1..], right, x, cmp);
  }

  /** Taking the right head puts it after the left run's ties, which are none when it is tied. */
  lemma TakeRightTies<T>(left: seq<T>, right: seq<T>, x: T, cmp: (T, T) -> int)
    requires left != [] && right != [] && cmp(left[0], right[0]) > 0
    requires Ties(Merge(left, right[1..], cmp), x, cmp) == Ties(left, x, cmp) + Ties(right[1..], x, cmp)
    requires cmp(right[0], x) == 0 ==> Ties(left, x, cmp) == []
    ensures Ties(Merge(left, right, cmp), x, cmp) == Ties(left, x, cmp) + Ties(right, x, cmp)
  {
    TakeRight(left, right, cmp);
    TiesHead(right, x, cmp);
    JumpTies(right[0], Merge(left, right[1..], cmp), left, right[1..], right, x, cmp);
  }

  /** The step of TakeRightTies on abstract parts: h jumps ahead of l, which has no tie of x when h is one. */
  lemma JumpTies<T>(h: T, m: seq<T>, l: seq<T>, r: seq<T>, s: seq<T>, x: T, cmp: (T, T) -> int)
    requires Ties(m, x, cmp) == Ties(l, x, cmp) + Ties(r, x, cmp)
    requires Ties(s, x, cmp) == Ties([h], x, cmp) + Ties(r, x, cmp)
    requires cmp(h, x) == 0 ==> Ties(l, x, cmp) == []
    ensures Ties([h] + m, x, cmp) == Ties(l, x, cmp) + Ties(s, x, cmp)
  {
    TiesCons(h, m, l, r, x, cmp);
    TiesSingle(h, x, cmp);
    Commute(Ties([h], x, cmp), Ties(l, x, cmp), Ties(r, x, cmp));
  }

  /** Two blocks of which one is empty can be exchanged. */
  lemma Commute<T>(a: seq<T>, b: seq<T>, c: seq<T>)
    requires a == [] || b == []
    ensures a + b + c == b + a + c
  {
  }

  /** Merging two sorted runs rearranges their concatenation stably. */
  lemma MergeStable<T(!new)>(left: seq<T>, right: seq<T>, cmp: (T, T) -> int)
    requires TotalPreorder(cmp) && Sorted(left, cmp) && Sorted(right, cmp)
    ensures Stable(left + right, Merge(left, right, cmp), cmp)
  {
    forall x
      ensures Ties(Merge(left, right, cmp), x, cmp) == Ties(left + right, x, cmp)
    {
      MergeTies(left, right, x, cmp);
      TiesAppend(left, right, x, cmp);
    }
  }

  /**
   * merge: the runs a[left..mid] and a[mid+1..right] (inclusive bounds) are
   * copied out and merged back into a[left..right].  When the temporary
   * buffers cannot be allocated nothing changes.
   */
  method MergeRange<T>(a: array<T>, left: nat, mid: nat, right: nat, cmp: (T, T) -> int, allocOk: bool)
    requires left <= mid < right < a.Length
    modifies a
    ensures a[..left] == old(a[..left]) && a[right + 1..] == old(a[right + 1..])
    ensures a[left..right + 1] == if allocOk then Merge(old(a[left..mid + 1]), old(a[mid + 1..right + 1]), cmp) else old(a[left..right + 1])
  {
    if !allocOk {
      return;
    }
    var L := a[left..mid + 1];
    var R := a[mid + 1..right + 1];
    ghost var s0 := a[..];
    MergeLoops(a, L, R, left, right, cmp);
    Assemble(s0, a[..], Merge(L, R, cmp), left, right);
    Parts3(s0[..left], Merge(L, R, cmp), s0[right + 1..]);
  }

  /**
   * The three loops of merge: the first stores the smaller head while both
   * runs have elements left, and the other two copy what is left of L and
   * of R.  Together they store the merge of the runs in slots left .. right.
   */
  method MergeLoops<T>(a: array<T>, L: seq<T>, R: seq<T>, left: nat, right: nat, cmp: (T, T) -> int)
    requires left + |L| + |R| == right + 1 <= a.Length
    modifies a
    ensures forall q :: 0 <= q < left ==> a[q] == old(a[q])
    ensures forall q :: right < q < a.Length ==> a[q] == old(a[q])
    ensures forall q :: left <= q <= right ==> a[q] == Merge(L, R, cmp)[q - left]
  {
    var i, j := MergeHeads(a, L, R, left, right, cmp);
    MergeEmpty(L[i..], R[j..], cmp);
    CopyTails(a, L, R, i, j, left, Merge(L, R, cmp));
  }

  /**
   * The first loop of merge: while both runs have elements left, the
   * smaller head (the left one on a tie) is stored at k.  It stops with one
   * run exhausted, having written the start of the merge of the runs; the
   * rest of that merge is the merge of what is left.
   */
  method MergeHeads<T>(a: array<T>, L: seq<T>, R: seq<T>, left: nat, right: nat, cmp: (T, T) -> int) returns (i: nat, j: nat)
    requires left + |L| + |R| == right + 1 <= a.Length
    modifies a
    ensures i <= |L| && j <= |R| && (i == |L| || j == |R|)
    ensures forall q :: 0 <= q < left ==> a[q] == old(a[q])
    ensures forall q :: left + i + j <= q < a.Length ==> a[q] == old(a[q])
    ensures forall q :: left <= q < left + i + j ==> a[q] == Merge(L, R, cmp)[q - left]
    ensures Merge(L[i..], R[j..], cmp) == Merge(L, R, cmp)[i + j..]
  {
    ghost var m := Merge(L, R, cmp);
    i, j := 0, 0;
    var k := left;
    while i < |L| && j < |R|
      invariant i <= |L| && j <= |R| && k == left + i + j
      invariant forall q :: 0 <= q < left ==> a[q] == old(a[q])
      invariant forall q :: k <= q < a.Length ==> a[q] == old(a[q])
      invariant forall q :: left <= q < k ==> a[q] == m[q - left]
      invariant Merge(L[i..], R[j..], cmp) == m[i + j..]
    {
      HeadsStep(L, R, i, j, m, cmp);
      if cmp(L[i], R[j]) <= 0 {
        a[k] := L[i];
        i := i + 1;
      } else {
        a[k] := R[j];
        j := j + 1;
      }
      k := k + 1;
    }
  }

  /**
   * One step of the first loop of merge: the merge from i + j on starts
   * with the smaller head, and after it comes the merge of the runs with
   * that head consumed.
   */
  lemma HeadsStep<T>(L: seq<T>, R: seq<T>, i: nat, j: nat, m: seq<T>, cmp: (T, T) -> int)
    requires i < |L| && j < |R| && i + j <= |m| && Merge(L[i..], R[j..], cmp) == m[i + j..]
    ensures i + j < |m|
    ensures cmp(L[i], R[j]) <= 0 ==> m[i + j] == L[i] && Merge(L[i + 1..], R[j..], cmp) == m[i + j + 1..]
    ensures cmp(L[i], R[j]) > 0 ==> m[i + j] == R[j] && Merge(L[i..], R[j + 1..], cmp) == m[i + j + 1..]
  {
    MergeStep(L, R, i, j, cmp);
    if cmp(L[i], R[j]) <= 0 {
      Behead(m, i + j, L[i], Merge(L[i + 1..], R[j..], cmp));
    } else {
      Behead(m, i + j, R[j], Merge(L[i..], R[j + 1..], cmp));
    }
  }

  /** When the merge from p on is v followed by rest, its element p is v and from p + 1 on it is rest. */
  lemma Behead<T>(m: seq<T>, p: nat, v: T, rest: seq<T>)
    requires p <= |m| && m[p..] == [v] + rest
    ensures p < |m| && m[p] == v && m[p + 1..] == rest
  {
    assert m[p..][0] == v && m[p..][1..] == rest;
  }

  /**
   * The two remaining-element loops of merge: what is left of L, then what
   * is left of R, stored after the i + j slots from left already written.
   * Those tails are the rest of the merge m, which then fills left .. on.
   */
  method CopyTails<T>(a: array<T>, L: seq<T>, R: seq<T>, i: nat, j: nat, left: nat, ghost m: seq<T>)
    requires i <= |L| && j <= |R| && |m| == |L| + |R| && left + |m| <= a.Length
    requires m[i + j..] == L[i..] + R[j..]
    requires forall q :: left <= q < left + i + j ==> a[q] == m[q - left]
    modifies a
    ensures forall q :: 0 <= q < left ==> a[q] == old(a[q])
    ensures forall q :: left + |m| <= q < a.Length ==> a[q] == old(a[q])
    ensures forall q :: left <= q < left + |m| ==> a[q] == m[q - left]
  {
    var k := CopyRun(a, L, i, left + i + j);
    var k' := CopyRun(a, R, j, k);
    forall q | left + i + j <= q < left + |m|
      ensures a[q] == m[q - left]
    {
      assert m[q - left] == m[i + j..][q - left - i - j];
    }
  }

  /** The remaining-element loops of merge: src[i0..] is copied to the slots from k0 on. */
  method CopyRun<T>(a: array<T>, src: seq<T>, i0: nat, k0: nat) returns (k: nat)
    requires i0 <= |src| && k0 + |src| - i0 <= a.Length
    modifies a
    ensures k == k0 + |src| - i0
    ensures forall q :: 0 <= q < k0 ==> a[q] == old(a[q])
    ensures forall q :: k <= q < a.Length ==> a[q] == old(a[q])
    ensures forall q :: k0 <= q < k ==> a[q] == src[q - k0 + i0]
  {
    var i := i0;
    k := k0;
    while i < |src|
      invariant i0 <= i <= |src| && k == k0 + i - i0
      invariant forall q :: 0 <= q < k0 ==> a[q] == old(a[q])
      invariant forall q :: k <= q < a.Length ==> a[q] == old(a[q])
      invariant forall q :: k0 <= q < k ==> a[q] == src[q - k0 + i0]
    {
      a[k] := src[i];
      i := i + 1;
      k := k + 1;
    }
  }

  /** After the three loops the array holds the merge between left and right and is unchanged elsewhere. */
  lemma Assemble<T>(s0: seq<T>, s: seq<T>, m: seq<T>, left: nat, right: nat)
    requires |s0| == |s| && left + |m| == right + 1 <= |s0|
    requires forall q :: 0 <= q < left ==> s[q] == s0[q]
    requires forall q :: right < q < |s0| ==> s[q] == s0[q]
    requires forall q :: left <= q <= right ==> s[q] == m[q - left]
    ensures s == s0[..left] + m + s0[right + 1..]
  {
  }

  /** Every merge of a range inside left .. right gets its buffers. */
  ghost predicate MergesOk(allocOk: (nat, nat) -> bool, left: nat, right: nat)
  {
    forall l, r :: left <= l < r <= right ==> allocOk(l, r)
  }

  /**
   * merge_sort_recursive on a[left..right] (inclusive): for left < right,
   * sort the halves split at mid = left + (right - left) / 2, then merge
   * them.  The range is always rearranged, never changed in content, and
   * nothing outside it moves; when every merge gets its buffers the range
   * ends sorted and stable.
   */
  method MergeSortRecursive<T(!new)>(a: array<T>, left: nat, right: nat, cmp: (T, T) -> int, allocOk: (nat, nat) -> bool)
    requires TotalPreorder(cmp) && left <= right < a.Length
    modifies a
    ensures a[..left] == old(a[..left]) && a[right + 1..] == old(a[right + 1..])
    ensures multiset(a[left..right + 1]) == multiset(old(a[left..right + 1]))
    ensures MergesOk(allocOk, left, right) ==> Sorted(a[left..right + 1], cmp) && Stable(old(a[left..right + 1]), a[left..right + 1], cmp)
    decreases right - left
  {
    if left < right {
      var mid := left + (right - left) / 2;
      ghost var s0 := a[..];
      MergeSortRecursive(a, left, mid, cmp, allocOk);
      ghost var s1 := a[..];
      MergeSortRecursive(a, mid + 1, right, cmp, allocOk);
      ghost var s2 := a[..];
      MergeRange(a, left, mid, right, cmp, allocOk(left, right));
      Frames(s0, s1, s2, a[..], left, mid, right);
      ghost var a0, b0, a1, b1 := s0[left..mid + 1], s0[mid + 1..right + 1], s1[left..mid + 1], s2[mid + 1..right + 1];
      RangePermutation(a0, b0, a1, b1, a[left..right + 1], allocOk(left, right), cmp);
      if MergesOk(allocOk, left, right) {
        assert MergesOk(allocOk, left, mid) && MergesOk(allocOk, mid + 1, right);
        CombinedSorted(a0, b0, a1, b1, a[left..right + 1], cmp);
      }
    }
  }

  /**
   * What each step of merge_sort_recursive leaves in place.  s0 .. s3 are
   * the array before the two recursive calls, after each, and after the
   * merge: the slots outside left .. right never change, the first call
   * leaves the right half alone and the second the left half, and each
   * range is the concatenation of its two halves.
   */
  lemma Frames<T>(s0: seq<T>, s1: seq<T>, s2: seq<T>, s3: seq<T>, left: nat, mid: nat, right: nat)
    requires left <= mid < right < |s0| == |s1| == |s2| == |s3|
    requires s1[..left] == s0[..left] && s1[mid + 1..] == s0[mid + 1..]
    requires s2[..mid + 1] == s1[..mid + 1] && s2[right + 1..] == s1[right + 1..]
    requires s3[..left] == s2[..left] && s3[right + 1..] == s2[right + 1..]
    ensures s3[..left] == s0[..left] && s3[right + 1..] == s0[right + 1..]
    ensures s1[mid + 1..right + 1] == s0[mid + 1..right + 1] && s2[left..mid + 1] == s1[left..mid + 1]
    ensures s0[left..right + 1] == s0[left..mid + 1] + s0[mid + 1..right + 1]
    ensures s2[left..right + 1] == s2[left..mid + 1] + s2[mid + 1..right + 1]
  {
    SameFrom(s1, s0, mid + 1, mid + 1, right + 1);
    SameFrom(s1, s0, mid + 1, right + 1, right + 1);
    SameUpTo(s2, s1, left, mid + 1);
    Halves(s0, left, mid + 1, right + 1);
    Halves(s2, left, mid + 1, right + 1);
  }

  lemma Halves<T>(s: seq<T>, p: nat, q: nat, r: nat)
    requires p <= q <= r <= |s|
    ensures s[p..r] == s[p..q] + s[q..r]
  {
  }

  /** The range after the merge, or unmerged halves, holds what the range held before the recursive calls. */
  lemma RangePermutation<T>(a0: seq<T>, b0: seq<T>, a1: seq<T>, b1: seq<T>, range: seq<T>, ok: bool, cmp: (T, T) -> int)
    requires multiset(a1) == multiset(a0) && multiset(b1) == multiset(b0)
    requires range == if ok then Merge(a1, b1, cmp) else a1 + b1
    ensures multiset(range) == multiset(a0 + b0)
  {
    MergePermutation(a1, b1, cmp);
  }

  /** With both halves sorted and stable, the merged range is sorted and stable. */
  lemma CombinedSorted<T(!new)>(a0: seq<T>, b0: seq<T>, a1: seq<T>, b1: seq<T>, range: seq<T>, cmp: (T, T) -> int)
    requires TotalPreorder(cmp)
    requires Sorted(a1, cmp) && Stable(a0, a1, cmp) && Sorted(b1, cmp) && Stable(b0, b1, cmp)
    requires range == Merge(a1, b1, cmp)
    ensures Sorted(range, cmp) && Stable(a0 + b0, range, cmp)
  {
    MergeSorted(a1, b1, cmp);
    StableConcat(a0, a1, b0, b1, cmp);
    MergeStable(a1, b1, cmp);
    StableTrans(a0 + b0, a1 + b1, range, cmp);
  }

  /**
   * merge_sort: nothing happens for fewer than two elements; otherwise the
   * whole array is sorted recursively.  The result is always a permutation,
   * and sorted and stable when every merge gets its buffers.
   */
  method MergeSort<T(!new)>(a: array<T>, cmp: (T, T) -> int, allocOk: (nat, nat) -> bool)
    requires TotalPreorder(cmp)
    modifies a
    ensures a.Length < 2 ==> a[..] == old(a[..])
    ensures multiset(a[..]) == multiset(old(a[..]))
    ensures a.Length >= 2 && MergesOk(allocOk, 0, a.Length - 1) ==> Sorted(a[..], cmp) && Stable(old(a[..]), a[..], cmp)
  {
    if a.Length < 2 {
      return;
    }
    assert a[..] == a[0..a.Length];
    MergeSortRecursive(a, 0, a.Length - 1, cmp, allocOk);
    assert a[..] == a[0..a.Length];
  }
}
