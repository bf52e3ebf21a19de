/**
 * bubble_sort of bubble_sort.c on an array of elements.  The temporary
 * buffer of elem_size bytes is the only allocation; allocOk says whether it
 * succeeds.
 */
module BubbleSort {
  import opened Common
  import opened SortSpec

  /**
   * bubble_sort: nothing happens for fewer than two elements or when the
   * temporary buffer cannot be allocated.  Otherwise passes over a shrinking
   * prefix exchange neighbours that compare above 0, and the sort stops
   * after a pass with no exchange.  The result is sorted, and stable since
   * only neighbours comparing above 0 are exchanged.
   */
  method BubbleSort<T(!new)>(a: array<T>, cmp: (T, T) -> int, allocOk: bool)
    requires TotalPreorder(cmp)
    modifies a
    ensures a.Length < 2 || !allocOk ==> a[..] == old(a[..])
    ensures allocOk ==> Sorted(a[..], cmp)
    ensures Stable(old(a[..]), a[..], cmp)
    ensures multiset(a[..]) == multiset(old(a[..]))
  {
    if a.Length < 2 || !allocOk {
      return;
    }
    var n := a.Length;
    var i := 0;
    while i < n - 1
      invariant 0 <= i <= n - 1
      invariant Stable(old(a[..]), a[..], cmp)
      invariant Sorted(a[n - i..], cmp) && Below(a[..], n - i, cmp)
    {
      ghost var before := a[..];
      var swapped := Pass(a, n - i, cmp);
      StableTrans(old(a[..]), before, a[..], cmp);
      if !swapped {
        SortedAt(a[..], n - i, cmp);
        break;
      }
      PassDone(a[..], n - i, cmp);
      i := i + 1;
    }
    if i == n - 1 {
      SortedAt(a[..], 1, cmp);
    }
    StablePermutation(old(a[..]), a[..], cmp);
  }

  /**
   * One pass of bubble_sort over a[..m]: for each j below m - 1, exchange
   * a[j] and a[j + 1] when they compare above 0.  The largest element of the
   * prefix ends at m - 1; swapped says whether anything moved, and when
   * nothing did the prefix was already sorted.
   */
  method Pass<T(!new)>(a: array<T>, m: nat, cmp: (T, T) -> int) returns (swapped: bool)
    requires TotalPreorder(cmp) && 1 <= m <= a.Length
    requires Below(a[..], m, cmp)
    modifies a
    ensures a[m..] == old(a[m..])
    ensures Stable(old(a[..]), a[..], cmp)
    ensures MaxAt(a[..], m - 1, cmp) && Below(a[..], m, cmp)
    ensures !swapped ==> Sorted(a[..m], cmp)
  {
    swapped := false;
    for j := 0 to m - 1
      invariant a[m..] == old(a[m..])
      invariant Stable(old(a[..]), a[..], cmp)
      invariant MaxAt(a[..], j, cmp) && Below(a[..], m, cmp)
      invariant !swapped ==> Sorted(a[..j + 1], cmp)
    {
      ghost var s := a[..];
      if cmp(a[j], a[j + 1]) > 0 {
        a[j], a[j + 1] := a[j + 1], a[j];
        swapped := true;
        assert a[..] == s[j := s[j + 1]][j + 1 := s[j]];
        SwapStable(s, j, cmp);
        SwapStep(s, j, m, cmp);
      } else {
        KeepStep(s, j, cmp);
      }
      StableTrans(old(a[..]), s, a[..], cmp);
    }
  }

  /** s[j] compares at least as high as every element before it. */
  ghost predicate MaxAt<T>(s: seq<T>, j: nat, cmp: (T, T) -> int)
    requires j < |s|
  {
    forall p :: 0 <= p <= j ==> cmp(s[p], s[j]) <= 0
  }

  /** No element before position m compares above an element from m on. */
  ghost predicate Below<T>(s: seq<T>, m: nat, cmp: (T, T) -> int)
  {
    forall p, q :: 0 <= p < m <= q < |s| ==> cmp(s[p], s[q]) <= 0
  }

  /** An exchange at j < m - 1 carries the running maximum to j + 1 and keeps the prefix below the rest. */
  lemma SwapStep<T(!new)>(s: seq<T>, j: nat, m: nat, cmp: (T, T) -> int)
    requires TotalPreorder(cmp) && j + 1 < m <= |s|
    requires MaxAt(s, j, cmp) && Below(s, m, cmp) && cmp(s[j], s[j + 1]) > 0
    ensures MaxAt(s[j := s[j + 1]][j + 1 := s[j]], j + 1, cmp)
    ensures Below(s[j := s[j + 1]][j + 1 := s[j]], m, cmp)
  {
    assert cmp(s[j + 1], s[j]) < 0;
  }

  /** Without an exchange at j, s[j + 1] is the running maximum, and a sorted prefix grows by one. */
  lemma KeepStep<T(!new)>(s: seq<T>, j: nat, cmp: (T, T) -> int)
    requires TotalPreorder(cmp) && j + 1 < |s|
    requires MaxAt(s, j, cmp) && cmp(s[j], s[j + 1]) <= 0
    ensures MaxAt(s, j + 1, cmp)
    ensures Sorted(s[..j + 1], cmp) ==> Sorted(s[..j + 2], cmp)
  {
    forall p | 0 <= p <= j
      ensures cmp(s[p], s[j + 1]) <= 0
    {
      assert cmp(s[p], s[j]) <= 0;
    }
    Reflexive(cmp, s[j + 1]);
  }

  /** After a pass over s[..m], the suffix sorted and kept above grows to start at m - 1. */
  lemma PassDone<T>(s: seq<T>, m: nat, cmp: (T, T) -> int)
    requires 1 <= m <= |s| && MaxAt(s, m - 1, cmp) && Below(s, m, cmp) && Sorted(s[m..], cmp)
    ensures Sorted(s[m - 1..], cmp) && Below(s, m - 1, cmp)
  {
    assert forall q :: m - 1 < q < |s| ==> s[q] == s[m..][q - m];
  }

  /** A sorted prefix below a sorted suffix makes a sorted sequence. */
  lemma SortedAt<T>(s: seq<T>, m: nat, cmp: (T, T) -> int)
    requires m <= |s| && Sorted(s[..m], cmp) && Sorted(s[m..], cmp) && Below(s, m, cmp)
    ensures Sorted(s, cmp)
  {
    forall p, q | 0 <= p < q < |s|
      ensures cmp(s[p], s[q]) <= 0
    {
      if q < m {
        assert s[p] == s[..m][p] && s[q] == s[..m][q];
      } else if m <= p {
        assert s[p] == s[m..][p - m] && s[q] == s[m..][q - m];
      }
    }
  }
}
