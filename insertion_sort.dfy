/**
 * insertion_sort of insertion_sort.c on an array of elements.  The key
 * buffer of elem_size bytes is the only allocation; allocOk says whether it
 * succeeds.
 */
module InsertionSort {
  import opened Common
  import opened SortSpec

  /**
   * insertion_sort: nothing happens for fewer than two elements or when the
   * key buffer cannot be allocated.  Otherwise each element from index 1 on
   * is taken out, the elements before it that compare above it move one
   * slot right, and it is put in the gap.  The result is sorted, and stable
   * since the key passes only elements comparing above it.
   */
  method InsertionSort<T(!new)>(a: array<T>, cmp: (T, T) -> int, allocOk: bool)
    requires TotalPreorder(cmp)
    modifies a
    ensures a.Length < 2 || !allocOk ==> a[..] == old(a[..])
    ensures allocOk ==> Sorted(a[..], cmp)
    ensures Stable(old(a[..]), a[..], cmp)
    ensures multiset(a[..]) == multiset(old(a[..]))
  {
    if a.Length < 2 || !allocOk {
      return;
    }
    for i := 1 to a.Length
      invariant Stable(old(a[..]), a[..], cmp)
      invariant Sorted(a[..i], cmp)
    {
      ghost var s := a[..];
      var h := Insert(a, i, cmp);
      Placed(s, i, h, cmp);
      StableTrans(old(a[..]), s, a[..], cmp);
    }
    assert a[..] == a[..a.Length];
    StablePermutation(old(a[..]), a[..], cmp);
  }

  /**
   * One step of the outer loop: the key a[i] is copied out, j runs down from
   * i - 1 while a[j] compares above the key, moving a[j] to j + 1, and the
   * key is stored at j + 1.  h is that final slot j + 1.
   */
  method Insert<T(!new)>(a: array<T>, i: nat, cmp: (T, T) -> int) returns (h: nat)
    requires i < a.Length
    modifies a
    ensures h <= i
    ensures a[..] == old(a[..h]) + [old(a[i])] + old(a[h..i]) + old(a[i + 1..])
    ensures h > 0 ==> cmp(old(a[h - 1]), old(a[i])) <= 0
    ensures forall q :: h <= q < i ==> cmp(old(a[q]), old(a[i])) > 0
  {
    ghost var s := a[..];
    var key := a[i];
    var j: int := i - 1;
    while j >= 0 && cmp(a[j], key) > 0
      invariant -1 <= j < i
      invariant forall q :: 0 <= q <= j ==> a[q] == s[q]
      invariant forall q :: j + 1 < q <= i ==> a[q] == s[q - 1]
      invariant forall q :: i < q < a.Length ==> a[q] == s[q]
      invariant forall q :: j < q < i ==> cmp(s[q], key) > 0
    {
      a[j + 1] := a[j];
      j := j - 1;
    }
    a[j + 1] := key;
    h := j + 1;
    Shifted(s, a[..], i, h);
  }

  /** The array after the shift and the store, as the four pieces it is made of. */
  lemma Shifted<T>(s: seq<T>, t: seq<T>, i: nat, h: nat)
    requires h <= i < |s| == |t|
    requires forall q :: 0 <= q < h ==> t[q] == s[q]
    requires t[h] == s[i]
    requires forall q :: h < q <= i ==> t[q] == s[q - 1]
    requires forall q :: i < q < |s| ==> t[q] == s[q]
    ensures t == s[..h] + [s[i]] + s[h..i] + s[i + 1..]
  {
  }

  /**
   * Putting s[i] at slot h of a sorted prefix s[..i], after the elements
   * not above it and before those above it, gives a sorted prefix s[..i + 1]
   * and a stable rearrangement.
   */
  lemma Placed<T(!new)>(s: seq<T>, i: nat, h: nat, cmp: (T, T) -> int)
    requires TotalPreorder(cmp) && h <= i < |s| && Sorted(s[..i], cmp)
    requires h > 0 ==> cmp(s[h - 1], s[i]) <= 0
    requires forall q :: h <= q < i ==> cmp(s[q], s[i]) > 0
    ensures Sorted((s[..h] + [s[i]] + s[h..i] + s[i + 1..])[..i + 1], cmp)
    ensures Stable(s, s[..h] + [s[i]] + s[h..i] + s[i + 1..], cmp)
  {
    Pieces(s, h, i);
    PlacedStable(s, s[..h], s[h..i], s[i], s[i + 1..], cmp);
    NotAboveKey(s[..i], h, s[i], cmp);
    KeyBelow(s[..i], h, s[i], cmp);
    PlacedSorted(s[..i], h, s[i], cmp);
  }

  lemma Pieces<T>(s: seq<T>, h: nat, i: nat)
    requires h <= i < |s|
    ensures s == s[..h] + s[h..i] + [s[i]] + s[i + 1..]
    ensures s[..i][..h] == s[..h] && s[..i][h..] == s[h..i]
    ensures (s[..h] + [s[i]] + s[h..i] + s[i + 1..])[..i + 1] == s[..h] + [s[i]] + s[h..i]
  {
  }

  lemma PlacedStable<T(!new)>(s: seq<T>, a: seq<T>, b: seq<T>, k: T, c: seq<T>, cmp: (T, T) -> int)
    requires TotalPreorder(cmp) && s == a + b + [k] + c
    requires forall q :: 0 <= q < |b| ==> cmp(b[q], k) > 0
    ensures Stable(s, a + [k] + b + c, cmp)
  {
    MoveBeforeStable(a, b, k, cmp);
    StableAppend(a + b + [k], a + [k] + b, c, cmp);
  }

  /** In a sorted run whose element h - 1 is not above k, no element before h is above k. */
  lemma NotAboveKey<T(!new)>(p: seq<T>, h: nat, k: T, cmp: (T, T) -> int)
    requires TotalPreorder(cmp) && h <= |p| && Sorted(p, cmp)
    requires h > 0 ==> cmp(p[h - 1], k) <= 0
    ensures forall q :: 0 <= q < h ==> cmp(p[q], k) <= 0
  {
    forall q | 0 <= q < h
      ensures cmp(p[q], k) <= 0
    {
      if q < h - 1 {
        assert cmp(p[q], p[h - 1]) <= 0;
      }
    }
  }

  /** Elements comparing above k have k not above them. */
  lemma KeyBelow<T(!new)>(p: seq<T>, h: nat, k: T, cmp: (T, T) -> int)
    requires TotalPreorder(cmp) && h <= |p|
    requires forall q :: h <= q < |p| ==> cmp(p[q], k) > 0
    ensures forall q :: h <= q < |p| ==> cmp(k, p[q]) <= 0
  {
    forall q | h <= q < |p|
      ensures cmp(k, p[q]) <= 0
    {
      assert cmp(k, p[q]) < 0 <==> cmp(p[q], k) > 0;
    }
  }

  lemma PlacedSorted<T>(p: seq<T>, h: nat, k: T, cmp: (T, T) -> int)
    requires h <= |p| && Sorted(p, cmp)
    requires forall q :: 0 <= q < h ==> cmp(p[q], k) <= 0
    requires forall q :: h <= q < |p| ==> cmp(k, p[q]) <= 0
    ensures Sorted(p[..h] + [k] + p[h..], cmp)
  {
    var t := p[..h] + [k] + p[h..];
    forall x, y | 0 <= x < y < |t|
      ensures cmp(t[x], t[y]) <= 0
    {
      if y < h {
        assert t[x] == p[x] && t[y] == p[y];
      } else if y == h {
        assert t[x] == p[x];
      } else if x == h {
        assert t[y] == p[y - 1];
      } else if x < h {
        assert t[x] == p[x] && t[y] == p[y - 1];
      } else {
        assert t[x] == p[x - 1] && t[y] == p[y - 1];
      }
    }
  }
}
