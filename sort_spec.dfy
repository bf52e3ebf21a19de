/**
 * What the sorts of src/sort promise, stated on sequences of elements and a
 * caller-supplied comparator assumed to be a total preorder: sortedness,
 * being a permutation, and stability (elements comparing equal keep their
 * relative order).
 */
module SortSpec {
  import opened Common

  /** No element compares above an element after it. */
  ghost predicate Sorted<T>(s: seq<T>, cmp: (T, T) -> int)
  {
    forall i, j :: 0 <= i < j < |s| ==> cmp(s[i], s[j]) <= 0
  }

  /** The elements of s that compare equal to x, in their order in s. */
  function Ties<T>(s: seq<T>, x: T, cmp: (T, T) -> int): (r: seq<T>)
    ensures |r| <= |s|
    ensures forall i :: 0 <= i < |r| ==> cmp(r[i], x) == 0
  {
    if s == [] then [] else (if cmp(s[0], x) == 0 then [s[0]] else []) + Ties(s[1..], x, cmp)
  }

  /** out keeps, for every class of elements comparing equal, the order those elements had in in. */
  ghost predicate Stable<T(!new)>(input: seq<T>, output: seq<T>, cmp: (T, T) -> int)
  {
    forall x :: Ties(output, x, cmp) == Ties(input, x, cmp)
  }

  /** Stability composes: two stable steps make a stable whole. */
  lemma StableTrans<T(!new)>(s0: seq<T>, s1: seq<T>, s2: seq<T>, cmp: (T, T) -> int)
    requires Stable(s0, s1, cmp) && Stable(s1, s2, cmp)
    ensures Stable(s0, s2, cmp)
  {
    forall x
      ensures Ties(s2, x, cmp) == Ties(s0, x, cmp)
    {
      assert Ties(s2, x, cmp) == Ties(s1, x, cmp);
    }
  }

  /** Appending the same elements to both sides keeps a rearrangement stable. */
  lemma StableAppend<T(!new)>(s: seq<T>, t: seq<T>, c: seq<T>, cmp: (T, T) -> int)
    requires Stable(s, t, cmp)
    ensures Stable(s + c, t + c, cmp)
  {
    forall x
      ensures Ties(t + c, x, cmp) == Ties(s + c, x, cmp)
    {
      TiesAppend(s, c, x, cmp);
      TiesAppend(t, c, x, cmp);
    }
  }

  /** Rearranging two blocks stably, each on its own, rearranges their concatenation stably. */
  lemma StableConcat<T(!new)>(a: seq<T>, a': seq<T>, b: seq<T>, b': seq<T>, cmp: (T, T) -> int)
    requires Stable(a, a', cmp) && Stable(b, b', cmp)
    ensures Stable(a + b, a' + b', cmp)
  {
    forall x
      ensures Ties(a' + b', x, cmp) == Ties(a + b, x, cmp)
    {
      TiesAppend(a, b, x, cmp);
      TiesAppend(a', b', x, cmp);
    }
  }

  /** A total preorder compares every element equal to itself. */
  lemma Reflexive<T(!new)>(cmp: (T, T) -> int, x: T)
    requires TotalPreorder(cmp)
    ensures cmp(x, x) == 0
  {
    assert cmp(x, x) < 0 <==> cmp(x, x) > 0;
  }

  /** Two elements comparing equal to the same element compare equal to each other. */
  lemma TieTransitive<T(!new)>(cmp: (T, T) -> int, a: T, b: T, x: T)
    requires TotalPreorder(cmp) && cmp(a, x) == 0 && cmp(b, x) == 0
    ensures cmp(a, b) <= 0 && cmp(b, a) <= 0
  {
    assert cmp(x, b) <= 0 && cmp(x, a) <= 0 by {
      assert cmp(b, x) < 0 <==> cmp(x, b) > 0;
      assert cmp(a, x) < 0 <==> cmp(x, a) > 0;
    }
  }

  /** The ties of a concatenation are the ties of its parts. */
  lemma {:induction false} TiesAppend<T>(a: seq<T>, b: seq<T>, x: T, cmp: (T, T) -> int)
    ensures Ties(a + b, x, cmp) == Ties(a, x, cmp) + Ties(b, x, cmp)
  {
    if a == [] {
      assert a + b == b;
    } else {
      assert (a + b)[0] == a[0] && (a + b)[1..] == a[1..] + b;
      TiesAppend(a[1..], b, x, cmp);
    }
  }

  lemma TiesSingle<T>(y: T, x: T, cmp: (T, T) -> int)
    ensures Ties([y], x, cmp) == if cmp(y, x) == 0 then [y] else []
  {
    assert [y][1..] == [];
  }

  /** The ties of a nonempty sequence: those of its first element, then those of the rest. */
  lemma TiesHead<T>(s: seq<T>, x: T, cmp: (T, T) -> int)
    requires s != []
    ensures Ties(s, x, cmp) == Ties([s[0]], x, cmp) + Ties(s[1..], x, cmp)
  {
    TiesSingle(s[0], x, cmp);
  }

  /** An element put in front of a sequence whose ties are those of l then r. */
  lemma TiesCons<T>(h: T, m: seq<T>, l: seq<T>, r: seq<T>, x: T, cmp: (T, T) -> int)
    requires Ties(m, x, cmp) == Ties(l, x, cmp) + Ties(r, x, cmp)
    ensures Ties([h] + m, x, cmp) == Ties([h], x, cmp) + Ties(l, x, cmp) + Ties(r, x, cmp)
  {
    TiesAppend([h], m, x, cmp);
  }

  /** Ties of three consecutive parts. */
  lemma TiesAppend3<T>(a: seq<T>, b: seq<T>, c: seq<T>, x: T, cmp: (T, T) -> int)
    ensures Ties(a + b + c, x, cmp) == Ties(a, x, cmp) + Ties(b, x, cmp) + Ties(c, x, cmp)
  {
    TiesAppend(a + b, c, x, cmp);
    TiesAppend(a, b, x, cmp);
  }

  /** How often y occurs in s is how often it occurs among the ties of y. */
  lemma {:induction false} CountInTies<T(!new)>(s: seq<T>, y: T, cmp: (T, T) -> int)
    requires TotalPreorder(cmp)
    ensures multiset(Ties(s, y, cmp))[y] == multiset(s)[y]
  {
    if s != [] {
      CountInTies(s[1..], y, cmp);
      assert s == [s[0]] + s[1..];
      Reflexive(cmp, y);
    }
  }

  /** A stable rearrangement is a permutation. */
  lemma StablePermutation<T(!new)>(input: seq<T>, output: seq<T>, cmp: (T, T) -> int)
    requires TotalPreorder(cmp) && Stable(input, output, cmp)
    ensures multiset(output) == multiset(input)
  {
    forall y
      ensures multiset(output)[y] == multiset(input)[y]
    {
      CountInTies(output, y, cmp);
      CountInTies(input, y, cmp);
    }
  }

  /** Elements of which one compares above the other are never both tied with one element. */
  lemma NotBothTied<T(!new)>(cmp: (T, T) -> int, y: T, z: T, x: T)
    requires TotalPreorder(cmp) && cmp(y, z) > 0
    ensures !(cmp(y, x) == 0 && cmp(z, x) == 0)
  {
    if cmp(y, x) == 0 && cmp(z, x) == 0 {
      TieTransitive(cmp, y, z, x);
    }
  }

  /**
   * Exchanging two neighbours of which the first compares above the second
   * keeps every class in order: they cannot both compare equal to one
   * element.
   */
  lemma SwapStable<T(!new)>(s: seq<T>, j: nat, cmp: (T, T) -> int)
    requires TotalPreorder(cmp) && j + 1 < |s| && cmp(s[j], s[j + 1]) > 0
    ensures Stable(s, s[j := s[j + 1]][j + 1 := s[j]], cmp)
  {
    var a, y, z, b := s[..j], s[j], s[j + 1], s[j + 2..];
    assert s == a + [y, z] + b;
    assert s[j := z][j + 1 := y] == a + [z, y] + b;
    forall x
      ensures Ties(a + [z, y] + b, x, cmp) == Ties(a + [y, z] + b, x, cmp)
    {
      NotBothTied(cmp, y, z, x);
      SwapTies(a, y, z, b, x, cmp);
    }
  }

  lemma SwapTies<T>(a: seq<T>, y: T, z: T, b: seq<T>, x: T, cmp: (T, T) -> int)
    requires !(cmp(y, x) == 0 && cmp(z, x) == 0)
    ensures Ties(a + [z, y] + b, x, cmp) == Ties(a + [y, z] + b, x, cmp)
  {
    TiesAppend3(a, [y, z], b, x, cmp);
    TiesAppend3(a, [z, y], b, x, cmp);
    assert [y, z] == [y] + [z] && [z, y] == [z] + [y];
    TiesAppend([y], [z], x, cmp);
    TiesAppend([z], [y], x, cmp);
    TiesSingle(y, x, cmp);
    TiesSingle(z, x, cmp);
  }

  /** A block whose elements all compare above k has no element tied with anything tied with k. */
  lemma NoTiesAbove<T(!new)>(b: seq<T>, k: T, x: T, cmp: (T, T) -> int)
    requires TotalPreorder(cmp) && cmp(k, x) == 0
    requires forall i :: 0 <= i < |b| ==> cmp(b[i], k) > 0
    ensures Ties(b, x, cmp) == []
  {
    if Ties(b, x, cmp) != [] {
      var y := Ties(b, x, cmp)[0];
      TiesMember(b, x, cmp, y);
      assert false;
    }
  }

  /**
   * Moving k in front of a block whose elements all compare above k keeps
   * every class in order.
   */
  lemma MoveBeforeStable<T(!new)>(a: seq<T>, b: seq<T>, k: T, cmp: (T, T) -> int)
    requires TotalPreorder(cmp)
    requires forall i :: 0 <= i < |b| ==> cmp(b[i], k) > 0
    ensures Stable(a + b + [k], a + [k] + b, cmp)
  {
    forall x
      ensures Ties(a + [k] + b, x, cmp) == Ties(a + b + [k], x, cmp)
    {
      if cmp(k, x) == 0 {
        NoTiesAbove(b, k, x, cmp);
      }
      MoveTies(a, b, k, x, cmp);
    }
  }

  lemma MoveTies<T>(a: seq<T>, b: seq<T>, k: T, x: T, cmp: (T, T) -> int)
    requires cmp(k, x) == 0 ==> Ties(b, x, cmp) == []
    ensures Ties(a + [k] + b, x, cmp) == Ties(a + b + [k], x, cmp)
  {
    TiesAppend3(a, [k], b, x, cmp);
    TiesAppend3(a, b, [k], x, cmp);
    TiesSingle(k, x, cmp);
  }

  /** Every tie is an element of the sequence. */
  lemma {:induction false} TiesMember<T>(s: seq<T>, x: T, cmp: (T, T) -> int, y: T)
    requires y in Ties(s, x, cmp)
    ensures y in s
  {
    if s != [] {
      if y != s[0] {
        TiesMember(s[1..], x, cmp, y);
      }
    }
  }

  /** Sorted runs a and b, with nothing in a above anything in b, form a sorted run. */
  lemma SortedJoin<T>(a: seq<T>, b: seq<T>, cmp: (T, T) -> int)
    requires Sorted(a, cmp) && Sorted(b, cmp)
    requires forall i, j :: 0 <= i < |a| && 0 <= j < |b| ==> cmp(a[i], b[j]) <= 0
    ensures Sorted(a + b, cmp)
  {
  }
}
