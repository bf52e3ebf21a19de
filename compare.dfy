/**
 * The comparators of compare.c.  Each reads two values of one C type and
 * returns an int whose sign orders them.  Values are modelled as the
 * mathematical integers they denote; char is signed on the targets the
 * library is built for.
 */
module Compare {
  import opened Common

  /** r orders a and b: negative, zero or positive as a is below, equal to or above b. */
  predicate Orders(r: int, a: int, b: int)
  {
    (r < 0 <==> a < b) && (r == 0 <==> a == b) && (r > 0 <==> a > b)
  }

  /**
   * compare_char, compare_uchar and compare_short: both operands are
   * promoted to int, whose range holds their difference, so the result is
   * the exact difference and its sign is always right.
   */
  function PromotedDifference(a: int16, b: int16): (r: int)
    ensures Orders(r, a, b)
    ensures -0x8000_0000 <= r < 0x8000_0000
  {
    a - b
  }

  /**
   * compare_ushort, compare_uint, compare_long, compare_ulong and
   * compare_ptr (addresses as numbers): (a < b) ? -1 : (a > b), which is
   * -1, 0 or 1.
   */
  function ThreeWay(a: int, b: int): (r: int)
    ensures r == -1 || r == 0 || r == 1
    ensures Orders(r, a, b)
  {
    if a < b then -1 else if a > b then 1 else 0
  }

  /**
   * compare_int and map_compare_int: the int subtraction a - b.  Signed
   * overflow is undefined in C; the model takes the two's-complement
   * wrap-around the targets perform.  The result is zero exactly for equal
   * operands, and its sign is right whenever the difference fits in an int.
   */
  function CompareInt(a: int32, b: int32): (r: int32)
    ensures r == 0 <==> a == b
    ensures -0x8000_0000 <= a - b < 0x8000_0000 ==> Orders(r, a, b)
  {
    Wrap32(a - b)
  }

  /** compare_int misorders operands whose difference overflows: INT_MAX compares below -1. */
  lemma CompareIntOverflow()
    ensures CompareInt(0x7fff_ffff, -1) < 0
    ensures CompareInt(-0x8000_0000, 1) > 0
  {
  }

  /** The comparison compare_int evidently intends: the three-way result, right for every pair of ints. */
  function CompareIntOrdered(a: int32, b: int32): (r: int32)
    ensures r == -1 || r == 0 || r == 1
    ensures Orders(r, a, b)
  {
    ThreeWay(a, b)
  }

  /** The ASCII-lower-cased characters of a string. */
  function Lowered(s: Bytes): (r: Bytes)
    ensures |r| == |s|
    ensures forall i :: 0 <= i < |s| ==> r[i] == ToLower(s[i])
  {
    if s == [] then [] else [ToLower(s[0])] + Lowered(s[1..])
  }

  /** The character at the head of a string, or the terminating NUL when it is empty. */
  function Head(s: Bytes): byte
  {
    if s == [] then 0 else s[0]
  }

  /**
   * What compare_str_case returns for the characters s1 and s2: the
   * difference of the lower-cased bytes at the first position where they
   * differ, the terminating NUL counting as 0.
   */
  function CaseDiff(s1: Bytes, s2: Bytes): int
  {
    if s1 == [] || s2 == [] || ToLower(s1[0]) != ToLower(s2[0]) then ToLower(Head(s1)) - ToLower(Head(s2))
    else CaseDiff(s1[1..], s2[1..])
  }

  /** compare_strn_case: as CaseDiff but gives 0 once n characters matched. */
  function CaseDiffN(s1: Bytes, s2: Bytes, n: nat): int
  {
    if n == 0 then 0
    else if s1 == [] || s2 == [] || ToLower(s1[0]) != ToLower(s2[0]) then ToLower(Head(s1)) - ToLower(Head(s2))
    else CaseDiffN(s1[1..], s2[1..], n - 1)
  }

  /** The first n characters of a string, or all of it when it is shorter. */
  function Take(s: Bytes, n: nat): (r: Bytes)
    ensures |r| == Min(n, |s|) && r == s[..|r|]
  {
    s[..Min(n, |s|)]
  }

  /** Two strings without NUL compare zero case-insensitively exactly when their lower-cased forms are equal. */
  lemma {:induction false} CaseDiffZero(s1: Bytes, s2: Bytes)
    requires 0 !in s1 && 0 !in s2
    ensures CaseDiff(s1, s2) == 0 <==> Lowered(s1) == Lowered(s2)
  {
    if s1 != [] && s2 != [] {
      if ToLower(s1[0]) == ToLower(s2[0]) {
        assert s1[0] in s1 && s2[0] in s2;
        CaseDiffZero(s1[1..], s2[1..]);
        assert Lowered(s1) == [ToLower(s1[0])] + Lowered(s1[1..]);
        assert Lowered(s2) == [ToLower(s2[0])] + Lowered(s2[1..]);
      } else {
        assert Lowered(s1)[0] != Lowered(s2)[0];
      }
    } else if s1 != [] {
      assert s1[0] in s1;
    } else if s2 != [] {
      assert s2[0] in s2;
    }
  }

  /** compare_strn_case is zero exactly when the first n characters of both agree after lower-casing. */
  lemma {:induction false} CaseDiffNZero(s1: Bytes, s2: Bytes, n: nat)
    requires 0 !in s1 && 0 !in s2
    ensures CaseDiffN(s1, s2, n) == 0 <==> Lowered(Take(s1, n)) == Lowered(Take(s2, n))
  {
    if n == 0 {
    } else if s1 != [] && s2 != [] {
      if ToLower(s1[0]) == ToLower(s2[0]) {
        assert s1[0] in s1 && s2[0] in s2;
        CaseDiffNZero(s1[1..], s2[1..], n - 1);
        LoweredTake(s1, n);
        LoweredTake(s2, n);
      } else {
        assert Lowered(Take(s1, n))[0] != Lowered(Take(s2, n))[0];
      }
    } else if s1 != [] {
      assert s1[0] in s1;
      assert |Take(s1, n)| != |Take(s2, n)|;
    } else if s2 != [] {
      assert s2[0] in s2;
      assert |Take(s1, n)| != |Take(s2, n)|;
    }
  }

  lemma LoweredTake(s: Bytes, n: nat)
    requires s != [] && n > 0
    ensures Lowered(Take(s, n)) == [ToLower(s[0])] + Lowered(Take(s[1..], n - 1))
  {
    assert Take(s, n) == [s[0]] + Take(s[1..], n - 1);
  }

  /**
   * compare_str_case on two NUL-terminated buffers: walk both while
   * neither has ended and the lower-cased bytes agree.
   */
  method CompareStrCase(a: Bytes, b: Bytes) returns (r: int)
    requires Terminated(a) && Terminated(b)
    ensures r == CaseDiff(Chars(a), Chars(b))
    ensures r == 0 <==> Lowered(Chars(a)) == Lowered(Chars(b))
  {
    ghost var ca, cb := Chars(a), Chars(b);
    var i := 0;
    while a[i] != 0 && b[i] != 0
      invariant i <= |ca| && i <= |cb|
      invariant CaseDiff(ca[i..], cb[i..]) == CaseDiff(ca, cb)
      decreases |ca| - i
    {
      var c1: int, c2: int := ToLower(a[i]), ToLower(b[i]);
      if c1 != c2 {
        return c1 - c2;
      }
      Step(ca, i);
      Step(cb, i);
      i := i + 1;
    }
    r := ToLower(a[i]) - ToLower(b[i]);
    CaseDiffZero(ca, cb);
  }

  /**
   * compare_strn_case: as compare_str_case but looking at no more than n
   * characters, returning 0 once n of them matched.
   */
  method CompareStrnCase(a: Bytes, b: Bytes, n: nat) returns (r: int)
    requires Terminated(a) && Terminated(b)
    ensures r == CaseDiffN(Chars(a), Chars(b), n)
    ensures r == 0 <==> Lowered(Take(Chars(a), n)) == Lowered(Take(Chars(b), n))
  {
    ghost var ca, cb := Chars(a), Chars(b);
    var i, m := 0, n;
    while m > 0 && a[i] != 0 && b[i] != 0
      invariant i <= |ca| && i <= |cb| && i + m == n
      invariant CaseDiffN(ca[i..], cb[i..], m) == CaseDiffN(ca, cb, n)
      decreases m
    {
      var c1: int, c2: int := ToLower(a[i]), ToLower(b[i]);
      if c1 != c2 {
        return c1 - c2;
      }
      Step(ca, i);
      Step(cb, i);
      i, m := i + 1, m - 1;
    }
    r := if m == 0 then 0 else ToLower(a[i]) - ToLower(b[i]);
    CaseDiffNZero(ca, cb, n);
  }

  lemma Step(s: Bytes, i: nat)
    requires i < |s|
    ensures s[i..] != [] && s[i..][0] == s[i] && s[i..][1..] == s[i + 1..]
  {
  }

  /**
   * compare_array: compare length elements pairwise with the caller's
   * comparator and return the first nonzero result, or 0 when every pair
   * compares equal.
   */
  method CompareArray<T>(a: seq<T>, b: seq<T>, length: nat, cmp: (T, T) -> int) returns (r: int)
    requires length <= |a| && length <= |b|
    ensures r == 0 <==> forall i :: 0 <= i < length ==> cmp(a[i], b[i]) == 0
    ensures r != 0 ==> exists j :: 0 <= j < length && r == cmp(a[j], b[j]) &&
                                   forall i :: 0 <= i < j ==> cmp(a[i], b[i]) == 0
  {
    for i := 0 to length
      invariant forall k :: 0 <= k < i ==> cmp(a[k], b[k]) == 0
    {
      var result := cmp(a[i], b[i]);
      if result != 0 {
        return result;
      }
    }
    return 0;
  }
}
