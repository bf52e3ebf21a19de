/**
 * radix_sort of radix_sort.c: a least-significant-digit radix sort of C
 * ints, one counting sort per decimal digit.  Divisions are C's, truncating
 * toward zero, so a negative element can give a negative digit, which
 * would index the count table out of bounds; so would multiplying the
 * digit weight past INT_MAX.  The model stops and reports `defined ==
 * false` where the C code would reach either undefined behaviour.
 */
module RadixSort {
  import opened Common

  const INT_MAX: int := 0x7FFF_FFFF

  /** C's x / y for a positive y: the quotient truncated toward zero, positive exactly when x >= y. */
  function Quot(x: int, y: int): (q: int)
    requires y > 0
    ensures q > 0 <==> x >= y
  {
    if x >= 0 then
      DivPositive(x, y);
      x / y
    else
      DivPositive(-x, y);
      -((-x) / y)
  }

  /** A non-negative quotient by a positive divisor is positive exactly when the dividend reaches the divisor. */
  lemma DivPositive(x: int, y: int)
    requires x >= 0 && y > 0
    ensures x / y >= 0
    ensures x / y > 0 <==> x >= y
  {
    var q, r := x / y, x % y;
    assert x == q * y + r && 0 <= r < y;
    if q < 0 {
      MulNonNeg(-q, y);
    } else if q == 0 {
    } else {
      MulNonNeg(q - 1, y);
    }
  }

  lemma MulNonNeg(a: int, b: int)
    requires a >= 0 && b >= 0
    ensures a * b >= 0
  {
  }

  /**
   * The digit counting_sort buckets x by, (x / exp) % 10 in C: the decimal
   * digit of weight exp for a non-negative x; for a negative x, C's
   * truncating division and remainder make it zero or negative.
   */
  function Digit(x: int, exp: int): (d: int)
    requires exp > 0
    ensures -9 <= d <= 9
    ensures d < 0 ==> x < 0
  {
    if x >= 0 then (x / exp) % 10 else -(((-x) / exp) % 10)
  }

  /** The digit of weight exp as a key for counting sort. */
  function DigitOf(exp: int): (key: int32 -> int)
    requires exp > 0
    ensures forall x: int32 :: key(x) == Digit(x, exp)
  {
    x => Digit(x, exp)
  }

  /** The residue modulo m as a sort key. */
  function ModOf(m: int): (key: int32 -> int)
    requires m > 0
    ensures forall x: int32 :: 0 <= key(x) < m
  {
    x => x % m
  }

  /** The elements of s whose key is d, in their order in s. */
  function Bucket<T>(s: seq<T>, key: T -> int, d: int): (r: seq<T>)
    decreases |s|
  {
    if s == [] then []
    else Bucket(s[..|s| - 1], key, d) + (if key(s[|s| - 1]) == d then [s[|s| - 1]] else [])
  }

  /** How many elements of s have a key in 0 .. d-1: where bucket d starts. */
  function Start<T>(s: seq<T>, key: T -> int, d: int): (n: nat)
    requires 0 <= d <= 10
  {
    if d == 0 then 0 else Start(s, key, d - 1) + |Bucket(s, key, d - 1)|
  }

  /** The elements of s with keys d .. 9, bucket after bucket: what counting_sort produces. */
  function Buckets<T>(s: seq<T>, key: T -> int, d: int): (r: seq<T>)
    requires 0 <= d <= 10
    decreases 10 - d
  {
    if d == 10 then [] else Bucket(s, key, d) + Buckets(s, key, d + 1)
  }

  /** Every key is a valid index into the count table. */
  ghost predicate KeysInRange<T>(s: seq<T>, key: T -> int)
  {
    forall i :: 0 <= i < |s| ==> 0 <= key(s[i]) < 10
  }

  /** s is in ascending order of f. */
  ghost predicate SortedBy<T>(s: seq<T>, f: T -> int)
  {
    forall i, j :: 0 <= i < j < |s| ==> f(s[i]) <= f(s[j])
  }

  /** Every element of s is non-negative. */
  ghost predicate AllNonNegative(s: seq<int32>)
  {
    forall i :: 0 <= i < |s| ==> s[i] >= 0
  }

  /** s is in ascending order. */
  ghost predicate Ascending(s: seq<int32>)
  {
    forall i, j :: 0 <= i < j < |s| ==> s[i] <= s[j]
  }

  /** The bucket of a concatenation is made of the buckets of its parts. */
  lemma {:induction false} BucketAppend<T>(s: seq<T>, t: seq<T>, key: T -> int, d: int)
    ensures Bucket(s + t, key, d) == Bucket(s, key, d) + Bucket(t, key, d)
    decreases |t|
  {
    if t == [] {
      assert s + t == s;
    } else {
      var u := t[..|t| - 1];
      assert (s + t)[..|s + t| - 1] == s + u;
      assert (s + t)[|s + t| - 1] == t[|t| - 1];
      BucketAppend(s, u, key, d);
    }
  }

  /** Adding s[i] to the prefix s[..i] adds it to its own bucket only. */
  lemma BucketNext<T>(s: seq<T>, key: T -> int, i: nat, d: int)
    requires i < |s|
    ensures Bucket(s[..i + 1], key, d) == Bucket(s[..i], key, d) + (if key(s[i]) == d then [s[i]] else [])
  {
    assert s[..i + 1][..i] == s[..i];
  }

  /**
   * Within the bucket of s[i], the elements from s[..i] come first and
   * s[i] right after them.
   */
  lemma NextInBucket<T>(s: seq<T>, key: T -> int, i: nat)
    requires i < |s|
    ensures |Bucket(s[..i], key, key(s[i]))| < |Bucket(s, key, key(s[i]))|
    ensures Bucket(s, key, key(s[i]))[|Bucket(s[..i], key, key(s[i]))|] == s[i]
  {
    var d := key(s[i]);
    BucketNext(s, key, i, d);
    assert s == s[..i + 1] + s[i + 1..];
    BucketAppend(s[..i + 1], s[i + 1..], key, d);
  }

  /** Buckets start in key order. */
  lemma {:induction false} StartMonotone<T>(s: seq<T>, key: T -> int, d: int, e: int)
    requires 0 <= d <= e <= 10
    ensures Start(s, key, d) <= Start(s, key, e)
    decreases e - d
  {
    if d < e {
      StartMonotone(s, key, d, e - 1);
    }
  }

  /** Adding an element x at the end moves the start of every bucket above x's key by one. */
  lemma {:induction false} StartSnoc<T>(s: seq<T>, x: T, key: T -> int, d: int)
    requires 0 <= d <= 10
    ensures Start(s + [x], key, d) == Start(s, key, d) + (if 0 <= key(x) < d then 1 else 0)
  {
    if d > 0 {
      StartSnoc(s, x, key, d - 1);
      assert (s + [x])[..|s + [x]| - 1] == s;
    }
  }

  /** No bucket of the empty sequence starts anywhere but 0. */
  lemma {:induction false} StartEmpty<T>(key: T -> int, d: int)
    requires 0 <= d <= 10
    ensures Start([], key, d) == 0
  {
    if d > 0 {
      StartEmpty(key, d - 1);
    }
  }

  /** The buckets from d on hold the elements from where bucket d starts. */
  lemma {:induction false} BucketsLength<T>(s: seq<T>, key: T -> int, d: int)
    requires 0 <= d <= 10
    ensures |Buckets(s, key, d)| == Start(s, key, 10) - Start(s, key, d)
    decreases 10 - d
  {
    if d < 10 {
      BucketsLength(s, key, d + 1);
    }
  }

  /** When every key is in range, the ten buckets hold all elements. */
  lemma {:induction false} StartAll<T>(s: seq<T>, key: T -> int)
    requires KeysInRange(s, key)
    ensures Start(s, key, 10) == |s|
    decreases |s|
  {
    if s == [] {
      StartEmpty(key, 10);
    } else {
      var u, x := s[..|s| - 1], s[|s| - 1];
      StartAll(u, key);
      StartSnoc(u, x, key, 10);
      assert u + [x] == s;
    }
  }

  /** Position p of the buckets from e on, when p lies in bucket d, holds an element of bucket d. */
  lemma {:induction false} BucketAt<T>(s: seq<T>, key: T -> int, e: int, d: int, p: int)
    requires 0 <= e <= d < 10
    requires Start(s, key, d) <= p < Start(s, key, d + 1)
    ensures 0 <= p - Start(s, key, e) < |Buckets(s, key, e)|
    ensures Buckets(s, key, e)[p - Start(s, key, e)] == Bucket(s, key, d)[p - Start(s, key, d)]
    decreases d - e
  {
    StartMonotone(s, key, e, d);
    StartMonotone(s, key, d + 1, 10);
    BucketsLength(s, key, e);
    var w, k, rest := Bucket(s, key, e), p - Start(s, key, e), Buckets(s, key, e + 1);
    assert Buckets(s, key, e) == w + rest;
    assert Start(s, key, e + 1) == Start(s, key, e) + |w|;
    if e < d {
      StartMonotone(s, key, e + 1, d);
      BucketAt(s, key, e + 1, d, p);
      assert (w + rest)[k] == rest[k - |w|];
    } else {
      assert (w + rest)[k] == w[k];
    }
  }

  lemma BucketAtZero<T>(s: seq<T>, key: T -> int, d: int, p: int)
    requires 0 <= d < 10
    requires Start(s, key, d) <= p < Start(s, key, d + 1)
    ensures 0 <= p < |Buckets(s, key, 0)|
    ensures Buckets(s, key, 0)[p] == Bucket(s, key, d)[p - Start(s, key, d)]
  {
    BucketAt(s, key, 0, d, p);
  }

  /** The bucket a position below Start(10) lies in. */
  lemma {:induction false} FindBucket<T>(s: seq<T>, key: T -> int, e: int, p: int) returns (d: int)
    requires 0 <= e < 10
    requires Start(s, key, e) <= p < Start(s, key, 10)
    ensures e <= d < 10 && Start(s, key, d) <= p < Start(s, key, d + 1)
    decreases 10 - e
  {
    if p < Start(s, key, e + 1) {
      d := e;
    } else {
      d := FindBucket(s, key, e + 1, p);
    }
  }

  /**
   * The layout counting sort aims at: as many positions as elements, and
   * each position holding an element whose key names the bucket the
   * position lies in.
   */
  lemma BucketsLayout<T>(s: seq<T>, key: T -> int)
    requires KeysInRange(s, key)
    ensures |Buckets(s, key, 0)| == |s| == Start(s, key, 10)
    ensures forall p :: 0 <= p < |s| ==>
              0 <= key(Buckets(s, key, 0)[p]) < 10 &&
              Start(s, key, key(Buckets(s, key, 0)[p])) <= p < Start(s, key, key(Buckets(s, key, 0)[p]) + 1)
  {
    StartAll(s, key);
    BucketsLength(s, key, 0);
    forall p | 0 <= p < |s|
      ensures 0 <= key(Buckets(s, key, 0)[p]) < 10 &&
              Start(s, key, key(Buckets(s, key, 0)[p])) <= p < Start(s, key, key(Buckets(s, key, 0)[p]) + 1)
    {
      var d := FindBucket(s, key, 0, p);
      BucketAtZero(s, key, d, p);
      BucketMember(s, key, d, p - Start(s, key, d));
    }
  }

  /** How often x occurs in the bucket d. */
  lemma {:induction false} BucketCount<T>(s: seq<T>, key: T -> int, d: int, x: T)
    ensures multiset(Bucket(s, key, d))[x] == if key(x) == d then multiset(s)[x] else 0
    decreases |s|
  {
    if s != [] {
      var u := s[..|s| - 1];
      BucketCount(u, key, d, x);
      assert s == u + [s[|s| - 1]];
    }
  }

  /** How often x occurs in the buckets from d on. */
  lemma {:induction false} BucketsCount<T>(s: seq<T>, key: T -> int, d: int, x: T)
    requires 0 <= d <= 10
    ensures multiset(Buckets(s, key, d))[x] == if d <= key(x) < 10 then multiset(s)[x] else 0
    decreases 10 - d
  {
    if d < 10 {
      BucketsCount(s, key, d + 1, x);
      BucketCount(s, key, d, x);
    }
  }

  /** With every key in range, the buckets are a rearrangement of s. */
  lemma BucketsPermutation<T>(s: seq<T>, key: T -> int)
    requires KeysInRange(s, key)
    ensures multiset(Buckets(s, key, 0)) == multiset(s)
  {
    forall x: T
      ensures multiset(Buckets(s, key, 0))[x] == multiset(s)[x]
    {
      BucketsCount(s, key, 0, x);
      if x in s {
        var i :| 0 <= i < |s| && s[i] == x;
      }
    }
    SameCounts(Buckets(s, key, 0), s);
  }

  /** Sequences in which every element occurs equally often have the same multiset. */
  lemma SameCounts<T>(a: seq<T>, c: seq<T>)
    requires forall x :: multiset(a)[x] == multiset(c)[x]
    ensures multiset(a) == multiset(c)
  {
  }

  /** Every element of a bucket is an element of s with that bucket's key. */
  lemma {:induction false} BucketMember<T>(s: seq<T>, key: T -> int, d: int, k: nat)
    requires k < |Bucket(s, key, d)|
    ensures key(Bucket(s, key, d)[k]) == d
    ensures exists i :: 0 <= i < |s| && s[i] == Bucket(s, key, d)[k]
    decreases |s|
  {
    var u := s[..|s| - 1];
    if k < |Bucket(u, key, d)| {
      BucketMember(u, key, d, k);
      var i :| 0 <= i < |u| && u[i] == Bucket(u, key, d)[k];
      assert s[i] == u[i];
    } else {
      assert Bucket(s, key, d)[k] == s[|s| - 1];
    }
  }

  /** Picking out one bucket keeps an order by f. */
  lemma {:induction false} BucketSorted<T>(s: seq<T>, key: T -> int, d: int, f: T -> int)
    requires SortedBy(s, f)
    ensures SortedBy(Bucket(s, key, d), f)
    decreases |s|
  {
    if s != [] {
      var u := s[..|s| - 1];
      var w := Bucket(u, key, d);
      assert SortedBy(u, f);
      BucketSorted(u, key, d, f);
      forall k | 0 <= k < |w|
        ensures f(w[k]) <= f(s[|s| - 1])
      {
        BucketMember(u, key, d, k);
      }
    }
  }

  /**
   * Counting sort is stable: the buckets are ordered by key, and within a
   * key by any order f the input already had.
   */
  lemma BucketsLex<T>(s: seq<T>, key: T -> int, f: T -> int)
    requires KeysInRange(s, key) && SortedBy(s, f)
    ensures forall i, j :: 0 <= i < j < |Buckets(s, key, 0)| ==>
              var b := Buckets(s, key, 0);
              key(b[i]) < key(b[j]) || (key(b[i]) == key(b[j]) && f(b[i]) <= f(b[j]))
  {
    var b := Buckets(s, key, 0);
    BucketsLayout(s, key);
    forall i, j | 0 <= i < j < |b|
      ensures key(b[i]) < key(b[j]) || (key(b[i]) == key(b[j]) && f(b[i]) <= f(b[j]))
    {
      var di, dj := key(b[i]), key(b[j]);
      if di > dj {
        StartMonotone(s, key, dj + 1, di);
        assert false;
      } else if di == dj {
        SameBucketOrder(s, key, f, di, i, j);
      }
    }
  }

  /** Two positions within one bucket hold elements in the order f the input had. */
  lemma SameBucketOrder<T>(s: seq<T>, key: T -> int, f: T -> int, d: int, i: int, j: int)
    requires SortedBy(s, f) && 0 <= d < 10
    requires Start(s, key, d) <= i < j < Start(s, key, d + 1)
    ensures j < |Buckets(s, key, 0)| && f(Buckets(s, key, 0)[i]) <= f(Buckets(s, key, 0)[j])
  {
    var w, st := Bucket(s, key, d), Start(s, key, d);
    BucketAtZero(s, key, d, i);
    BucketAtZero(s, key, d, j);
    BucketSorted(s, key, d, f);
    assert f(w[i - st]) <= f(w[j - st]);
  }

  /** The residue modulo 10 * exp: the digit of weight exp above the residue modulo exp. */
  lemma ModSplit(x: int, exp: int)
    requires x >= 0 && exp > 0
    ensures x % (10 * exp) == Digit(x, exp) * exp + x % exp
  {
    var q, r := x / exp, x % exp;
    var t, d := q / 10, q % 10;
    assert x == q * exp + r && 0 <= r < exp;
    assert q == 10 * t + d && 0 <= d < 10;
    assert x == t * (10 * exp) + (d * exp + r);
    MulNonNeg(d, exp);
    MulNonNeg(9 - d, exp);
    ModUnique(x, 10 * exp, t, d * exp + r);
  }

  /** Euclidean division has one quotient and remainder. */
  lemma ModUnique(x: int, m: int, t: int, y: int)
    requires 0 <= y < m && x == t * m + y
    ensures x % m == y
  {
    var t', y' := x / m, x % m;
    assert x == t' * m + y' && 0 <= y' < m;
    assert (t - t') * m == y' - y;
    if t > t' {
      MulNonNeg(t - t' - 1, m);
    } else if t < t' {
      MulNonNeg(t' - t - 1, m);
    }
  }

  /**
   * One pass of the radix sort: an order by the residue modulo exp becomes,
   * after stable bucketing by the digit of weight exp, an order by the
   * residue modulo 10 * exp.
   */
  lemma RadixPass(s: seq<int32>, exp: int)
    requires exp > 0 && AllNonNegative(s) && SortedBy(s, ModOf(exp))
    ensures KeysInRange(s, DigitOf(exp))
    ensures SortedBy(Buckets(s, DigitOf(exp), 0), ModOf(10 * exp))
  {
    var key, b := DigitOf(exp), Buckets(s, DigitOf(exp), 0);
    forall i | 0 <= i < |s|
      ensures 0 <= key(s[i]) < 10
    {
      assert s[i] >= 0;
    }
    BucketsLex(s, key, ModOf(exp));
    BucketsPermutation(s, key);
    forall i, j | 0 <= i < j < |b|
      ensures ModOf(10 * exp)(b[i]) <= ModOf(10 * exp)(b[j])
    {
      assert b[i] in multiset(s) && b[j] in multiset(s);
      DigitThenResidue(b[i], b[j], exp);
    }
  }

  /** Comparing by digit first and residue modulo exp next is comparing the residues modulo 10 * exp. */
  lemma DigitThenResidue(x: int, y: int, exp: int)
    requires x >= 0 && y >= 0 && exp > 0
    requires Digit(x, exp) < Digit(y, exp) || (Digit(x, exp) == Digit(y, exp) && x % exp <= y % exp)
    ensures x % (10 * exp) <= y % (10 * exp)
  {
    ModSplit(x, exp);
    ModSplit(y, exp);
    LexWeighted(Digit(x, exp), Digit(y, exp), x % exp, y % exp, exp);
  }

  /** A lexicographic order on (digit, residue) pairs is the order of digit * e + residue. */
  lemma LexWeighted(dx: int, dy: int, rx: int, ry: int, e: int)
    requires 0 <= rx < e && 0 <= ry < e
    requires dx < dy || (dx == dy && rx <= ry)
    ensures dx * e + rx <= dy * e + ry
  {
    if dx < dy {
      MulNonNeg(dy - dx - 1, e);
      assert dy * e - dx * e == (dy - dx - 1) * e + e;
    }
  }

  /** Once every element is below m and non-negative, an order modulo m is the plain order. */
  lemma ResidueIsValue(s: seq<int32>, m: int)
    requires m > 0 && SortedBy(s, ModOf(m))
    requires forall i :: 0 <= i < |s| ==> 0 <= s[i] < m
    ensures Ascending(s)
  {
    forall i, j | 0 <= i < j < |s|
      ensures s[i] <= s[j]
    {
      ModUnique(s[i], m, 0, s[i]);
      ModUnique(s[j], m, 0, s[j]);
      assert ModOf(m)(s[i]) <= ModOf(m)(s[j]);
    }
  }

  /** Where counting sort puts s[i]: the next free slot of its bucket, counted from the front. */
  lemma PlaceSlot<T>(s: seq<T>, key: T -> int, i: nat, d: int, pos: int)
    requires KeysInRange(s, key) && i < |s|
    requires d == key(s[i]) && pos == Start(s, key, d) + |Bucket(s[..i], key, d)|
    ensures Start(s, key, d) <= pos < Start(s, key, d + 1)
    ensures pos < |Buckets(s, key, 0)| && Buckets(s, key, 0)[pos] == s[i]
  {
    assert 0 <= d < 10;
    NextInBucket(s, key, i);
    assert Start(s, key, d + 1) == Start(s, key, d) + |Bucket(s, key, d)|;
    BucketAtZero(s, key, d, pos);
  }

  /** A rearrangement of s keeps every element within the bounds the elements of s keep. */
  lemma WithinBounds(s: seq<int32>, t: seq<int32>, lo: int, hi: int)
    requires multiset(t) == multiset(s)
    requires forall k :: 0 <= k < |s| ==> lo <= s[k] <= hi
    ensures forall i :: 0 <= i < |t| ==> lo <= t[i] <= hi
  {
    forall i | 0 <= i < |t|
      ensures lo <= t[i] <= hi
    {
      assert t[i] in multiset(s);
    }
  }

  /** get_max: the largest element of a non-empty array. */
  method GetMax(a: array<int32>) returns (m: int32)
    requires a.Length >= 1
    ensures m in a[..]
    ensures forall k :: 0 <= k < a.Length ==> a[k] <= m
  {
    m := a[0];
    var i := 1;
    while i < a.Length
      invariant 1 <= i <= a.Length
      invariant m in a[..i]
      invariant forall k :: 0 <= k < i ==> a[k] <= m
    {
      if a[i] > m {
        m := a[i];
      }
      assert a[..i + 1] == a[..i] + [a[i]];
      i := i + 1;
    }
    assert a[..i] == a[..];
  }

  /**
   * The counting loop of counting_sort: count[d] becomes the size of bucket
   * d.  A negative digit would index count out of bounds; the loop stops
   * there with `defined == false`.
   */
  method CountDigits(a: array<int32>, exp: int) returns (count: array<int>, defined: bool)
    requires exp > 0
    ensures fresh(count) && count.Length == 10
    ensures defined <==> KeysInRange(a[..], DigitOf(exp))
    ensures defined ==> forall d :: 0 <= d < 10 ==> count[d] == |Bucket(a[..], DigitOf(exp), d)|
  {
    count := new int[10](_ => 0);
    ghost var key := DigitOf(exp);
    var i := 0;
    while i < a.Length
      invariant 0 <= i <= a.Length
      invariant KeysInRange(a[..i], key)
      invariant forall d :: 0 <= d < 10 ==> count[d] == |Bucket(a[..i], key, d)|
    {
      var dig := Digit(a[i], exp);
      if dig < 0 {
        assert key(a[..][i]) < 0;
        return count, false;
      }
      forall d | 0 <= d < 10
        ensures Bucket(a[..][..i + 1], key, d) == Bucket(a[..][..i], key, d) + (if key(a[i]) == d then [a[i]] else [])
      {
        BucketNext(a[..], key, i, d);
      }
      assert a[..][..i + 1] == a[..i + 1] && a[..][..i] == a[..i];
      assert a[..i + 1] == a[..i] + [a[i]];
      count[dig] := count[dig] + 1;
      i := i + 1;
    }
    assert a[..i] == a[..];
    defined := true;
  }

  /** The running sums of counting_sort: count[d] becomes the end of bucket d. */
  method PrefixSums<T>(count: array<int>, ghost s: seq<T>, ghost key: T -> int)
    requires count.Length == 10
    requires forall d :: 0 <= d < 10 ==> count[d] == |Bucket(s, key, d)|
    modifies count
    ensures forall d :: 0 <= d < 10 ==> count[d] == Start(s, key, d + 1)
  {
    var i := 1;
    while i < 10
      invariant 1 <= i <= 10
      invariant forall d :: 0 <= d < i ==> count[d] == Start(s, key, d + 1)
      invariant forall d :: i <= d < 10 ==> count[d] == |Bucket(s, key, d)|
    {
      assert count[i - 1] == Start(s, key, i);
      assert Start(s, key, i + 1) == Start(s, key, i) + |Bucket(s, key, i)|;
      count[i] := count[i] + count[i - 1];
      i := i + 1;
    }
  }

  /**
   * The counts of the placing loop of counting_sort once s[i..] is placed:
   * cnt[d] is the start of bucket d plus the number of elements of s[..i]
   * in it.
   */
  ghost predicate Counted<T>(s: seq<T>, key: T -> int, cnt: seq<int>, i: int)
  {
    0 <= i <= |s| && |cnt| == 10 &&
    forall d :: 0 <= d < 10 ==> cnt[d] == Start(s, key, d) + |Bucket(s[..i], key, d)|
  }

  /** Every slot of out from cnt[d] up to the end of bucket d holds its final element b[p]. */
  ghost predicate Filled<T>(key: T -> int, b: seq<T>, cnt: seq<int>, out: seq<T>)
  {
    |cnt| == 10 && |out| == |b| &&
    forall p :: 0 <= p < |b| && 0 <= key(b[p]) < 10 && cnt[key(b[p])] <= p ==> out[p] == b[p]
  }

  /** Before the placing loop nothing is placed, and every count is the end of its bucket. */
  lemma PlaceInit<T>(s: seq<T>, key: T -> int, cnt: seq<int>, out: seq<T>)
    requires KeysInRange(s, key) && |out| == |s| && |cnt| == 10
    requires forall d :: 0 <= d < 10 ==> cnt[d] == Start(s, key, d + 1)
    ensures Counted(s, key, cnt, |s|) && Filled(key, Buckets(s, key, 0), cnt, out)
  {
    BucketsLayout(s, key);
    assert s[..|s|] == s;
  }

  /** Taking s[i - 1] off the prefix lowers the count of its bucket only. */
  lemma CountStep<T>(s: seq<T>, key: T -> int, cnt: seq<int>, i: int)
    requires Counted(s, key, cnt, i) && i > 0 && 0 <= key(s[i - 1]) < 10
    ensures Counted(s, key, cnt[key(s[i - 1]) := cnt[key(s[i - 1])] - 1], i - 1)
  {
    forall e | 0 <= e < 10
      ensures Bucket(s[..i], key, e) == Bucket(s[..i - 1], key, e) + (if key(s[i - 1]) == e then [s[i - 1]] else [])
    {
      BucketNext(s, key, i - 1, e);
    }
  }

  /** Writing x into the slot just below the count of its bucket, that slot being x's final one, keeps the slots filled. */
  lemma FillStep<T>(key: T -> int, b: seq<T>, cnt: seq<int>, out: seq<T>, pos: int, x: T)
    requires Filled(key, b, cnt, out) && 0 <= key(x) < 10
    requires pos == cnt[key(x)] - 1 && 0 <= pos < |b| && b[pos] == x
    ensures Filled(key, b, cnt[key(x) := pos], out[pos := x])
  {
  }

  /** Placing s[i - 1] at the last free slot of its bucket keeps the placing loop's state. */
  lemma PlaceStep<T>(s: seq<T>, key: T -> int, b: seq<T>, cnt: seq<int>, out: seq<T>, i: int, d: int, pos: int)
    requires KeysInRange(s, key) && b == Buckets(s, key, 0) && i > 0
    requires Counted(s, key, cnt, i) && Filled(key, b, cnt, out)
    requires d == key(s[i - 1]) && pos == cnt[d] - 1
    ensures 0 <= d < 10 && 0 <= pos < |out|
    ensures Counted(s, key, cnt[d := pos], i - 1)
    ensures Filled(key, b, cnt[d := pos], out[pos := s[i - 1]])
  {
    CountStep(s, key, cnt, i);
    PlaceSlot(s, key, i - 1, d, Start(s, key, d) + |Bucket(s[..i - 1], key, d)|);
    assert s[..i][..i - 1] == s[..i - 1];
    FillStep(key, b, cnt, out, pos, s[i - 1]);
  }

  /** When the placing loop ends, every slot holds its final element. */
  lemma PlaceDone<T>(s: seq<T>, key: T -> int, b: seq<T>, cnt: seq<int>, out: seq<T>)
    requires KeysInRange(s, key) && b == Buckets(s, key, 0)
    requires Counted(s, key, cnt, 0) && Filled(key, b, cnt, out)
    ensures out == b
  {
    BucketsLayout(s, key);
    forall p | 0 <= p < |b|
      ensures out[p] == b[p]
    {
      assert |Bucket(s[..0], key, key(b[p]))| == 0;
    }
  }

  /**
   * The placing loop of counting_sort: walking the input backwards, each
   * element goes to the last free slot of its bucket, so output ends up
   * holding the buckets in key order, each in input order.
   */
  method Place(a: array<int32>, output: array<int32>, count: array<int>, exp: int)
    requires exp > 0 && output != a && output.Length == a.Length && count.Length == 10
    requires KeysInRange(a[..], DigitOf(exp))
    requires forall d :: 0 <= d < 10 ==> count[d] == Start(a[..], DigitOf(exp), d + 1)
    modifies output, count
    ensures output[..] == Buckets(a[..], DigitOf(exp), 0)
  {
    ghost var s, key := a[..], DigitOf(exp);
    ghost var b := Buckets(s, key, 0);
    PlaceInit(s, key, count[..], output[..]);
    var i := a.Length;
    while i > 0
      invariant Counted(s, key, count[..], i) && Filled(key, b, count[..], output[..])
    {
      PlaceOne(a, output, count, exp, i, s, b);
      i := i - 1;
    }
    PlaceDone(s, key, b, count[..], output[..]);
  }

  /** One step of the placing loop: a[i - 1] goes to the last free slot of its bucket. */
  method PlaceOne(a: array<int32>, output: array<int32>, count: array<int>, exp: int, i: int,
                  ghost s: seq<int32>, ghost b: seq<int32>)
    requires exp > 0 && output != a && count.Length == 10 && a[..] == s && 0 < i
    requires KeysInRange(s, DigitOf(exp)) && b == Buckets(s, DigitOf(exp), 0)
    requires Counted(s, DigitOf(exp), count[..], i) && Filled(DigitOf(exp), b, count[..], output[..])
    modifies output, count
    ensures Counted(s, DigitOf(exp), count[..], i - 1) && Filled(DigitOf(exp), b, count[..], output[..])
  {
    ghost var key := DigitOf(exp);
    var dig := Digit(a[i - 1], exp);
    assert a[i - 1] == s[i - 1] && dig == key(s[i - 1]);
    ghost var cnt, out := count[..], output[..];
    var pos := count[dig] - 1;
    PlaceStep(s, key, b, cnt, out, i, dig, pos);
    output[pos] := a[i - 1];
    assert output[..] == out[pos := s[i - 1]];
    count[dig] := pos;
    assert count[..] == cnt[dig := pos];
  }

  /**
   * counting_sort: a stable distribution of the array by the digit of
   * weight exp.  Defined exactly when no digit is negative.
   */
  method CountingSort(a: array<int32>, exp: int, output: array<int32>) returns (defined: bool)
    requires exp > 0 && output != a && output.Length == a.Length
    modifies a, output
    ensures defined <==> KeysInRange(old(a[..]), DigitOf(exp))
    ensures a[..] == if defined then Buckets(old(a[..]), DigitOf(exp), 0) else old(a[..])
  {
    var count;
    count, defined := CountDigits(a, exp);
    if !defined {
      return;
    }
    PrefixSums(count, a[..], DigitOf(exp));
    Place(a, output, count, exp);
    var i := 0;
    while i < a.Length
      invariant 0 <= i <= a.Length
      invariant a[..i] == output[..i]
      invariant output[..] == Buckets(old(a[..]), DigitOf(exp), 0)
    {
      a[i] := output[i];
      assert a[..i + 1] == output[..i + 1];
      i := i + 1;
    }
    assert a[..] == output[..];
  }

  /** The digit weights radix_sort_int reaches without overflowing an int. */
  ghost predicate DigitWeight(exp: int)
  {
    exp in {1, 10, 100, 1000, 10000, 100000, 1000000, 10000000, 100000000, 1000000000}
  }

  /** Every residue modulo 1 is 0, so any order is sorted by it. */
  lemma SortedModOne(s: seq<int32>)
    ensures SortedBy(s, ModOf(1))
  {
    forall i | 0 <= i < |s|
      ensures ModOf(1)(s[i]) == 0
    {
      ModUnique(s[i], 1, s[i] as int, 0);
    }
  }

  /** A rearrangement of elements in [0, m) that is sorted modulo m is sorted. */
  lemma SortedWhenBounded(s0: seq<int32>, t: seq<int32>, m: int)
    requires m > 0 && multiset(t) == multiset(s0) && SortedBy(t, ModOf(m))
    requires forall k :: 0 <= k < |s0| ==> 0 <= s0[k] < m
    ensures Ascending(t)
  {
    WithinBounds(s0, t, 0, m - 1);
    ResidueIsValue(t, m);
  }

  /**
   * One iteration of the loop of radix_sort_int: a counting sort by the
   * digit of weight exp, which on non-negative elements extends an order
   * modulo exp to an order modulo 10 * exp.
   */
  method RadixStep(a: array<int32>, output: array<int32>, exp: int, ghost s0: seq<int32>) returns (defined: bool)
    requires exp > 0 && output != a && output.Length == a.Length && multiset(a[..]) == multiset(s0)
    requires AllNonNegative(s0) ==> SortedBy(a[..], ModOf(exp))
    modifies a, output
    ensures multiset(a[..]) == multiset(s0)
    ensures defined <==> KeysInRange(old(a[..]), DigitOf(exp))
    ensures AllNonNegative(s0) ==> defined && SortedBy(a[..], ModOf(10 * exp))
  {
    ghost var s := a[..];
    if AllNonNegative(s0) {
      WithinBounds(s0, s, 0, INT_MAX);
      RadixPass(s, exp);
    }
    defined := CountingSort(a, exp, output);
    if defined {
      BucketsPermutation(s, DigitOf(exp));
    }
  }

  /**
   * radix_sort_int: one counting sort per decimal digit, from weight 1 up,
   * while the maximum still has a digit of that weight.  allocOk says
   * whether the output buffer is allocated.  The result is a permutation
   * of the input in every case; for non-negative elements it is sorted,
   * and it is defined exactly when the maximum stays below 10^9 (at
   * 10^9 the next weight overflows an int, though the array is sorted
   * by then).  A positive element with a negative element whose last
   * digit is non-zero makes the first pass index count at a negative
   * digit.  With no positive element the maximum has no digit at all and
   * nothing moves.
   */
  method RadixSortInt(a: array<int32>, allocOk: bool) returns (defined: bool)
    modifies a
    ensures multiset(a[..]) == multiset(old(a[..]))
    ensures a.Length < 2 || !allocOk ==> defined && a[..] == old(a[..])
    ensures allocOk && (forall k :: 0 <= k < a.Length ==> old(a[k]) <= 0) ==> defined && a[..] == old(a[..])
    ensures allocOk && AllNonNegative(old(a[..])) ==> Ascending(a[..])
    ensures allocOk && AllNonNegative(old(a[..])) ==>
              (defined <==> a.Length < 2 || forall k :: 0 <= k < a.Length ==> old(a[k]) < 1_000_000_000)
    ensures (allocOk && a.Length >= 2 && (exists k :: 0 <= k < a.Length && old(a[k]) > 0) &&
             (exists k :: 0 <= k < a.Length && Digit(old(a[k]), 1) < 0)) ==> !defined
  {
    if a.Length < 2 {
      return true;
    }
    var max := GetMax(a);
    if !allocOk {
      return true;
    }
    var output := new int32[a.Length];
    ghost var s0 := a[..];
    var exp := 1;
    SortedModOne(a[..]);
    while Quot(max, exp) > 0
      invariant DigitWeight(exp) && multiset(a[..]) == multiset(s0)
      invariant exp == 1 ==> a[..] == s0
      invariant max <= 0 ==> exp == 1
      invariant exp > 1 ==> KeysInRange(s0, DigitOf(1))
      invariant AllNonNegative(s0) ==> SortedBy(a[..], ModOf(exp))
      decreases 0x8000_0000 - exp
    {
      defined := RadixStep(a, output, exp, s0);
      if !defined {
        return;
      }
      if exp * 10 > INT_MAX {
        if AllNonNegative(s0) {
          SortedWhenBounded(s0, a[..], 10 * exp);
        }
        return false;
      }
      exp := exp * 10;
    }
    if AllNonNegative(s0) {
      SortedWhenBounded(s0, a[..], exp);
    }
    defined := true;
  }

  /**
   * radix_sort: sorts only when the elements are int-sized; the comparator
   * is ignored.
   */
  method RadixSort(a: array<int32>, elemSize: nat, allocOk: bool) returns (defined: bool)
    modifies a
    ensures multiset(a[..]) == multiset(old(a[..]))
    ensures elemSize != 4 || a.Length < 2 || !allocOk ==> defined && a[..] == old(a[..])
    ensures elemSize == 4 && allocOk && AllNonNegative(old(a[..])) ==> Ascending(a[..])
  {
    if a.Length < 2 || elemSize != 4 {
      return true;
    }
    defined := RadixSortInt(a, allocOk);
  }
}
