/**
 * Shared vocabulary of the HyperCore model: bytes, optional results and
 * the contract a caller-supplied three-way comparator is assumed to meet.
 */
module Common {

  /** One byte of a C buffer (unsigned char). */
  type byte = x: int | 0 <= x < 256

  /** A heap buffer of bytes; its length is the size it was allocated with. */
  type Bytes = seq<byte>

  /** The result of a C function that returns a pointer or NULL. */
  datatype Option<T> = None | Some(value: T)

  function Min(a: int, b: int): int { if a <= b then a else b }

  function Max(a: int, b: int): int { if a >= b then a else b }

  /** A sequence is its part before p followed by its part from p. */
  lemma SplitAt<T>(s: seq<T>, p: nat)
    requires p <= |s|
    ensures s == s[..p] + s[p..]
  {
  }

  /** The three parts of a concatenation are found back by slicing. */
  lemma Parts3<T>(p: seq<T>, m: seq<T>, q: seq<T>)
    ensures (p + m + q)[..|p|] == p && (p + m + q)[|p|..|p| + |m|] == m && (p + m + q)[|p| + |m|..] == q
  {
  }

  /** Two sequences agreeing from p on agree on every slice starting at or after p. */
  lemma SameFrom<T>(s: seq<T>, t: seq<T>, p: nat, q: nat, r: nat)
    requires p <= q <= r <= |s| == |t| && s[p..] == t[p..]
    ensures s[q..r] == t[q..r] && s[q..] == t[q..]
  {
    assert forall k :: q <= k < |s| ==> s[k] == s[p..][k - p] && t[k] == t[p..][k - p];
  }

  /** Two sequences agreeing before q agree on every slice ending at or before q. */
  lemma SameUpTo<T>(s: seq<T>, t: seq<T>, p: nat, q: nat)
    requires p <= q <= |s| == |t| && s[..q] == t[..q]
    ensures s[p..q] == t[p..q] && s[..p] == t[..p]
  {
    assert forall k :: 0 <= k < q ==> s[k] == s[..q][k] && t[k] == t[..q][k];
  }

  /** A sequence is its part before p, its element p and its part after p. */
  lemma SplitAround<T>(s: seq<T>, p: nat)
    requires p < |s|
    ensures s == s[..p] + [s[p]] + s[p + 1..]
  {
  }

  /**
   * A comparator returning negative, zero or positive that orders its
   * domain as a total preorder: the sign flips when the arguments swap and
   * "not greater" is transitive.  Elements comparing zero may differ.
   */
  ghost predicate TotalPreorder<K(!new)>(cmp: (K, K) -> int)
  {
    && (forall a, b :: cmp(a, b) < 0 <==> cmp(b, a) > 0)
    && (forall a, b, c :: cmp(a, b) <= 0 && cmp(b, c) <= 0 ==> cmp(a, c) <= 0)
  }

  /**
   * A comparator that is a strict total order: a total preorder in which
   * comparing zero means being the same key.
   */
  ghost predicate TotalOrder<K(!new)>(cmp: (K, K) -> int)
  {
    && TotalPreorder(cmp)
    && (forall a, b :: cmp(a, b) == 0 ==> a == b)
  }

  lemma LessTransitive<K(!new)>(cmp: (K, K) -> int, a: K, b: K, c: K)
    requires TotalPreorder(cmp)
    requires cmp(a, b) < 0 && cmp(b, c) < 0
    ensures cmp(a, c) < 0
  {
    assert cmp(a, c) <= 0;
    assert cmp(c, a) <= 0 ==> cmp(c, b) <= 0;
  }

  lemma LessLeTransitive<K(!new)>(cmp: (K, K) -> int, a: K, b: K, c: K)
    requires TotalPreorder(cmp)
    requires cmp(a, b) <= 0 && cmp(b, c) < 0
    ensures cmp(a, c) < 0
  {
    assert cmp(a, c) <= 0;
    assert cmp(c, a) <= 0 ==> cmp(c, b) <= 0;
  }

  lemma LeLessTransitive<K(!new)>(cmp: (K, K) -> int, a: K, b: K, c: K)
    requires TotalPreorder(cmp)
    requires cmp(a, b) < 0 && cmp(b, c) <= 0
    ensures cmp(a, c) < 0
  {
    assert cmp(a, c) <= 0;
    assert cmp(c, a) <= 0 ==> cmp(b, a) <= 0;
  }

  /**
   * memcpy(dst, src, n) into a buffer that already exists: the first n bytes
   * of dst are taken from src and dst keeps its allocated length.  The copy
   * is defined only when it fits both buffers (CopyFits); otherwise memcpy
   * reads or writes past a buffer, which the callers report as an undefined
   * outcome, and the bytes computed here are then only those inside both.
   */
  function CopyBytes(dst: Bytes, src: Bytes, n: nat): (r: Bytes)
    ensures |r| == |dst|
    ensures forall i :: 0 <= i < |r| ==>
              r[i] == if i < n && i < |src| then src[i] else dst[i]
    ensures CopyFits(dst, src, n) ==> r == src[..n] + dst[n..]
  {
    var m := Min(n, Min(|src|, |dst|));
    src[..m] + dst[m..]
  }

  /** memcpy(dst, src, n) stays inside both buffers. */
  predicate CopyFits(dst: Bytes, src: Bytes, n: nat)
  {
    n <= |dst| && n <= |src|
  }

  /** C integer types of an LP64 target. */
  type int8 = x: int | -0x80 <= x < 0x80
  type int16 = x: int | -0x8000 <= x < 0x8000
  type uint16 = x: int | 0 <= x < 0x1_0000
  type int32 = x: int | -0x8000_0000 <= x < 0x8000_0000
  type uint32 = x: int | 0 <= x < 0x1_0000_0000
  type int64 = x: int | -0x8000_0000_0000_0000 <= x < 0x8000_0000_0000_0000
  type uint64 = x: int | 0 <= x < 0x1_0000_0000_0000_0000

  /** An int result reduced to 32-bit two's complement, as the usual int subtraction wraps. */
  function Wrap32(x: int): (r: int32)
    ensures (r - x) % 0x1_0000_0000 == 0
    ensures -0x8000_0000 <= x < 0x8000_0000 ==> r == x
  {
    var m := x % 0x1_0000_0000;
    if m < 0x8000_0000 then m else m - 0x1_0000_0000
  }

  /** A byte read through a (signed) char on the targets the library is built for. */
  function SignedChar(b: byte): (c: int8)
    ensures c % 256 == b
  {
    if b < 128 then b else b - 256
  }

  /**
   * The length of the C string at the start of a buffer: the index of its
   * first NUL byte, or the buffer length when it has none.
   */
  function CStrLen(s: Bytes): (n: nat)
    ensures n <= |s|
    ensures forall i :: 0 <= i < n ==> s[i] != 0
    ensures n < |s| ==> s[n] == 0
  {
    NulFrom(s, 0)
  }

  /** The index of the first NUL byte at or after i, or the buffer length when there is none. */
  function NulFrom(s: Bytes, i: nat): (n: nat)
    requires i <= |s|
    ensures i <= n <= |s|
    ensures forall j :: i <= j < n ==> s[j] != 0
    ensures n < |s| ==> s[n] == 0
    decreases |s| - i
  {
    if i == |s| || s[i] == 0 then i else NulFrom(s, i + 1)
  }

  /** The buffer holds a NUL-terminated string. */
  predicate Terminated(s: Bytes)
  {
    CStrLen(s) < |s|
  }

  /** The characters of the C string a terminated buffer holds. */
  function Chars(s: Bytes): (r: Bytes)
    ensures |r| == CStrLen(s) && 0 !in r
    ensures forall i :: 0 <= i < |r| ==> r[i] == s[i]
  {
    s[..CStrLen(s)]
  }

  /** tolower in the C locale: only 'A'..'Z' change. */
  function ToLower(c: byte): byte
  {
    if 'A' as int <= c <= 'Z' as int then c + 32 else c
  }

  /** toupper in the C locale: only 'a'..'z' change. */
  function ToUpper(c: byte): byte
  {
    if 'a' as int <= c <= 'z' as int then c - 32 else c
  }
}
