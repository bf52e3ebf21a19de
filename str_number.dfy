/**
 * The integer conversions of strings.c.  str_to_int and str_to_long read
 * one optional sign ('+' or '-' for int, only '-' for long) and then decimal
 * digits up to the first byte that is not a digit; the value accumulates in
 * the C type, so an accumulation past the type's maximum is signed overflow,
 * which C leaves undefined: the model then reports defined == false.
 * int_to_str and long_to_str write the digits backwards into a stack buffer
 * of 12 or 32 bytes and copy the text out with str_new; negating the
 * type's minimum is signed overflow as well.
 */
module StrNumber {
  import opened Common
  import opened StrQuery
  import StrBuild

  const INT_MAX: int := 0x7fff_ffff
  const LONG_MAX: int := 0x7fff_ffff_ffff_ffff

  /** The leading run of digits of t. */
  function Lead(t: Bytes): (r: Bytes)
    ensures |r| <= |t| && r == t[..|r|]
    ensures forall j :: 0 <= j < |r| ==> IsDigit(r[j])
    ensures |r| < |t| ==> !IsDigit(t[|r|])
  {
    if t == [] || !IsDigit(t[0]) then [] else [t[0]] + Lead(t[1..])
  }

  /** The value of a run of decimal digits, most significant first. */
  function Value(d: Bytes): nat
    requires forall j :: 0 <= j < |d| ==> IsDigit(d[j])
    decreases |d|
  {
    if d == [] then 0
    else
      var c := d[|d| - 1];
      assert IsDigit(c);
      Value(d[..|d| - 1]) * 10 + (c as int - 48)
  }

  /** The length of the sign the parser skips: '-' always, '+' only when allowPlus. */
  function SignLen(t: Bytes, allowPlus: bool): (k: nat)
    ensures k <= |t|
  {
    if |t| > 0 && (t[0] == 45 || (allowPlus && t[0] == 43)) then 1 else 0
  }

  /** The magnitude the parser accumulates: the value of the digits after the sign. */
  function Magnitude(t: Bytes, allowPlus: bool): nat
  {
    Value(Lead(t[SignLen(t, allowPlus)..]))
  }

  /** What str_to_int (allowPlus) or str_to_long reads from the text t, when no overflow occurs. */
  function Parsed(t: Bytes, allowPlus: bool): int
  {
    if |t| > 0 && t[0] == 45 then -(Magnitude(t, allowPlus) as int) else Magnitude(t, allowPlus)
  }

  /** The decimal digits of m without leading zeros; none for 0. */
  function Digits(m: nat): (d: Bytes)
    ensures forall j :: 0 <= j < |d| ==> IsDigit(d[j])
    ensures m > 0 ==> |d| > 0 && d[0] != 48
  {
    if m == 0 then [] else Digits(m / 10) + [48 + m % 10]
  }

  /** The text int_to_str and long_to_str produce for n. */
  function Rendered(n: int): (t: Bytes)
    ensures 0 !in t && t != []
  {
    if n == 0 then [48] else if n < 0 then [45] + Digits(-n) else Digits(n)
  }

  function Pow10(k: nat): (p: nat)
    ensures p >= 1
  {
    if k == 0 then 1 else 10 * Pow10(k - 1)
  }

  /** A run of digits ending at j, followed by a non-digit or the end, is the leading run. */
  lemma LeadExact(t: Bytes, j: nat)
    requires j <= |t| && forall q :: 0 <= q < j ==> IsDigit(t[q])
    requires j < |t| ==> !IsDigit(t[j])
    ensures Lead(t) == t[..j]
  {
  }

  /** The value of a prefix of a run of digits is at most the value of the run. */
  lemma {:induction false} ValuePrefix(d: Bytes, j: nat)
    requires j <= |d| && forall q :: 0 <= q < |d| ==> IsDigit(d[q])
    ensures Value(d[..j]) <= Value(d)
    decreases |d|
  {
    if j < |d| {
      assert d[..|d| - 1][..j] == d[..j];
      ValuePrefix(d[..|d| - 1], j);
    } else {
      assert d[..j] == d;
    }
  }

  /** One more digit: the value is ten times the old value plus the digit. */
  lemma ValueSnoc(d: Bytes, c: byte)
    requires (forall q :: 0 <= q < |d| ==> IsDigit(d[q])) && IsDigit(c)
    ensures Value(d + [c]) == Value(d) * 10 + (c as int - 48)
  {
    assert (d + [c])[..|d|] == d;
  }

  /** Reading the digits of m back gives m. */
  lemma {:induction false} ValueDigits(m: nat)
    ensures Value(Digits(m)) == m
    decreases m
  {
    if m > 0 {
      ValueDigits(m / 10);
      ValueSnoc(Digits(m / 10), 48 + m % 10);
    }
  }

  /** A number below 10^k has at most k digits. */
  lemma {:induction false} DigitsBound(m: nat, k: nat)
    requires m < Pow10(k)
    ensures |Digits(m)| <= k
    decreases k
  {
    if m > 0 {
      assert k > 0;
      DigitsBound(m / 10, k - 1);
    }
  }

  /** Parsing what the converters print gives the number back, with the sign read as the parser reads it. */
  lemma ParseRendered(n: int, allowPlus: bool)
    ensures Magnitude(Rendered(n), allowPlus) == if n < 0 then -n else n
    ensures Parsed(Rendered(n), allowPlus) == n
  {
    var t := Rendered(n);
    var m: nat := if n < 0 then -n else n;
    if n == 0 {
      LeadExact(t, 1);
      assert t[..1] == [48] && [48][..0] == [];
    } else {
      var k := SignLen(t, allowPlus);
      assert k == (if n < 0 then 1 else 0);
      assert t[k..] == Digits(m);
      LeadExact(Digits(m), |Digits(m)|);
      assert Digits(m)[..|Digits(m)|] == Digits(m);
      ValueDigits(m);
    }
  }

  /** str_to_int(int_to_str(n)) == n for every int but INT_MIN, with no overflow on the way back. */
  lemma IntRoundTrip(n: int32)
    requires n != -0x8000_0000
    ensures Magnitude(Rendered(n), true) <= INT_MAX && Parsed(Rendered(n), true) == n
  {
    ParseRendered(n, true);
  }

  /** str_to_long(long_to_str(n)) == n for every long but LONG_MIN. */
  lemma LongRoundTrip(n: int64)
    requires n != -0x8000_0000_0000_0000
    ensures Magnitude(Rendered(n), false) <= LONG_MAX && Parsed(Rendered(n), false) == n
  {
    ParseRendered(n, false);
  }

  /** str_to_int takes "+5" as 5; str_to_long stops at the '+' and reads 0. */
  lemma PlusSign()
    ensures Parsed([43, 53], true) == 5 && Parsed([43, 53], false) == 0
  {
    LeadExact([43, 53][1..], 1);
    LeadExact([43, 53], 0);
  }

  /** The text of an int fits the 11 characters int_to_str has room for, that of a long the 20 of long_to_str. */
  lemma RenderedLength(n: int, k: nat)
    requires -(Pow10(k) as int) < n < Pow10(k)
    ensures |Rendered(n)| <= k + 1
  {
    if n != 0 {
      DigitsBound(if n < 0 then -n else n, k);
    }
  }

  /**
   * The sign handling of str_to_int and str_to_long: a '-' (or, when
   * allowPlus, a '+') is skipped and the digits after it accumulated.  max
   * is the largest value of the C type; an accumulation past it is
   * undefined, reported as !defined.
   */
  method ParseNumber(p: CStr, allowPlus: bool, max: nat) returns (v: int, defined: bool)
    requires Valid(p)
    ensures p.None? ==> v == 0 && defined
    ensures p.Some? ==> (defined <==> Magnitude(Text(p), allowPlus) <= max)
    ensures p.Some? && defined ==> v == Parsed(Text(p), allowPlus)
  {
    if p.None? {
      return 0, true;
    }
    var s := p.value;
    var negative := false;
    var k := 0;
    if s[0] == 45 {
      negative := true;
      k := 1;
    } else if allowPlus && s[0] == 43 {
      k := 1;
    }
    SignFrom(s, allowPlus, k);
    var result;
    result, defined := Accumulate(s[k..], max);
    v := if negative then -(result as int) else result;
  }

  /** The sign test of the parser, on the buffer, agrees with SignLen on its text. */
  lemma SignFrom(s: Bytes, allowPlus: bool, k: nat)
    requires Terminated(s)
    requires k == if s[0] == 45 || (allowPlus && s[0] == 43) then 1 else 0
    ensures k == SignLen(Chars(s), allowPlus)
    ensures Terminated(s[k..]) && Chars(s[k..]) == Chars(s)[k..]
    ensures |Chars(s)| > 0 && Chars(s)[0] == 45 <==> s[0] == 45
  {
    CharsFrom(s, k);
  }

  /**
   * The digit loop: result = result * 10 + digit while the byte is a
   * digit; stops with ok false as soon as the result passes max.
   */
  method Accumulate(s: Bytes, max: nat) returns (result: nat, ok: bool)
    requires Terminated(s)
    ensures ok <==> Value(Lead(Chars(s))) <= max
    ensures ok ==> result == Value(Lead(Chars(s)))
  {
    var i := 0;
    result := 0;
    while IsDigit(s[i])
      invariant DigitRun(s, i)
      invariant result == Value(s[..i]) <= max
      decreases CStrLen(s) - i
    {
      DigitStep(s, i);
      result := result * 10 + (s[i] - 48);
      if result > max {
        DigitOver(s, i + 1);
        return result, false;
      }
      i := i + 1;
    }
    DigitEnd(s, i);
    ok := true;
  }

  /** The first i bytes of s are digits of its text. */
  predicate DigitRun(s: Bytes, i: nat)
  {
    i <= CStrLen(s) && forall q :: 0 <= q < i ==> IsDigit(s[q])
  }

  lemma DigitStep(s: Bytes, i: nat)
    requires Terminated(s) && DigitRun(s, i) && IsDigit(s[i])
    ensures DigitRun(s, i + 1) && Value(s[..i + 1]) == Value(s[..i]) * 10 + (s[i] as int - 48)
  {
    assert s[..i + 1] == s[..i] + [s[i]];
    ValueSnoc(s[..i], s[i]);
  }

  lemma DigitOver(s: Bytes, j: nat)
    requires Terminated(s) && DigitRun(s, j)
    ensures Value(s[..j]) <= Value(Lead(Chars(s)))
  {
    assert Chars(s)[..j] == s[..j];
    LeadAtLeast(Chars(s), j);
    ValuePrefix(Lead(Chars(s)), j);
  }

  lemma DigitEnd(s: Bytes, i: nat)
    requires Terminated(s) && DigitRun(s, i) && !IsDigit(s[i])
    ensures Lead(Chars(s)) == s[..i]
  {
    LeadExact(Chars(s), i);
    assert Chars(s)[..i] == s[..i];
  }

  /** A run of j digits at the start of t lies within the leading run. */
  lemma LeadAtLeast(t: Bytes, j: nat)
    requires j <= |t| && forall q :: 0 <= q < j ==> IsDigit(t[q])
    ensures j <= |Lead(t)| && Lead(t)[..j] == t[..j]
  {
  }

  /** str_to_int: NULL reads 0; INT_MAX bounds the accumulated magnitude. */
  method StrToInt(p: CStr) returns (v: int, defined: bool)
    requires Valid(p)
    ensures p.None? ==> v == 0 && defined
    ensures p.Some? ==> (defined <==> Magnitude(Text(p), true) <= INT_MAX)
    ensures p.Some? && defined ==> v == Parsed(Text(p), true) && -INT_MAX <= v <= INT_MAX
  {
    v, defined := ParseNumber(p, true, INT_MAX);
  }

  /** str_to_long: as str_to_int, but a leading '+' is not a sign. */
  method StrToLong(p: CStr) returns (v: int, defined: bool)
    requires Valid(p)
    ensures p.None? ==> v == 0 && defined
    ensures p.Some? ==> (defined <==> Magnitude(Text(p), false) <= LONG_MAX)
    ensures p.Some? && defined ==> v == Parsed(Text(p), false) && -LONG_MAX <= v <= LONG_MAX
  {
    v, defined := ParseNumber(p, false, LONG_MAX);
  }

  /**
   * The body of int_to_str and long_to_str: a buffer of size bytes ending in
   * a NUL, "0" for zero, otherwise the digits written backwards from
   * size - 2 and a '-' before them, then str_new of the text.  min is the
   * smallest value of the C type, whose negation overflows.
   */
  method RenderNumber(num: int, size: nat, min: int, allocOk: bool) returns (r: Option<Bytes>, defined: bool)
    requires size >= 2 && min < 0 && min <= num < -min && -min <= Pow10(size - 2)
    ensures defined <==> num != min
    ensures defined ==> (r.Some? <==> allocOk) && (r.Some? ==> r.value == Rendered(num) + [0])
  {
    var buffer := new byte[size];
    var i: int := size - 2;
    buffer[size - 1] := 0;
    if num == 0 {
      buffer[i] := 48;
      r := CopyOut(buffer, i, num, allocOk);
      return r, true;
    }
    if num == min {
      return None, false;
    }
    var negative := num < 0;
    var m: nat := if negative then -num else num;
    DigitsBound(m, size - 2);
    i := WriteDigits(buffer, size - 2, m, if negative then 1 else 0);
    if negative {
      i := PutSign(buffer, i, size - 2, m);
    }
    r := CopyOut(buffer, i + 1, num, allocOk);
    defined := true;
  }

  /** The '-' written before the digits of a negative number. */
  method PutSign(buffer: array<byte>, i: int, top: nat, m: nat) returns (j: int)
    requires 0 <= i <= top < buffer.Length && buffer[i + 1..top + 1] == Digits(m)
    modifies buffer
    ensures j == i - 1 && buffer[i..top + 1] == [45] + Digits(m)
    ensures buffer[top + 1..] == old(buffer[top + 1..])
  {
    buffer[i] := 45;
    j := i - 1;
  }

  /** str_new of the text that starts at index j of the buffer and runs to its final NUL. */
  method CopyOut(buffer: array<byte>, j: nat, num: int, allocOk: bool) returns (r: Option<Bytes>)
    requires j < buffer.Length && buffer[j..buffer.Length - 1] == Rendered(num) && buffer[buffer.Length - 1] == 0
    ensures (r.Some? <==> allocOk) && (r.Some? ==> r.value == Rendered(num) + [0])
  {
    assert buffer[j..] == Rendered(num) + [0];
    StrBuild.WithNul(Rendered(num));
    r := StrBuild.StrNew(Some(buffer[j..]), allocOk);
  }

  /**
   * The digit loop of the converters: the digits of m, least significant
   * first, written backwards from index top; room is the number of bytes
   * kept free before them.  Returns the index before the first digit.
   */
  method WriteDigits(buffer: array<byte>, top: nat, m: nat, room: nat) returns (i: int)
    requires top < buffer.Length && |Digits(m)| + room <= top + 1
    modifies buffer
    ensures i == top - |Digits(m)| && i + 1 >= room
    ensures buffer[i + 1..top + 1] == Digits(m)
    ensures buffer[top + 1..] == old(buffer[top + 1..])
  {
    i := top;
    var n := m;
    while n > 0
      invariant -1 <= i <= top && i + |Digits(m)| == top + |Digits(n)| && |Digits(n)| + room <= i + 1
      invariant Digits(m) == Digits(n) + buffer[i + 1..top + 1]
      invariant buffer[top + 1..] == old(buffer[top + 1..])
      decreases n
    {
      ghost var tail := buffer[i + 1..top + 1];
      buffer[i] := 48 + n % 10;
      assert buffer[i..top + 1] == [48 + n % 10] + tail;
      DigitsSnoc(n, tail);
      n := n / 10;
      i := i - 1;
    }
  }

  lemma DigitsSnoc(n: nat, tail: Bytes)
    requires n > 0
    ensures Digits(n) + tail == Digits(n / 10) + ([48 + n % 10] + tail)
    ensures |Digits(n)| == |Digits(n / 10)| + 1
  {
    DigitsLast(n);
    Regroup(Digits(n / 10), [48 + n % 10], tail);
  }

  /** The last digit of n > 0 is n % 10. */
  lemma DigitsLast(n: nat)
    requires n > 0
    ensures Digits(n) == Digits(n / 10) + [48 + n % 10]
  {
  }

  /** Concatenation regrouped. */
  lemma Regroup(h: Bytes, c: Bytes, tail: Bytes)
    ensures (h + c) + tail == h + (c + tail)
    ensures |h + c| == |h| + |c|
  {
  }

  /** int_to_str: the decimal text of num; undefined for INT_MIN. */
  method IntToStr(num: int32, allocOk: bool) returns (r: Option<Bytes>, defined: bool)
    ensures defined <==> num != -0x8000_0000
    ensures defined ==> (r.Some? <==> allocOk) && (r.Some? ==> r.value == Rendered(num) + [0] && |r.value| <= 12)
  {
    assert Pow10(10) == 10_000_000_000;
    r, defined := RenderNumber(num, 12, -0x8000_0000, allocOk);
    if defined {
      RenderedLength(num, 10);
    }
  }

  /** long_to_str: the decimal text of num; undefined for LONG_MIN. */
  method LongToStr(num: int64, allocOk: bool) returns (r: Option<Bytes>, defined: bool)
    ensures defined <==> num != -0x8000_0000_0000_0000
    ensures defined ==> (r.Some? <==> allocOk) && (r.Some? ==> r.value == Rendered(num) + [0] && |r.value| <= 21)
  {
    assert Pow10(19) == 10_000_000_000_000_000_000;
    assert Pow10(30) == Pow10(19) * Pow10(11) by {
      Pow10Add(19, 11);
    }
    r, defined := RenderNumber(num, 32, -0x8000_0000_0000_0000, allocOk);
    if defined {
      RenderedLength(num, 19);
    }
  }

  lemma {:induction false} Pow10Add(a: nat, b: nat)
    ensures Pow10(a + b) == Pow10(a) * Pow10(b)
    decreases a
  {
    if a > 0 {
      Pow10Add(a - 1, b);
    }
  }
}
