/**
 * The read-only string queries of strings.c.  A C string is a byte buffer
 * holding a NUL somewhere (Common.Terminated); its characters are the bytes
 * before the first NUL (Common.Chars).  A pointer that may be NULL is an
 * Option of its buffer, and every query gives NULL the answer the C code
 * gives it.
 */
module StrQuery {
  import opened Common
  import Compare

  /** A char pointer: NULL, or the buffer it points at. */
  type CStr = Option<Bytes>

  /** NULL, or a pointer at a NUL-terminated string. */
  predicate Valid(p: CStr)
  {
    p.Some? ==> Terminated(p.value)
  }

  /** The characters of a non-NULL string. */
  function Text(p: CStr): (t: Bytes)
    requires p.Some?
    ensures |t| == CStrLen(p.value) && 0 !in t
  {
    Chars(p.value)
  }

  /** A string that starts i characters into a terminated buffer is the rest of the same string. */
  lemma CharsFrom(s: Bytes, i: nat)
    requires Terminated(s) && i <= CStrLen(s)
    ensures Terminated(s[i..]) && CStrLen(s[i..]) == CStrLen(s) - i
    ensures Chars(s[i..]) == Chars(s)[i..]
  {
    var n, m := CStrLen(s), CStrLen(s[i..]);
    assert s[i..][n - i] == 0;
  }

  /** w occurs in t at position i. */
  predicate Occurs(t: Bytes, w: Bytes, i: int)
  {
    0 <= i && i + |w| <= |t| && t[i..i + |w|] == w
  }

  /** str_len: the number of characters before the NUL; 0 for NULL. */
  method StrLen(p: CStr) returns (n: nat)
    requires Valid(p)
    ensures p.None? ==> n == 0
    ensures p.Some? ==> n < |p.value| && p.value[n] == 0 && forall i :: 0 <= i < n ==> p.value[i] != 0
    ensures p.Some? ==> n == |Text(p)|
  {
    n := 0;
    if p.None? {
      return;
    }
    var s := p.value;
    while s[n] != 0
      invariant n <= CStrLen(s)
      invariant forall i :: 0 <= i < n ==> s[i] != 0
      decreases CStrLen(s) - n
    {
      n := n + 1;
    }
  }

  /** str_nlen: the length, but no more than maxlen; 0 for NULL. */
  method StrNLen(p: CStr, maxlen: nat) returns (n: nat)
    requires Valid(p)
    ensures p.None? ==> n == 0
    ensures p.Some? ==> n == Min(|Text(p)|, maxlen)
  {
    n := 0;
    if p.None? {
      return;
    }
    var s := p.value;
    while s[n] != 0 && n < maxlen
      invariant n <= CStrLen(s) && n <= maxlen
      decreases maxlen - n
    {
      n := n + 1;
    }
  }

  /** str_empty: NULL and the empty string are empty. */
  function StrEmpty(p: CStr): (b: bool)
    requires Valid(p)
    ensures b <==> p.None? || Text(p) == []
  {
    p.None? || p.value[0] == 0
  }

  /**
   * What str_cmp returns for the characters x and y: the difference of the
   * bytes, read as unsigned, at the first position where the strings
   * differ, the terminating NUL counting as 0.
   */
  function Diff(x: Bytes, y: Bytes): int
  {
    if x == [] || y == [] || x[0] != y[0] then Compare.Head(x) - Compare.Head(y)
    else Diff(x[1..], y[1..])
  }

  /** str_ncmp's result: as Diff, but never looking past the n-th character. */
  function DiffN(x: Bytes, y: Bytes, n: nat): int
  {
    if n == 0 then 0
    else if n == 1 || x == [] || y == [] || x[0] != y[0] then Compare.Head(x) - Compare.Head(y)
    else DiffN(x[1..], y[1..], n - 1)
  }

  /** Strings compare zero exactly when they are equal. */
  lemma {:induction false} DiffZero(x: Bytes, y: Bytes)
    requires 0 !in x && 0 !in y
    ensures Diff(x, y) == 0 <==> x == y
  {
    if x != [] && y != [] {
      assert x[0] in x && y[0] in y;
      if x[0] == y[0] {
        DiffZero(x[1..], y[1..]);
        assert x == [x[0]] + x[1..] && y == [y[0]] + y[1..];
      }
    } else if x != [] {
      assert x[0] in x;
    } else if y != [] {
      assert y[0] in y;
    }
  }

  /** Exchanging the strings negates the comparison. */
  lemma {:induction false} DiffAntisymmetric(x: Bytes, y: Bytes)
    ensures Diff(y, x) == -Diff(x, y)
  {
    if x != [] && y != [] && x[0] == y[0] {
      DiffAntisymmetric(x[1..], y[1..]);
    }
  }

  /** A proper extension of a string compares above it. */
  lemma {:induction false} DiffExtension(x: Bytes, z: Bytes)
    requires z != [] && 0 !in z
    ensures Diff(x, x + z) < 0
  {
    if x == [] {
      assert z[0] in z;
    } else {
      assert (x + z)[1..] == x[1..] + z;
      DiffExtension(x[1..], z);
    }
  }

  /** The first n characters agree exactly when str_ncmp gives 0. */
  lemma {:induction false} DiffNZero(x: Bytes, y: Bytes, n: nat)
    requires 0 !in x && 0 !in y
    ensures DiffN(x, y, n) == 0 <==> Compare.Take(x, n) == Compare.Take(y, n)
  {
    if n == 0 {
    } else if x != [] && y != [] {
      assert x[0] in x && y[0] in y;
      if x[0] == y[0] && n > 1 {
        DiffNZero(x[1..], y[1..], n - 1);
        assert Compare.Take(x, n) == [x[0]] + Compare.Take(x[1..], n - 1);
        assert Compare.Take(y, n) == [y[0]] + Compare.Take(y[1..], n - 1);
      } else if x[0] != y[0] {
        assert Compare.Take(x, n)[0] != Compare.Take(y, n)[0];
      }
    } else if x != [] {
      assert x[0] in x;
      assert |Compare.Take(x, n)| != |Compare.Take(y, n)|;
    } else if y != [] {
      assert y[0] in y;
      assert |Compare.Take(x, n)| != |Compare.Take(y, n)|;
    }
  }

  /** The head of the rest of a string at position i of its buffer is the byte there. */
  lemma HeadAt(s: Bytes, i: nat)
    requires Terminated(s) && i <= CStrLen(s)
    ensures Compare.Head(Chars(s)[i..]) == s[i]
  {
  }

  /**
   * str_cmp: NULL equals NULL and compares below any string; two strings
   * are walked while neither has ended and their bytes agree.
   */
  method StrCmp(p1: CStr, p2: CStr) returns (r: int)
    requires Valid(p1) && Valid(p2)
    ensures p1.None? || p2.None? ==> r == if p1 == p2 then 0 else if p1.Some? then 1 else -1
    ensures p1.Some? && p2.Some? ==> r == Diff(Text(p1), Text(p2))
    ensures r == 0 <==> (p1.None? && p2.None?) || (p1.Some? && p2.Some? && Text(p1) == Text(p2))
  {
    if p1.None? || p2.None? {
      return if p1 == p2 then 0 else if p1.Some? then 1 else -1;
    }
    var a, b := p1.value, p2.value;
    ghost var ca, cb := Chars(a), Chars(b);
    var i := 0;
    while a[i] != 0 && b[i] != 0 && a[i] == b[i]
      invariant i <= |ca| && i <= |cb|
      invariant Diff(ca[i..], cb[i..]) == Diff(ca, cb)
      decreases |ca| - i
    {
      Compare.Step(ca, i);
      Compare.Step(cb, i);
      i := i + 1;
    }
    HeadAt(a, i);
    HeadAt(b, i);
    r := a[i] as int - b[i] as int;
    DiffZero(ca, cb);
  }

  /** str_ncmp: as str_cmp over at most n characters; 0 when n is 0 or either pointer is NULL. */
  method StrNCmp(p1: CStr, p2: CStr, n: nat) returns (r: int)
    requires Valid(p1) && Valid(p2)
    ensures n == 0 || p1.None? || p2.None? ==> r == 0
    ensures n > 0 && p1.Some? && p2.Some? ==> r == DiffN(Text(p1), Text(p2), n)
    ensures p1.Some? && p2.Some? ==> (r == 0 <==> Compare.Take(Text(p1), n) == Compare.Take(Text(p2), n))
  {
    if n == 0 || p1.None? || p2.None? {
      if p1.Some? && p2.Some? {
        DiffNZero(Text(p1), Text(p2), n);
      }
      return 0;
    }
    var a, b := p1.value, p2.value;
    ghost var ca, cb := Chars(a), Chars(b);
    var i: nat, m: nat := 0, n - 1;
    while m > 0 && a[i] != 0 && a[i] == b[i]
      invariant i <= |ca| && i <= |cb| && i + m + 1 == n
      invariant DiffN(ca[i..], cb[i..], m + 1) == DiffN(ca, cb, n)
      decreases m
    {
      Compare.Step(ca, i);
      Compare.Step(cb, i);
      i, m := i + 1, m - 1;
    }
    HeadAt(a, i);
    HeadAt(b, i);
    r := a[i] as int - b[i] as int;
    DiffNZero(ca, cb, n);
  }

  /** ToLower maps only NUL to NUL. */
  lemma LowerZero(c: byte)
    ensures ToLower(c) == 0 <==> c == 0
  {
  }

  /**
   * str_case_cmp: as str_cmp on the ASCII-lower-cased bytes; the loop
   * stops after the NUL of the first string or at the first difference.
   */
  method StrCaseCmp(p1: CStr, p2: CStr) returns (r: int)
    requires Valid(p1) && Valid(p2)
    ensures p1.None? || p2.None? ==> r == if p1 == p2 then 0 else if p1.Some? then 1 else -1
    ensures p1.Some? && p2.Some? ==> r == Compare.CaseDiff(Text(p1), Text(p2))
    ensures p1.Some? && p2.Some? ==> (r == 0 <==> Compare.Lowered(Text(p1)) == Compare.Lowered(Text(p2)))
  {
    if p1.None? || p2.None? {
      return if p1 == p2 then 0 else if p1.Some? then 1 else -1;
    }
    var a, b := p1.value, p2.value;
    ghost var ca, cb := Chars(a), Chars(b);
    var i := 0;
    var c1: int, c2: int := ToLower(a[0]), ToLower(b[0]);
    LowerZero(a[0]);
    LowerZero(b[0]);
    while c1 != 0 && c1 == c2
      invariant i <= |ca| && i <= |cb|
      invariant c1 == ToLower(a[i]) && c2 == ToLower(b[i]) && (c1 == 0 <==> a[i] == 0) && (c2 == 0 <==> b[i] == 0)
      invariant Compare.CaseDiff(ca[i..], cb[i..]) == Compare.CaseDiff(ca, cb)
      decreases |ca| - i
    {
      Compare.Step(ca, i);
      Compare.Step(cb, i);
      i := i + 1;
      c1, c2 := ToLower(a[i]), ToLower(b[i]);
      LowerZero(a[i]);
      LowerZero(b[i]);
    }
    HeadAt(a, i);
    HeadAt(b, i);
    r := c1 - c2;
    Compare.CaseDiffZero(ca, cb);
  }

  /** str_equals: str_cmp gives 0. */
  method StrEquals(p1: CStr, p2: CStr) returns (b: bool)
    requires Valid(p1) && Valid(p2)
    ensures b <==> (p1.None? && p2.None?) || (p1.Some? && p2.Some? && Text(p1) == Text(p2))
  {
    var r := StrCmp(p1, p2);
    b := r == 0;
  }

  /** str_starts_with: false for NULL; otherwise the prefix's characters begin the string. */
  method StrStartsWith(p: CStr, prefix: CStr) returns (b: bool)
    requires Valid(p) && Valid(prefix)
    ensures b <==> p.Some? && prefix.Some? && Text(prefix) <= Text(p)
  {
    if p.None? || prefix.None? {
      return false;
    }
    var n := StrLen(prefix);
    var r := StrNCmp(p, prefix, n);
    b := r == 0;
    assert Compare.Take(Text(prefix), n) == Text(prefix);
  }

  /** str_ends_with: false for NULL or a longer suffix; otherwise the suffix's characters end the string. */
  method StrEndsWith(p: CStr, suffix: CStr) returns (b: bool)
    requires Valid(p) && Valid(suffix)
    ensures b <==> p.Some? && suffix.Some? && |Text(suffix)| <= |Text(p)| &&
                   Text(p)[|Text(p)| - |Text(suffix)|..] == Text(suffix)
  {
    if p.None? || suffix.None? {
      return false;
    }
    var len := StrLen(p);
    var slen := StrLen(suffix);
    if slen > len {
      return false;
    }
    CharsFrom(p.value, len - slen);
    var r := StrCmp(Some(p.value[len - slen..]), suffix);
    b := r == 0;
  }

  /**
   * str_chr: the position of the first byte equal to (char)c, the
   * terminating NUL included, so searching for 0 finds the end; NULL when
   * there is none or the string is NULL.
   */
  method StrChr(p: CStr, c: int) returns (r: Option<nat>)
    requires Valid(p)
    ensures p.None? ==> r.None?
    ensures r.Some? ==> p.Some? && r.value <= CStrLen(p.value) && p.value[r.value] == c % 256 &&
                        forall j :: 0 <= j < r.value ==> p.value[j] != c % 256
    ensures r.None? && p.Some? ==> forall j :: 0 <= j <= CStrLen(p.value) ==> p.value[j] != c % 256
  {
    if p.None? {
      return None;
    }
    var s, ch := p.value, c % 256;
    var i := 0;
    while s[i] != 0 && s[i] != ch
      invariant i <= CStrLen(s)
      invariant forall j :: 0 <= j < i ==> s[j] != ch
      decreases CStrLen(s) - i
    {
      i := i + 1;
    }
    r := if s[i] == ch then Some(i) else None;
  }

  /** str_rchr: the position of the last character equal to (char)c; never the terminator. */
  method StrRChr(p: CStr, c: int) returns (r: Option<nat>)
    requires Valid(p)
    ensures p.None? ==> r.None?
    ensures r.Some? ==> p.Some? && r.value < CStrLen(p.value) && p.value[r.value] == c % 256 &&
                        forall j :: r.value < j < CStrLen(p.value) ==> p.value[j] != c % 256
    ensures r.None? && p.Some? ==> forall j :: 0 <= j < CStrLen(p.value) ==> p.value[j] != c % 256
  {
    if p.None? {
      return None;
    }
    var s, ch := p.value, c % 256;
    var i := 0;
    r := None;
    while s[i] != 0
      invariant i <= CStrLen(s)
      invariant r.Some? ==> r.value < i && s[r.value] == ch && forall j :: r.value < j < i ==> s[j] != ch
      invariant r.None? ==> forall j :: 0 <= j < i ==> s[j] != ch
      decreases CStrLen(s) - i
    {
      if s[i] == ch {
        r := Some(i);
      }
      i := i + 1;
    }
  }

  /** str_str at position i compares the rest of the haystack with the needle over the needle's length. */
  lemma MatchAt(h: Bytes, w: Bytes, i: nat)
    requires Terminated(h) && i <= CStrLen(h) && 0 !in w
    ensures Compare.Take(Chars(h[i..]), |w|) == Compare.Take(w, |w|) <==> Occurs(Chars(h), w, i)
  {
    CharsFrom(h, i);
    var t := Chars(h);
    assert Compare.Take(w, |w|) == w;
    if i + |w| <= |t| {
      assert t[i..][..|w|] == t[i..i + |w|];
    }
  }

  /**
   * str_str: the first position where the needle occurs; the haystack
   * itself for an empty needle; NULL when it does not occur or either
   * pointer is NULL.
   */
  method StrStr(h: CStr, w: CStr) returns (r: Option<nat>)
    requires Valid(h) && Valid(w)
    ensures h.None? || w.None? ==> r.None?
    ensures r.Some? ==> h.Some? && w.Some? && Occurs(Text(h), Text(w), r.value) &&
                        forall j :: 0 <= j < r.value ==> !Occurs(Text(h), Text(w), j)
    ensures r.None? && h.Some? && w.Some? ==> forall j :: 0 <= j <= |Text(h)| ==> !Occurs(Text(h), Text(w), j)
  {
    if h.None? || w.None? {
      return None;
    }
    var s := h.value;
    ghost var t, cw := Text(h), Text(w);
    if w.value[0] == 0 {
      assert t[0..0] == cw;
      return Some(0);
    }
    var n := StrLen(w);
    var i := 0;
    while s[i] != 0
      invariant i <= |t|
      invariant forall j :: 0 <= j < i ==> !Occurs(t, cw, j)
      decreases |t| - i
    {
      CharsFrom(s, i);
      var d := StrNCmp(Some(s[i..]), w, n);
      MatchAt(s, cw, i);
      assert d == 0 <==> Compare.Take(Chars(s[i..]), |cw|) == Compare.Take(cw, |cw|);
      if d == 0 {
        return Some(i);
      }
      i := i + 1;
    }
    assert cw != [];
    return None;
  }

  /** The first occurrence in the rest of a string from i is an occurrence in the string. */
  lemma OccursFrom(t: Bytes, w: Bytes, i: nat, k: int)
    requires i <= |t| && 0 <= k
    ensures Occurs(t[i..], w, k) <==> Occurs(t, w, i + k)
  {
    if 0 <= k && i + k + |w| <= |t| {
      assert t[i..][k..k + |w|] == t[i + k..i + k + |w|];
    }
  }

  /**
   * str_rstr: the last position where a non-empty needle occurs, found by
   * searching again one past each match; for a NULL or empty needle the
   * haystack itself.
   */
  method StrRStr(h: CStr, w: CStr) returns (r: Option<nat>)
    requires Valid(h) && Valid(w)
    ensures h.None? ==> r.None?
    ensures h.Some? && (w.None? || Text(w) == []) ==> r == Some(0)
    ensures h.Some? && w.Some? && Text(w) != [] ==>
              (r.None? <==> forall j :: 0 <= j <= |Text(h)| ==> !Occurs(Text(h), Text(w), j)) &&
              (r.Some? ==> Occurs(Text(h), Text(w), r.value) &&
                           forall j :: r.value < j <= |Text(h)| ==> !Occurs(Text(h), Text(w), j))
  {
    if h.None? || w.None? || w.value[0] == 0 {
      return if h.Some? then Some(0) else None;
    }
    var s := h.value;
    ghost var t, cw := Text(h), Text(w);
    var pos := 0;
    r := None;
    var found := SearchFrom(s, w, 0);
    while found.Some?
      invariant pos <= |t|
      invariant found.Some? ==> pos <= found.value && Occurs(t, cw, found.value) &&
                                forall j :: pos <= j < found.value ==> !Occurs(t, cw, j)
      invariant found.None? ==> forall j :: pos <= j <= |t| ==> !Occurs(t, cw, j)
      invariant r.Some? ==> r.value < pos && Occurs(t, cw, r.value) && forall j :: r.value < j < pos ==> !Occurs(t, cw, j)
      invariant r.None? ==> forall j :: 0 <= j < pos ==> !Occurs(t, cw, j)
      decreases |t| - pos
    {
      r := found;
      pos := found.value + 1;
      found := SearchFrom(s, w, pos);
    }
  }

  /** The str_str call on the haystack from position pos on, its answer read as a position in the whole haystack. */
  method SearchFrom(s: Bytes, w: CStr, pos: nat) returns (found: Option<nat>)
    requires Terminated(s) && Valid(w) && w.Some? && Text(w) != [] && pos <= CStrLen(s)
    ensures found.Some? ==> pos <= found.value && Occurs(Chars(s), Text(w), found.value) &&
                            forall j :: pos <= j < found.value ==> !Occurs(Chars(s), Text(w), j)
    ensures found.None? ==> forall j :: pos <= j <= CStrLen(s) ==> !Occurs(Chars(s), Text(w), j)
  {
    ghost var t, cw := Chars(s), Text(w);
    OccursShift(s, pos, cw);
    var k := StrStr(Some(s[pos..]), w);
    assert Text(Some(s[pos..])) == Chars(s[pos..]);
    if k.Some? {
      found := Some(pos + k.value);
      forall j | pos <= j < pos + k.value
        ensures !Occurs(t, cw, j)
      {
        assert !Occurs(Chars(s[pos..]), cw, j - pos);
      }
    } else {
      found := None;
      forall j | pos <= j <= |t|
        ensures !Occurs(t, cw, j)
      {
        assert !Occurs(Chars(s[pos..]), cw, j - pos);
      }
    }
  }

  /** Occurrences in the string that starts pos characters into a buffer are occurrences shifted by pos. */
  lemma OccursShift(s: Bytes, pos: nat, w: Bytes)
    requires Terminated(s) && pos <= CStrLen(s)
    ensures Terminated(s[pos..]) && Chars(s[pos..]) == Chars(s)[pos..]
    ensures forall k :: 0 <= k ==> (Occurs(Chars(s[pos..]), w, k) <==> Occurs(Chars(s), w, pos + k))
  {
    CharsFrom(s, pos);
    forall k | 0 <= k
      ensures Occurs(Chars(s[pos..]), w, k) <==> Occurs(Chars(s), w, pos + k)
    {
      OccursFrom(Chars(s), w, pos, k);
    }
  }

  /** Whether c is one of the characters of the string chars: the inner loops of str_pbrk, str_span and str_cspan. */
  method OneOf(c: byte, chars: Bytes) returns (found: bool)
    requires Terminated(chars)
    ensures found <==> c in Chars(chars)
  {
    var k := 0;
    while chars[k] != 0
      invariant k <= CStrLen(chars)
      invariant forall j :: 0 <= j < k ==> chars[j] != c
      decreases CStrLen(chars) - k
    {
      if chars[k] == c {
        return true;
      }
      k := k + 1;
    }
    return false;
  }

  /** str_pbrk: the position of the first character that is one of chars; NULL when none is or for NULL. */
  method StrPbrk(p: CStr, chars: CStr) returns (r: Option<nat>)
    requires Valid(p) && Valid(chars)
    ensures p.None? || chars.None? ==> r.None?
    ensures r.Some? ==> p.Some? && chars.Some? && r.value < |Text(p)| && Text(p)[r.value] in Text(chars) &&
                        forall j :: 0 <= j < r.value ==> Text(p)[j] !in Text(chars)
    ensures r.None? && p.Some? && chars.Some? ==> forall j :: 0 <= j < |Text(p)| ==> Text(p)[j] !in Text(chars)
  {
    if p.None? || chars.None? {
      return None;
    }
    var s := p.value;
    var i := 0;
    while s[i] != 0
      invariant i <= CStrLen(s)
      invariant forall j :: 0 <= j < i ==> s[j] !in Text(chars)
      decreases CStrLen(s) - i
    {
      var found := OneOf(s[i], chars.value);
      if found {
        return Some(i);
      }
      i := i + 1;
    }
    return None;
  }

  /** str_span: the length of the longest prefix made of characters of accept. */
  method StrSpan(s: Bytes, accept: Bytes) returns (n: nat)
    requires Terminated(s) && Terminated(accept)
    ensures n <= CStrLen(s)
    ensures forall j :: 0 <= j < n ==> s[j] in Chars(accept)
    ensures n < CStrLen(s) ==> s[n] !in Chars(accept)
  {
    n := 0;
    while s[n] != 0
      invariant n <= CStrLen(s)
      invariant forall j :: 0 <= j < n ==> s[j] in Chars(accept)
      decreases CStrLen(s) - n
    {
      var found := OneOf(s[n], accept);
      if !found {
        return;
      }
      n := n + 1;
    }
  }

  /** str_cspan: the length of the longest prefix with no character of reject. */
  method StrCSpan(s: Bytes, reject: Bytes) returns (n: nat)
    requires Terminated(s) && Terminated(reject)
    ensures n <= CStrLen(s)
    ensures forall j :: 0 <= j < n ==> s[j] !in Chars(reject)
    ensures n < CStrLen(s) ==> s[n] in Chars(reject)
  {
    n := 0;
    while s[n] != 0
      invariant n <= CStrLen(s)
      invariant forall j :: 0 <= j < n ==> s[j] !in Chars(reject)
      decreases CStrLen(s) - n
    {
      var found := OneOf(s[n], reject);
      if found {
        return;
      }
      n := n + 1;
    }
  }

  /** The character classes of the str_is_* tests, in the C locale. */
  predicate IsUpper(c: byte) { 'A' as int <= c <= 'Z' as int }
  predicate IsLower(c: byte) { 'a' as int <= c <= 'z' as int }
  predicate IsAlpha(c: byte) { IsUpper(c) || IsLower(c) }
  predicate IsDigit(c: byte) { '0' as int <= c <= '9' as int }
  predicate IsAlnum(c: byte) { IsDigit(c) || IsAlpha(c) }
  /** Space, tab, newline, carriage return, form feed and vertical tab. */
  predicate IsSpace(c: byte) { c == 32 || 9 <= c <= 13 }

  /** The loop every str_is_* test runs: false for NULL, otherwise whether every character is in the class. */
  method StrAll(p: CStr, inClass: byte -> bool) returns (b: bool)
    requires Valid(p)
    ensures b <==> p.Some? && forall j :: 0 <= j < |Text(p)| ==> inClass(Text(p)[j])
  {
    if p.None? {
      return false;
    }
    var s := p.value;
    var i := 0;
    while s[i] != 0
      invariant i <= CStrLen(s)
      invariant forall j :: 0 <= j < i ==> inClass(s[j])
      decreases CStrLen(s) - i
    {
      if !inClass(s[i]) {
        assert Text(p)[i] == s[i];
        return false;
      }
      i := i + 1;
    }
    return true;
  }

  /** str_is_alpha: every character is a letter (true for ""). */
  method StrIsAlpha(p: CStr) returns (b: bool)
    requires Valid(p)
    ensures b <==> p.Some? && forall j :: 0 <= j < |Text(p)| ==> IsAlpha(Text(p)[j])
  {
    b := StrAll(p, IsAlpha);
  }

  /** str_is_digit: every character is a decimal digit. */
  method StrIsDigit(p: CStr) returns (b: bool)
    requires Valid(p)
    ensures b <==> p.Some? && forall j :: 0 <= j < |Text(p)| ==> IsDigit(Text(p)[j])
  {
    b := StrAll(p, IsDigit);
  }

  /** str_is_alnum: every character is a digit or a letter. */
  method StrIsAlnum(p: CStr) returns (b: bool)
    requires Valid(p)
    ensures b <==> p.Some? && forall j :: 0 <= j < |Text(p)| ==> IsAlnum(Text(p)[j])
  {
    b := StrAll(p, IsAlnum);
  }

  /** str_is_space: every character is white space. */
  method StrIsSpace(p: CStr) returns (b: bool)
    requires Valid(p)
    ensures b <==> p.Some? && forall j :: 0 <= j < |Text(p)| ==> IsSpace(Text(p)[j])
  {
    b := StrAll(p, IsSpace);
  }

  /** str_is_upper: every character is an upper-case letter. */
  method StrIsUpper(p: CStr) returns (b: bool)
    requires Valid(p)
    ensures b <==> p.Some? && forall j :: 0 <= j < |Text(p)| ==> IsUpper(Text(p)[j])
  {
    b := StrAll(p, IsUpper);
  }

  /** str_is_lower: every character is a lower-case letter. */
  method StrIsLower(p: CStr) returns (b: bool)
    requires Valid(p)
    ensures b <==> p.Some? && forall j :: 0 <= j < |Text(p)| ==> IsLower(Text(p)[j])
  {
    b := StrAll(p, IsLower);
  }

  /** str_count_char: how often c occurs among the characters; 0 for NULL (and for c = NUL). */
  method StrCountChar(p: CStr, c: byte) returns (n: nat)
    requires Valid(p)
    ensures p.None? ==> n == 0
    ensures p.Some? ==> n == multiset(Text(p))[c]
    ensures c == 0 ==> n == 0
  {
    n := 0;
    if p.None? {
      return;
    }
    var s := p.value;
    ghost var t := Text(p);
    var i := 0;
    while s[i] != 0
      invariant i <= |t| && n == multiset(t[..i])[c]
      decreases |t| - i
    {
      assert t[..i + 1] == t[..i] + [s[i]];
      if s[i] == c {
        n := n + 1;
      }
      i := i + 1;
    }
    assert t[..i] == t;
  }

  /** str_array_len: the number of entries before the NULL that ends a string array; 0 for NULL. */
  method StrArrayLen(arr: Option<seq<CStr>>) returns (n: nat)
    requires arr.Some? ==> None in arr.value
    ensures arr.None? ==> n == 0
    ensures arr.Some? ==> n < |arr.value| && arr.value[n].None? && forall j :: 0 <= j < n ==> arr.value[j].Some?
  {
    n := 0;
    if arr.None? {
      return;
    }
    var a := arr.value;
    ghost var k :| 0 <= k < |a| && a[k].None?;
    while a[n].Some?
      invariant n <= k
      invariant forall j :: 0 <= j < n ==> a[j].Some?
      decreases k - n
    {
      n := n + 1;
    }
  }
}
