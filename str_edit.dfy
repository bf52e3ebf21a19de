/**
 * The string functions of strings.c that change a buffer in place: clear,
 * copy and concatenation, case mapping, reversal and trimming.  The buffer
 * written to is an array of bytes; a source string that is only read is a
 * terminated byte sequence.  Each function is specified by the characters
 * the buffer holds afterwards and by the exact bytes it writes.
 */
module StrEdit {
  import opened Common
  import Compare
  import StrQuery

  /** A buffer holding the characters t and then a NUL holds the string t. */
  lemma CharsOf(b: Bytes, t: Bytes)
    requires |t| < |b| && 0 !in t && b[..|t|] == t && b[|t|] == 0
    ensures Terminated(b) && CStrLen(b) == |t| && Chars(b) == t
  {
    forall j | 0 <= j < |t|
      ensures b[j] != 0
    {
      assert b[j] == t[j] && t[j] in t;
    }
  }

  /**
   * A buffer o whose string u (without NUL) was written from position d,
   * followed by a NUL, and nothing else changed: when d is where o's string
   * ended, the buffer holds o's string followed by u.
   */
  lemma Spliced(b: Bytes, o: Bytes, d: nat, u: Bytes)
    requires |b| == |o| && d + |u| < |b| && 0 !in u
    requires forall j :: 0 <= j < d ==> b[j] == o[j]
    requires forall j :: 0 <= j < |u| ==> b[d + j] == u[j]
    requires b[d + |u|] == 0
    requires forall j :: d + |u| < j < |b| ==> b[j] == o[j]
    ensures b == o[..d] + u + [0] + o[d + |u| + 1..]
    ensures Terminated(o) && d == CStrLen(o) ==> Terminated(b) && Chars(b) == Chars(o) + u
  {
    assert b == o[..d] + u + [0] + o[d + |u| + 1..];
    if Terminated(o) && d == CStrLen(o) {
      assert b[..d + |u|] == Chars(o) + u;
      CharsOf(b, Chars(o) + u);
    }
  }

  /** str_clear: the buffer holds the empty string; only its first byte changes. */
  method StrClear(a: array<byte>)
    requires a.Length > 0
    modifies a
    ensures a[..] == old(a[..])[0 := 0]
    ensures Terminated(a[..]) && Chars(a[..]) == []
  {
    a[0] := 0;
  }

  /** The copy loop of str_copy and str_cat: src's characters and its NUL, written from position at. */
  method CopyAt(dest: array<byte>, at: nat, src: Bytes)
    requires Terminated(src) && at + CStrLen(src) < dest.Length
    modifies dest
    ensures dest[..] == old(dest[..])[..at] + src[..CStrLen(src) + 1] + old(dest[..])[at + CStrLen(src) + 1..]
  {
    var i := 0;
    while src[i] != 0
      invariant i <= CStrLen(src)
      invariant forall j :: 0 <= j < at ==> dest[j] == old(dest[j])
      invariant forall j :: 0 <= j < i ==> dest[at + j] == src[j]
      invariant forall j :: at + i <= j < dest.Length ==> dest[j] == old(dest[j])
      decreases CStrLen(src) - i
    {
      dest[at + i] := src[i];
      i := i + 1;
    }
    dest[at + i] := 0;
    Spliced(dest[..], old(dest[..]), at, src[..i]);
    assert src[..i] + [0] == src[..i + 1];
  }

  /** str_copy: a NULL src leaves dest alone; otherwise dest holds src's string and the bytes after its NUL are kept. */
  method StrCopy(dest: array<byte>, src: StrQuery.CStr)
    requires StrQuery.Valid(src) && (src.Some? ==> CStrLen(src.value) < dest.Length)
    modifies dest
    ensures src.None? ==> dest[..] == old(dest[..])
    ensures src.Some? ==> dest[..] == src.value[..CStrLen(src.value) + 1] + old(dest[..])[CStrLen(src.value) + 1..]
    ensures src.Some? ==> Terminated(dest[..]) && Chars(dest[..]) == Chars(src.value)
  {
    if src.None? {
      return;
    }
    var src := src.value;
    CopyAt(dest, 0, src);
    assert dest[..][..CStrLen(src)] == Chars(src);
    CharsOf(dest[..], Chars(src));
  }

  /**
   * str_ncopy: the first n bytes of dest become src's characters, cut at n,
   * and NUL padding up to n; nothing is terminated when src has n
   * characters or more.  A NULL src leaves dest alone.
   */
  method StrNCopy(dest: array<byte>, src: StrQuery.CStr, n: nat)
    requires StrQuery.Valid(src) && n <= dest.Length
    modifies dest
    ensures src.None? ==> dest[..] == old(dest[..])
    ensures src.Some? ==> forall j :: 0 <= j < dest.Length ==>
              dest[j] == if j < n then (if j < CStrLen(src.value) then src.value[j] else 0) else old(dest[j])
    ensures src.Some? && n > CStrLen(src.value) ==> Terminated(dest[..]) && Chars(dest[..]) == Chars(src.value)
  {
    if src.None? {
      return;
    }
    var src := src.value;
    var i := 0;
    while i < n && src[i] != 0
      invariant i <= n && i <= CStrLen(src)
      invariant forall j :: 0 <= j < i ==> dest[j] == src[j]
      invariant forall j :: i <= j < dest.Length ==> dest[j] == old(dest[j])
      decreases n - i
    {
      dest[i] := src[i];
      i := i + 1;
    }
    while i < n
      invariant i <= n
      invariant forall j :: 0 <= j < i ==> dest[j] == if j < CStrLen(src) then src[j] else 0
      invariant forall j :: i <= j < dest.Length ==> dest[j] == old(dest[j])
    {
      dest[i] := 0;
      i := i + 1;
    }
    if n > CStrLen(src) {
      assert dest[..][..CStrLen(src)] == Chars(src);
      CharsOf(dest[..], Chars(src));
    }
  }

  /** str_cat: a NULL src leaves dest alone; otherwise src's string and NUL are written over dest's NUL. */
  method StrCat(dest: array<byte>, src: StrQuery.CStr)
    requires Terminated(dest[..]) && StrQuery.Valid(src)
    requires src.Some? ==> CStrLen(dest[..]) + CStrLen(src.value) < dest.Length
    modifies dest
    ensures src.None? ==> dest[..] == old(dest[..])
    ensures src.Some? ==> var d, n := CStrLen(old(dest[..])), CStrLen(src.value);
            dest[..] == old(dest[..])[..d] + src.value[..n + 1] + old(dest[..])[d + n + 1..]
    ensures Terminated(dest[..])
    ensures src.Some? ==> Chars(dest[..]) == Chars(old(dest[..])) + Chars(src.value)
  {
    if src.None? {
      return;
    }
    var src := src.value;
    ghost var t := Chars(dest[..]);
    var d := StrQuery.StrLen(Some(dest[..]));
    CopyAt(dest, d, src);
    assert dest[..][..d + CStrLen(src)] == t + Chars(src);
    CharsOf(dest[..], t + Chars(src));
  }

  /** The copy loop of str_ncat: at most n characters of src, then a NUL, written from position at. */
  method NCopyAt(dest: array<byte>, at: nat, src: Bytes, n: nat) returns (k: nat)
    requires Terminated(src) && at + Min(n, CStrLen(src)) < dest.Length
    modifies dest
    ensures k == Min(n, CStrLen(src)) && src[..k] == Compare.Take(Chars(src), n)
    ensures dest[..] == old(dest[..])[..at] + src[..k] + [0] + old(dest[..])[at + k + 1..]
  {
    k := 0;
    while k < n && src[k] != 0
      invariant k <= n && k <= CStrLen(src)
      invariant forall j :: 0 <= j < at ==> dest[j] == old(dest[j])
      invariant forall j :: 0 <= j < k ==> dest[at + j] == src[j]
      invariant forall j :: at + k <= j < dest.Length ==> dest[j] == old(dest[j])
      decreases n - k
    {
      dest[at + k] := src[k];
      k := k + 1;
    }
    dest[at + k] := 0;
    Spliced(dest[..], old(dest[..]), at, src[..k]);
  }

  /** The buffer o after at most n characters of src and a NUL are written over its NUL. */
  ghost function Appended(o: Bytes, src: Bytes, n: nat): (b: Bytes)
    requires Terminated(o) && Terminated(src) && CStrLen(o) + Min(n, CStrLen(src)) < |o|
    ensures |b| == |o|
  {
    var d, k := CStrLen(o), Min(n, CStrLen(src));
    o[..d] + src[..k] + [0] + o[d + k + 1..]
  }

  /** Appending keeps the buffer terminated and its string is the old one followed by at most n characters of src. */
  lemma AppendedChars(o: Bytes, src: Bytes, n: nat)
    requires Terminated(o) && Terminated(src) && CStrLen(o) + Min(n, CStrLen(src)) < |o|
    ensures Terminated(Appended(o, src, n)) && Chars(Appended(o, src, n)) == Chars(o) + Compare.Take(Chars(src), n)
    ensures CStrLen(Appended(o, src, n)) == CStrLen(o) + Min(n, CStrLen(src))
  {
    var d, k := CStrLen(o), Min(n, CStrLen(src));
    var b := Appended(o, src, n);
    assert src[..k] == Compare.Take(Chars(src), n);
    assert b[..d + k] == Chars(o) + src[..k];
    CharsOf(b, Chars(o) + src[..k]);
  }

  /** str_ncat: a NULL src leaves dest alone; otherwise at most n characters of src, then a NUL, are written over dest's NUL. */
  method StrNCat(dest: array<byte>, src: StrQuery.CStr, n: nat)
    requires Terminated(dest[..]) && StrQuery.Valid(src)
    requires src.Some? ==> CStrLen(dest[..]) + Min(n, CStrLen(src.value)) < dest.Length
    modifies dest
    ensures src.None? ==> dest[..] == old(dest[..])
    ensures src.Some? ==> dest[..] == Appended(old(dest[..]), src.value, n)
    ensures Terminated(dest[..])
    ensures src.Some? ==> Chars(dest[..]) == Chars(old(dest[..])) + Compare.Take(Chars(src.value), n)
  {
    if src.None? {
      return;
    }
    var src := src.value;
    ghost var o := dest[..];
    var d := StrQuery.StrLen(Some(dest[..]));
    var k := NCopyAt(dest, d, src, n);
    assert dest[..] == Appended(o, src, n);
    AppendedChars(o, src, n);
  }

  /**
   * str_lcpy: for a non-zero size, dest holds as much of src as fits in
   * size bytes with the NUL; the result is always src's full length.  A
   * NULL src has length 0: a non-zero size leaves dest the empty string.
   */
  method StrLCpy(dest: array<byte>, src: StrQuery.CStr, size: nat) returns (r: nat)
    requires StrQuery.Valid(src) && size <= dest.Length
    modifies dest
    ensures r == if src.None? then 0 else CStrLen(src.value)
    ensures size == 0 ==> dest[..] == old(dest[..])
    ensures size > 0 && src.None? ==> dest[..] == old(dest[..])[0 := 0] && Terminated(dest[..]) && Chars(dest[..]) == []
    ensures size > 0 && src.Some? ==> var k := Min(CStrLen(src.value), size - 1);
                         dest[..] == src.value[..k] + [0] + old(dest[..])[k + 1..] &&
                         Terminated(dest[..]) && Chars(dest[..]) == Compare.Take(Chars(src.value), size - 1)
  {
    r := StrQuery.StrLen(src);
    if size > 0 {
      var n := if r < size - 1 then r else size - 1;
      StrNCopy(dest, src, n);
      dest[n] := 0;
      if src.Some? {
        var s := src.value;
        assert dest[..] == s[..n] + [0] + old(dest[..])[n + 1..];
        assert dest[..][..n] == Compare.Take(Chars(s), size - 1);
        CharsOf(dest[..], Compare.Take(Chars(s), size - 1));
      } else {
        CharsOf(dest[..], []);
      }
    }
  }

  /**
   * str_lcat: when dest's string leaves room in size bytes, as much of src
   * as fits is appended; the result is always the sum of both lengths.
   * A NULL src has length 0 and appends nothing.
   */
  method StrLCat(dest: array<byte>, src: StrQuery.CStr, size: nat) returns (r: nat)
    requires Terminated(dest[..]) && StrQuery.Valid(src) && size <= dest.Length
    modifies dest
    ensures r == CStrLen(old(dest[..])) + (if src.None? then 0 else CStrLen(src.value))
    ensures src.None? || size <= CStrLen(old(dest[..])) + 1 ==> dest[..] == old(dest[..])
    ensures src.Some? && size > CStrLen(old(dest[..])) + 1 ==> LCatDone(old(dest[..]), dest[..], src.value, size)
  {
    ghost var o := dest[..];
    var d := StrQuery.StrLen(Some(dest[..]));
    var n := StrQuery.StrLen(src);
    if size > d + 1 {
      StrNCat(dest, src, size - d - 1);
      if src.Some? {
        LCatFacts(o, dest[..], src.value, size);
      }
    }
    r := d + n;
  }

  /**
   * What str_lcat leaves when dest's string d leaves room in size bytes: as
   * much of src appended as keeps the string shorter than size.
   */
  ghost predicate LCatDone(o: Bytes, b: Bytes, src: Bytes, size: nat)
    requires Terminated(o) && Terminated(src) && CStrLen(o) + 1 < size <= |o|
  {
    var d := CStrLen(o);
    b == Appended(o, src, size - d - 1) &&
    Terminated(b) && CStrLen(b) < size && Chars(b) == Chars(o) + Compare.Take(Chars(src), size - d - 1)
  }

  /** The state str_ncat leaves with size - d - 1 as its bound is the state str_lcat promises. */
  lemma LCatFacts(o: Bytes, b: Bytes, src: Bytes, size: nat)
    requires Terminated(o) && Terminated(src) && CStrLen(o) + 1 < size <= |o|
    requires b == Appended(o, src, size - CStrLen(o) - 1)
    ensures LCatDone(o, b, src, size)
  {
    var n: nat := size - CStrLen(o) - 1;
    AppendedChars(o, src, n);
    assert CStrLen(b) == CStrLen(o) + Min(n, CStrLen(src)) <= CStrLen(o) + n;
  }

  /** The ASCII-upper-cased characters of a string. */
  function Uppered(s: Bytes): (r: Bytes)
    ensures |r| == |s|
    ensures forall i :: 0 <= i < |s| ==> r[i] == ToUpper(s[i])
  {
    if s == [] then [] else [ToUpper(s[0])] + Uppered(s[1..])
  }

  /** Upper-casing twice is upper-casing once. */
  lemma UpperIdempotent(s: Bytes)
    ensures Uppered(Uppered(s)) == Uppered(s)
  {
  }

  /** Lower-casing twice is lower-casing once. */
  lemma LowerIdempotent(s: Bytes)
    ensures Compare.Lowered(Compare.Lowered(s)) == Compare.Lowered(s)
  {
  }

  /** Case mapping changes only letters and never makes or removes a NUL. */
  lemma CaseMapsKeepNul(s: Bytes)
    requires 0 !in s
    ensures 0 !in Uppered(s) && 0 !in Compare.Lowered(s)
    ensures forall i :: 0 <= i < |s| && Uppered(s)[i] != s[i] ==> 'a' as int <= s[i] <= 'z' as int
    ensures forall i :: 0 <= i < |s| && Compare.Lowered(s)[i] != s[i] ==> 'A' as int <= s[i] <= 'Z' as int
  {
    forall i | 0 <= i < |s|
      ensures Uppered(s)[i] != 0 && Compare.Lowered(s)[i] != 0
    {
      assert s[i] in s;
    }
  }

  /** str_upper: every lower-case letter of the string becomes upper-case; nothing else changes. */
  method StrUpper(a: array<byte>)
    requires Terminated(a[..])
    modifies a
    ensures Terminated(a[..]) && Chars(a[..]) == Uppered(Chars(old(a[..])))
    ensures a[CStrLen(old(a[..]))..] == old(a[..])[CStrLen(old(a[..]))..]
  {
    ghost var t := Chars(a[..]);
    var i := 0;
    while a[i] != 0
      invariant i <= |t|
      invariant forall j :: 0 <= j < i ==> a[j] == ToUpper(old(a[j]))
      invariant forall j :: i <= j < a.Length ==> a[j] == old(a[j])
      decreases |t| - i
    {
      if 'a' as int <= a[i] <= 'z' as int {
        a[i] := a[i] - 32;
      }
      i := i + 1;
    }
    CaseMapsKeepNul(t);
    assert a[..][..i] == Uppered(t);
    CharsOf(a[..], Uppered(t));
  }

  /** str_lower on the string that starts at position from: its upper-case letters become lower-case. */
  method StrLowerAt(a: array<byte>, from: nat)
    requires Terminated(a[..]) && from <= CStrLen(a[..])
    modifies a
    ensures var t := Chars(old(a[..]));
            Terminated(a[..]) && Chars(a[..]) == t[..from] + Compare.Lowered(t[from..])
    ensures a[CStrLen(old(a[..]))..] == old(a[..])[CStrLen(old(a[..]))..]
  {
    ghost var t := Chars(a[..]);
    var i := from;
    while a[i] != 0
      invariant from <= i <= |t|
      invariant forall j :: 0 <= j < from ==> a[j] == old(a[j])
      invariant forall j :: from <= j < i ==> a[j] == ToLower(old(a[j]))
      invariant forall j :: i <= j < a.Length ==> a[j] == old(a[j])
      decreases |t| - i
    {
      if 'A' as int <= a[i] <= 'Z' as int {
        a[i] := a[i] + 32;
      }
      i := i + 1;
    }
    CaseMapsKeepNul(t[from..]);
    assert a[..][..i] == t[..from] + Compare.Lowered(t[from..]);
    CharsOf(a[..], t[..from] + Compare.Lowered(t[from..]));
  }

  /** str_lower: every upper-case letter of the string becomes lower-case; nothing else changes. */
  method StrLower(a: array<byte>)
    requires Terminated(a[..])
    modifies a
    ensures Terminated(a[..]) && Chars(a[..]) == Compare.Lowered(Chars(old(a[..])))
    ensures a[CStrLen(old(a[..]))..] == old(a[..])[CStrLen(old(a[..]))..]
  {
    StrLowerAt(a, 0);
  }

  /** str_capitalize: the first character upper-cased, the rest lower-cased; the empty string is left alone. */
  method StrCapitalize(a: array<byte>)
    requires Terminated(a[..])
    modifies a
    ensures var t := Chars(old(a[..]));
            Terminated(a[..]) && Chars(a[..]) == if t == [] then [] else [ToUpper(t[0])] + Compare.Lowered(t[1..])
    ensures a[CStrLen(old(a[..]))..] == old(a[..])[CStrLen(old(a[..]))..]
  {
    ghost var t := Chars(a[..]);
    if a[0] == 0 {
      return;
    }
    a[0] := ToUpper(a[0]);
    ghost var u := Chars(a[..]);
    assert ToUpper(t[0]) != 0;
    assert a[..][..|t|] == [ToUpper(t[0])] + t[1..];
    CharsOf(a[..], [ToUpper(t[0])] + t[1..]);
    StrLowerAt(a, 1);
    assert u[..1] == [ToUpper(t[0])] && u[1..] == t[1..];
  }

  /** The characters of s in reverse order. */
  function Reversed(s: Bytes): (r: Bytes)
    ensures |r| == |s|
    ensures forall i :: 0 <= i < |s| ==> r[i] == s[|s| - 1 - i]
  {
    if s == [] then [] else Reversed(s[1..]) + [s[0]]
  }

  /** Reversing twice gives the original string back. */
  lemma ReverseTwice(s: Bytes)
    ensures Reversed(Reversed(s)) == s
  {
  }

  /** str_reverse: the characters are reversed in place by swapping from both ends. */
  method StrReverse(a: array<byte>)
    requires Terminated(a[..])
    modifies a
    ensures Terminated(a[..]) && Chars(a[..]) == Reversed(Chars(old(a[..])))
    ensures a[CStrLen(old(a[..]))..] == old(a[..])[CStrLen(old(a[..]))..]
  {
    ghost var t := Chars(a[..]);
    var len := StrQuery.StrLen(Some(a[..]));
    var i := 0;
    while i < len / 2
      invariant 0 <= i <= len / 2
      invariant forall j :: 0 <= j < i ==> a[j] == old(a[len - 1 - j]) && a[len - 1 - j] == old(a[j])
      invariant forall j :: i <= j < len - i ==> a[j] == old(a[j])
      invariant forall j :: len <= j < a.Length ==> a[j] == old(a[j])
    {
      var tmp := a[i];
      a[i] := a[len - 1 - i];
      a[len - 1 - i] := tmp;
      i := i + 1;
    }
    Swapped(a[..], old(a[..]), len, i);
  }

  /** The state the swapping loop of str_reverse ends in holds the reversed string. */
  lemma Swapped(b: Bytes, o: Bytes, len: nat, i: nat)
    requires |b| == |o| && Terminated(o) && len == CStrLen(o) && i == len / 2
    requires forall j :: 0 <= j < i ==> b[j] == o[len - 1 - j] && b[len - 1 - j] == o[j]
    requires forall j :: i <= j < len - i ==> b[j] == o[j]
    requires forall j :: len <= j < |b| ==> b[j] == o[j]
    ensures Terminated(b) && Chars(b) == Reversed(Chars(o)) && b[len..] == o[len..]
  {
    var t := Chars(o);
    forall k | 0 <= k < len
      ensures b[k] == Reversed(t)[k] && Reversed(t)[k] != 0
    {
      assert t[len - 1 - k] in t;
    }
    assert b[..len] == Reversed(t);
    CharsOf(b, Reversed(t));
  }

  /** The characters the trim functions strip: space, tab and newline. */
  predicate Blank(c: byte)
  {
    c == ' ' as int || c == '\t' as int || c == '\n' as int
  }

  /** How many characters a string starts with that are blank. */
  function Lead(t: Bytes): (k: nat)
    ensures k <= |t|
    ensures forall j :: 0 <= j < k ==> Blank(t[j])
    ensures k < |t| ==> !Blank(t[k])
  {
    if t == [] || !Blank(t[0]) then 0 else 1 + Lead(t[1..])
  }

  /** The length of a string without its trailing blanks. */
  function Keep(t: Bytes): (k: nat)
    ensures k <= |t|
    ensures forall j :: k <= j < |t| ==> Blank(t[j])
    ensures k > 0 ==> !Blank(t[k - 1])
    decreases |t|
  {
    if t == [] || !Blank(t[|t| - 1]) then |t| else Keep(t[..|t| - 1])
  }

  /** A string without its leading and trailing blanks. */
  function Trimmed(t: Bytes): (r: Bytes)
  {
    if Lead(t) == |t| then [] else t[Lead(t)..Keep(t)]
  }

  /** A position past which everything is blank and before which a non-blank stands is where the kept part ends. */
  lemma KeepUnique(t: Bytes, e: nat)
    requires e <= |t| && (forall j :: e <= j < |t| ==> Blank(t[j])) && (e > 0 ==> !Blank(t[e - 1]))
    ensures Keep(t) == e
  {
  }

  /** A trimmed string has neither a leading nor a trailing blank. */
  lemma TrimmedEnds(t: Bytes)
    ensures var r := Trimmed(t); r != [] ==> !Blank(r[0]) && !Blank(r[|r| - 1])
  {
    var l, k := Lead(t), Keep(t);
    if l < |t| {
      assert k > l;
      var r := t[l..k];
      assert Trimmed(t) == r;
      assert r[0] == t[l] && r[|r| - 1] == t[k - 1];
    } else {
      assert Trimmed(t) == [];
    }
  }

  /** A non-empty trimmed string is t without its leading and its trailing blanks. */
  lemma TrimmedSplit(t: Bytes)
    ensures Trimmed(t) != [] ==> t == t[..Lead(t)] + Trimmed(t) + t[Keep(t)..]
  {
    var l, k := Lead(t), Keep(t);
    if l < |t| {
      assert k > l;
      assert Trimmed(t) == t[l..k];
      ThreeParts(t, l, k);
    } else {
      assert Trimmed(t) == [];
    }
  }

  /** A string is its three slices at l and k put back together. */
  lemma ThreeParts(t: Bytes, l: nat, k: nat)
    requires l <= k <= |t|
    ensures t == t[..l] + t[l..k] + t[k..]
  {
    assert t[l..k] + t[k..] == t[l..];
  }

  /** Trimming leaves nothing exactly when every character is blank. */
  lemma TrimmedEmpty(t: Bytes)
    ensures Trimmed(t) == [] <==> forall j :: 0 <= j < |t| ==> Blank(t[j])
  {
    var l := Lead(t);
    if l < |t| {
      assert Keep(t) > l;
      assert !Blank(t[l]);
    }
  }

  /**
   * How many characters the right-trimming loop of str_trim_right and
   * str_trim keeps: it walks back over blanks but stops at the first
   * character, so one character always stays.
   */
  function KeptAsWritten(t: Bytes): (k: nat)
    ensures k <= |t|
  {
    if t == [] then 0 else Max(1, Keep(t))
  }

  /** The right-trimming loop as written keeps a lone blank: "   " becomes " ", where no blank should remain. */
  lemma TrimRightKeepsBlank()
    ensures KeptAsWritten([32, 32, 32]) == 1 && Keep([32, 32, 32]) == 0
  {
    assert [32, 32, 32][..2] == [32, 32];
    assert [32, 32][..1] == [32];
    assert [32][..0] == [];
  }

  /** The right-trimming loop as written: back from the last character over blanks, stopping at the first character. */
  method TrimRightLoop(a: array<byte>) returns (k: nat)
    requires Terminated(a[..])
    ensures k == KeptAsWritten(Chars(a[..]))
  {
    ghost var t := Chars(a[..]);
    var len := StrQuery.StrLen(Some(a[..]));
    var end := len as int - 1;
    while end > 0 && Blank(a[end])
      invariant -1 <= end < len && (end == -1 ==> len == 0)
      invariant forall j :: end < j < len ==> Blank(t[j])
      decreases end
    {
      end := end - 1;
    }
    k := end + 1;
    if end > 0 {
      KeepUnique(t, k);
    } else if end == 0 {
      assert Keep(t) <= 1;
    }
  }

  /**
   * str_trim_right as written: the NUL goes after the last non-blank
   * character, except that the first character is never removed.
   */
  method StrTrimRightAsWritten(a: array<byte>)
    requires Terminated(a[..])
    modifies a
    ensures var t := Chars(old(a[..]));
            a[..] == old(a[..])[KeptAsWritten(t) := 0] && Terminated(a[..]) && Chars(a[..]) == t[..KeptAsWritten(t)]
  {
    ghost var t := Chars(a[..]);
    var k := TrimRightLoop(a);
    a[k] := 0;
    assert a[..][..k] == t[..k];
    CharsOf(a[..], t[..k]);
  }

  /** str_trim_right as evidently intended: every trailing blank is removed. */
  method StrTrimRight(a: array<byte>)
    requires Terminated(a[..])
    modifies a
    ensures var t := Chars(old(a[..]));
            a[..] == old(a[..])[Keep(t) := 0] && Terminated(a[..]) && Chars(a[..]) == t[..Keep(t)]
    ensures Chars(a[..]) == [] || !Blank(Chars(a[..])[|Chars(a[..])| - 1])
  {
    ghost var t := Chars(a[..]);
    var len := StrQuery.StrLen(Some(a[..]));
    var end := len;
    while end > 0 && Blank(a[end - 1])
      invariant 0 <= end <= len
      invariant forall j :: end <= j < len ==> Blank(t[j])
    {
      end := end - 1;
    }
    KeepUnique(t, end);
    a[end] := 0;
    assert a[..][..end] == t[..end];
    CharsOf(a[..], t[..end]);
  }

  /** str_trim_left: the position of the first non-blank character; nothing is written. */
  method StrTrimLeft(s: Bytes) returns (off: nat)
    requires Terminated(s)
    ensures off == Lead(Chars(s))
  {
    ghost var t := Chars(s);
    off := 0;
    while s[off] != 0 && Blank(s[off])
      invariant off <= |t|
      invariant forall j :: 0 <= j < off ==> Blank(t[j])
      decreases |t| - off
    {
      off := off + 1;
    }
    LeadUnique(t, off);
  }

  /** A position before which everything is blank and at which a non-blank (or the end) stands is the lead. */
  lemma LeadUnique(t: Bytes, e: nat)
    requires e <= |t| && (forall j :: 0 <= j < e ==> Blank(t[j])) && (e < |t| ==> !Blank(t[e]))
    ensures Lead(t) == e
  {
  }

  /**
   * str_trim: the right-trimming loop as written, then the position of the
   * first non-blank character.  The string found there is the input
   * without leading and trailing blanks, the lone blank the right loop
   * keeps being skipped on the left.
   */
  method StrTrim(a: array<byte>) returns (off: nat)
    requires Terminated(a[..])
    modifies a
    ensures var t := Chars(old(a[..]));
            a[..] == old(a[..])[KeptAsWritten(t) := 0] && off <= KeptAsWritten(t)
    ensures off <= a.Length && Terminated(a[off..]) && Chars(a[off..]) == Trimmed(Chars(old(a[..])))
  {
    ghost var t := Chars(a[..]);
    var k := TrimRightLoop(a);
    a[k] := 0;
    assert a[..][..k] == t[..k];
    CharsOf(a[..], t[..k]);
    off := StrTrimLeft(a[..]);
    StrQuery.CharsFrom(a[..], off);
    assert a[..][off..] == a[off..];
    if Lead(t) < |t| {
      assert Keep(t) > Lead(t);
      LeadUnique(t[..k], Lead(t));
    } else {
      LeadUnique(t[..k], k);
    }
  }
}
