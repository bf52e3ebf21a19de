/**
 * The string functions of strings.c that allocate their result: str_new,
 * str_clone, str_substr and str_replace.  The allocator is an
 * oracle: allocOk says whether malloc succeeds, and a failed allocation
 * makes the function return NULL as the C code does.  A returned string is
 * the byte buffer the new allocation holds.
 */
module StrBuild {
  import opened Common
  import Compare
  import opened StrQuery
  import StrEdit

  /** After a copy of src's string and NUL to position at, the buffer starts with what it held before at plus src's characters. */
  lemma CopiedPrefix(b: Bytes, o: Bytes, at: nat, src: Bytes)
    requires Terminated(src) && at + CStrLen(src) < |o|
    requires b == o[..at] + src[..CStrLen(src) + 1] + o[at + CStrLen(src) + 1..]
    ensures |b| == |o| && b[..at + CStrLen(src)] == o[..at] + Chars(src) && b[at + CStrLen(src)] == 0
  {
  }

  /** str_new and str_clone: a new buffer holding a copy of the string; NULL for NULL or a failed allocation. */
  method StrNew(p: CStr, allocOk: bool) returns (r: Option<Bytes>)
    requires Valid(p)
    ensures r.Some? <==> p.Some? && allocOk
    ensures r.Some? ==> r.value == Text(p) + [0] && Terminated(r.value) && Chars(r.value) == Text(p)
  {
    if p.None? {
      return None;
    }
    var n := StrLen(p);
    if !allocOk {
      return None;
    }
    var buf := new byte[n + 1];
    StrEdit.StrCopy(buf, p);
    assert p.value[..n + 1] == Text(p) + [0];
    WithNul(Text(p));
    r := Some(buf[..]);
  }

  /** A string without NUL followed by a NUL is a terminated buffer holding that string. */
  lemma WithNul(x: Bytes)
    requires 0 !in x
    ensures Terminated(x + [0]) && Chars(x + [0]) == x
  {
    assert (x + [0])[..|x|] == x;
    StrEdit.CharsOf(x + [0], x);
  }

  /** The copy step of str_substr: a new buffer holding the first m characters of s and a NUL. */
  method CopyPrefix(s: Bytes, m: nat) returns (r: Bytes)
    requires Terminated(s) && m <= CStrLen(s)
    ensures r == Chars(s)[..m] + [0]
  {
    var buf := new byte[m + 1];
    StrEdit.StrNCopy(buf, Some(s), m);
    buf[m] := 0;
    assert buf[..] == Chars(s)[..m] + [0];
    r := buf[..];
  }

  /**
   * str_substr: a new string of at most len characters of p starting at
   * start; NULL when start is not inside the string.
   */
  method StrSubstr(p: CStr, start: nat, len: nat, allocOk: bool) returns (r: Option<Bytes>)
    requires Valid(p)
    ensures r.Some? <==> p.Some? && start < |Text(p)| && allocOk
    ensures r.Some? ==> var t := Text(p);
                        r.value == t[start..start + Min(len, |t| - start)] + [0] &&
                        Terminated(r.value) && Chars(r.value) == t[start..start + Min(len, |t| - start)]
  {
    if p.None? {
      return None;
    }
    ghost var t := Text(p);
    var n := StrLen(p);
    if start >= n {
      return None;
    }
    var m := len;
    if m > n - start {
      m := n - start;
    }
    if !allocOk {
      return None;
    }
    CharsFrom(p.value, start);
    var buf := CopyPrefix(p.value[start..], m);
    assert t[start..][..m] == t[start..start + m];
    WithNul(t[start..start + m]);
    r := Some(buf);
  }

  /**
   * How many times o is matched scanning t from the left, jumping skip
   * characters after each match: skip = |o| counts the non-overlapping
   * matches str_replace replaces, skip = 1 every occurrence.
   */
  function Matches(t: Bytes, o: Bytes, skip: nat): nat
    requires 1 <= skip <= |o|
    decreases |t|
  {
    if t == [] then 0
    else if o <= t then 1 + Matches(t[skip..], o, skip)
    else Matches(t[1..], o, skip)
  }

  /** t with every match of o, found left to right without overlap, replaced by w. */
  function Replaced(t: Bytes, o: Bytes, w: Bytes): Bytes
    requires o != []
    decreases |t|
  {
    if t == [] then []
    else if o <= t then w + Replaced(t[|o|..], o, w)
    else [t[0]] + Replaced(t[1..], o, w)
  }

  /** o is a prefix of t's suffix at i exactly when o occurs in t at i. */
  lemma PrefixOccurs(t: Bytes, o: Bytes, i: nat)
    requires i <= |t|
    ensures o <= t[i..] <==> Occurs(t, o, i)
  {
    if i + |o| <= |t| {
      assert t[i..][..|o|] == t[i..i + |o|];
    }
  }

  /** Scanning from pos up to the first occurrence at f, then counting it, is what Matches counts from pos. */
  lemma {:induction false} MatchesSkip(t: Bytes, o: Bytes, skip: nat, pos: nat, f: nat)
    requires 1 <= skip <= |o| && pos <= f && Occurs(t, o, f)
    requires forall j :: pos <= j < f ==> !Occurs(t, o, j)
    ensures Matches(t[pos..], o, skip) == 1 + Matches(t[f + skip..], o, skip)
    decreases f - pos
  {
    PrefixOccurs(t, o, pos);
    if pos == f {
      assert t[pos..][skip..] == t[f + skip..];
    } else {
      assert t[pos..][1..] == t[pos + 1..];
      MatchesSkip(t, o, skip, pos + 1, f);
    }
  }

  /** Without an occurrence from pos on, Matches counts nothing. */
  lemma {:induction false} MatchesNone(t: Bytes, o: Bytes, skip: nat, pos: nat)
    requires 1 <= skip <= |o| && pos <= |t|
    requires forall j :: pos <= j <= |t| ==> !Occurs(t, o, j)
    ensures Matches(t[pos..], o, skip) == 0
    decreases |t| - pos
  {
    PrefixOccurs(t, o, pos);
    if pos < |t| {
      assert t[pos..][1..] == t[pos + 1..];
      MatchesNone(t, o, skip, pos + 1);
    }
  }

  /**
   * The counting loops of str_replace and str_split: str_str from the
   * current position, and after each occurrence go on skip characters
   * further.
   */
  method CountMatches(s: Bytes, o: CStr, skip: nat) returns (count: nat)
    requires Terminated(s) && Valid(o) && o.Some? && 1 <= skip <= |Text(o)|
    ensures count == Matches(Chars(s), Text(o), skip)
  {
    ghost var t := Chars(s);
    count := 0;
    var pos := 0;
    while true
      invariant pos <= |t|
      invariant count + Matches(t[pos..], Text(o), skip) == Matches(t, Text(o), skip)
      decreases |t| - pos
    {
      var f := SearchFrom(s, o, pos);
      if f.None? {
        MatchesNone(t, Text(o), skip, pos);
        return;
      }
      MatchesSkip(t, Text(o), skip, pos, f.value);
      count := count + 1;
      pos := f.value + skip;
    }
  }

  /** Each replacement changes the length by |w| - |o|. */
  lemma {:induction false} ReplacedLength(t: Bytes, o: Bytes, w: Bytes)
    requires o != []
    ensures |Replaced(t, o, w)| == |t| + Matches(t, o, |o|) * (|w| - |o|)
    decreases |t|
  {
    if t == [] {
    } else if o <= t {
      ReplacedLength(t[|o|..], o, w);
      var m := Matches(t[|o|..], o, |o|);
      assert (1 + m) * (|w| - |o|) == (|w| - |o|) + m * (|w| - |o|);
    } else {
      ReplacedLength(t[1..], o, w);
    }
  }

  /** Without a match nothing is replaced. */
  lemma {:induction false} ReplacedNoMatch(t: Bytes, o: Bytes, w: Bytes)
    requires o != [] && Matches(t, o, |o|) == 0
    ensures Replaced(t, o, w) == t
    decreases |t|
  {
    if t != [] {
      assert !(o <= t);
      ReplacedNoMatch(t[1..], o, w);
    }
  }

  /** Replacing o by itself changes nothing. */
  lemma {:induction false} ReplacedSame(t: Bytes, o: Bytes)
    requires o != []
    ensures Replaced(t, o, o) == t
    decreases |t|
  {
    if t == [] {
    } else if o <= t {
      ReplacedSame(t[|o|..], o);
      assert t == o + t[|o|..];
    } else {
      ReplacedSame(t[1..], o);
      assert t == [t[0]] + t[1..];
    }
  }

  /** Replacing between strings without NUL gives a string without NUL. */
  lemma {:induction false} ReplacedNoNul(t: Bytes, o: Bytes, w: Bytes)
    requires o != [] && 0 !in t && 0 !in w
    ensures 0 !in Replaced(t, o, w)
    decreases |t|
  {
    if t == [] {
    } else if o <= t {
      ReplacedNoNul(t[|o|..], o, w);
    } else {
      assert t[0] in t;
      ReplacedNoNul(t[1..], o, w);
    }
  }

  /** One step of str_replace's building loop: the replacement of the rest starts with w or with the character copied. */
  lemma ReplacedStep(t: Bytes, o: Bytes, w: Bytes, i: nat)
    requires o != [] && i < |t|
    ensures o <= t[i..] ==> i + |o| <= |t| && Replaced(t[i..], o, w) == w + Replaced(t[i + |o|..], o, w)
    ensures !(o <= t[i..]) ==> Replaced(t[i..], o, w) == [t[i]] + Replaced(t[i + 1..], o, w)
  {
    if o <= t[i..] {
      assert t[i..][|o|..] == t[i + |o|..];
    }
    assert t[i..][1..] == t[i + 1..];
  }

  /** The test of str_replace's building loop: str_ncmp of the rest of the string with o over |o| characters is zero. */
  method MatchHere(s: Bytes, o: CStr, no: nat, i: nat) returns (m: bool)
    requires Terminated(s) && Valid(o) && o.Some? && no == |Text(o)| && i <= CStrLen(s)
    ensures m <==> Text(o) <= Chars(s)[i..]
  {
    CharsFrom(s, i);
    var c := StrNCmp(Some(s[i..]), o, no);
    MatchAt(s, Text(o), i);
    PrefixOccurs(Chars(s), Text(o), i);
    assert Compare.Take(Text(o), no) == Text(o);
    m := c == 0;
  }

  /** Moving the next piece x from the part still to build to the part built. */
  lemma Advance(built: Bytes, x: Bytes, rest: Bytes, whole: Bytes)
    requires built + (x + rest) == whole
    ensures (built + x) + rest == whole
  {
  }

  /**
   * The state of str_replace's building loop: i characters of t are
   * consumed, d bytes of the result written, and what is written followed by
   * the replacement of the rest is the whole replacement.
   */
  ghost predicate Building(t: Bytes, o: Bytes, w: Bytes, b: Bytes, d: nat, i: nat)
    requires o != []
  {
    i <= |t| && d + |Replaced(t[i..], o, w)| + 1 == |b| &&
    b[..d] + Replaced(t[i..], o, w) == Replaced(t, o, w)
  }

  /** The building state after x, the replacement of t[i..i2], is written behind the d bytes built so far. */
  lemma BuildingAdvance(t: Bytes, o: Bytes, w: Bytes, pre: Bytes, b: Bytes, i: nat, i2: nat, x: Bytes)
    requires o != [] && i < i2 <= |t|
    requires Replaced(t[i..], o, w) == x + Replaced(t[i2..], o, w)
    requires pre + Replaced(t[i..], o, w) == Replaced(t, o, w)
    requires |pre| + |Replaced(t[i..], o, w)| + 1 == |b| && b[..|pre| + |x|] == pre + x
    ensures Building(t, o, w, b, |pre| + |x|, i2)
  {
    Advance(pre, x, Replaced(t[i2..], o, w), Replaced(t, o, w));
  }

  /** The match case of str_replace's building loop: w and its NUL are copied to position d. */
  method PutReplacement(s: Bytes, o: CStr, w: CStr, no: nat, nw: nat, buf: array<byte>, d: nat, i: nat) returns (d2: nat, i2: nat)
    requires Terminated(s) && Valid(o) && Valid(w) && o.Some? && w.Some? && Text(o) != []
    requires no == |Text(o)| && nw == |Text(w)|
    requires Building(Chars(s), Text(o), Text(w), buf[..], d, i) && i < CStrLen(s) && Text(o) <= Chars(s)[i..]
    modifies buf
    ensures Building(Chars(s), Text(o), Text(w), buf[..], d2, i2) && i < i2
  {
    ghost var t, co, cw := Chars(s), Text(o), Text(w);
    ReplacedStep(t, co, cw, i);
    ghost var pre, before := buf[..d], buf[..];
    StrEdit.CopyAt(buf, d, w.value);
    CopiedPrefix(buf[..], before, d, w.value);
    d2, i2 := d + nw, i + no;
    BuildingAdvance(t, co, cw, pre, buf[..], i, i2, cw);
  }

  /** The other case of str_replace's building loop: the character at i is copied to position d. */
  method PutChar(s: Bytes, o: CStr, w: CStr, buf: array<byte>, d: nat, i: nat) returns (d2: nat, i2: nat)
    requires Terminated(s) && Valid(o) && Valid(w) && o.Some? && w.Some? && Text(o) != []
    requires Building(Chars(s), Text(o), Text(w), buf[..], d, i) && i < CStrLen(s) && !(Text(o) <= Chars(s)[i..])
    modifies buf
    ensures Building(Chars(s), Text(o), Text(w), buf[..], d2, i2) && i < i2
  {
    ghost var t, co, cw := Chars(s), Text(o), Text(w);
    ReplacedStep(t, co, cw, i);
    ghost var pre := buf[..d];
    buf[d] := s[i];
    assert buf[..d + 1] == pre + [t[i]];
    d2, i2 := d + 1, i + 1;
    BuildingAdvance(t, co, cw, pre, buf[..], i, i2, [t[i]]);
  }

  /**
   * The building loop of str_replace: scan the string, writing w for each
   * match of o and copying every other character.
   */
  method BuildReplaced(s: Bytes, o: CStr, w: CStr, no: nat, nw: nat, size: nat) returns (buf: array<byte>)
    requires Terminated(s) && Valid(o) && Valid(w) && o.Some? && w.Some? && Text(o) != []
    requires no == |Text(o)| && nw == |Text(w)|
    requires size == |Replaced(Chars(s), Text(o), Text(w))|
    ensures fresh(buf) && buf[..] == Replaced(Chars(s), Text(o), Text(w)) + [0]
  {
    ghost var t, co, cw := Chars(s), Text(o), Text(w);
    buf := new byte[size + 1];
    var d: nat, i: nat := 0, 0;
    while s[i] != 0
      invariant Building(t, co, cw, buf[..], d, i)
      decreases |t| - i
    {
      var m := MatchHere(s, o, no, i);
      if m {
        d, i := PutReplacement(s, o, w, no, nw, buf, d, i);
      } else {
        d, i := PutChar(s, o, w, buf, d, i);
      }
    }
    assert t[i..] == [];
    buf[d] := 0;
    assert buf[..] == buf[..d] + [0];
  }

  /**
   * str_replace: every match of o, found left to right without overlap,
   * replaced by w in a new string; a copy when o is empty or does not
   * occur; NULL for a NULL argument or a failed allocation.
   */
  method StrReplace(p: CStr, o: CStr, w: CStr, allocOk: bool) returns (r: Option<Bytes>)
    requires Valid(p) && Valid(o) && Valid(w)
    ensures r.Some? <==> p.Some? && o.Some? && w.Some? && allocOk
    ensures r.Some? ==> r.value == (if Text(o) == [] then Text(p) else Replaced(Text(p), Text(o), Text(w))) + [0]
    ensures r.Some? ==> Terminated(r.value)
  {
    if p.None? || o.None? || w.None? {
      return None;
    }
    var no := StrLen(o);
    if no == 0 {
      r := StrNew(p, allocOk);
      return;
    }
    ghost var t, co, cw := Text(p), Text(o), Text(w);
    var count := CountMatches(p.value, o, no);
    if count == 0 {
      ReplacedNoMatch(t, co, cw);
      r := StrNew(p, allocOk);
      return;
    }
    var nw := StrLen(w);
    var n := StrLen(p);
    ReplacedLength(t, co, cw);
    var size: int := n + count * (nw as int - no as int);
    if !allocOk {
      return None;
    }
    var buf := BuildReplaced(p.value, o, w, no, nw, size);
    ReplacedNoNul(t, co, cw);
    StrEdit.CharsOf(buf[..], Replaced(t, co, cw));
    r := Some(buf[..]);
  }
}
