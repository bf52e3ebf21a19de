/**
 * str_split and str_join of strings.c.  str_split tokenises a private copy
 * of the string the way strtok does: delimiter characters (any byte of the
 * delimiter string) are skipped, a token runs up to the next delimiter
 * character, which is overwritten with a NUL, and every token is copied
 * into a new string.  The result array is sized beforehand by counting the
 * occurrences of the whole delimiter string, so a delimiter of several
 * characters can produce more tokens than the array has slots.
 * str_join concatenates the strings of a NULL-terminated array with a
 * delimiter between neighbours.  Whether an allocation succeeds is a
 * parameter: arrayOk for the result array, copyOk for the private copy and
 * tokenOk(i) for the copy of token i.
 */
module StrSplit {
  import opened Common
  import opened StrQuery
  import StrEdit
  import StrBuild

  /**
   * What str_split returns: NULL, or its array of token copies (each a
   * string and its NUL; the NULL that ends the array is left implicit), or
   * no defined result at all: it writes past its result array, or, with an
   * empty delimiter, never leaves its counting loop.
   */
  datatype SplitOutcome = Null | Parts(parts: seq<Bytes>) | Undefined

  /** No character of x is one of the characters of D. */
  predicate Free(x: Bytes, D: Bytes)
  {
    forall j :: 0 <= j < |x| ==> x[j] !in D
  }

  /**
   * The end of the run starting at i of characters whose membership in D
   * is inD: str_span's count when inD holds, str_cspan's (and where
   * str_pbrk stops) when it does not.
   */
  function RunFrom(t: Bytes, D: Bytes, inD: bool, i: nat): (n: nat)
    requires i <= |t|
    ensures i <= n <= |t|
    ensures forall j :: i <= j < n ==> (t[j] in D) == inD
    ensures n < |t| ==> (t[n] in D) != inD
    decreases |t| - i
  {
    if i == |t| || (t[i] in D) != inD then i else RunFrom(t, D, inD, i + 1)
  }

  /** A run is determined by where it starts: any end meeting RunFrom's contract is RunFrom's. */
  lemma {:induction false} RunUnique(t: Bytes, D: Bytes, inD: bool, i: nat, n: nat)
    requires i <= n <= |t|
    requires forall j :: i <= j < n ==> (t[j] in D) == inD
    requires n < |t| ==> (t[n] in D) != inD
    ensures RunFrom(t, D, inD, i) == n
    decreases n - i
  {
    if i < n {
      RunUnique(t, D, inD, i + 1, n);
    }
  }

  /**
   * The tokens of t, as str_token hands them out: skip the delimiter
   * characters, take the characters up to the next delimiter character, and
   * go on after that delimiter.
   */
  function Tokens(t: Bytes, D: Bytes): (ts: seq<Bytes>)
    ensures forall k :: 0 <= k < |ts| ==> ts[k] != [] && Free(ts[k], D)
    decreases |t|
  {
    var l := RunFrom(t, D, true, 0);
    if l == |t| then []
    else
      var e := RunFrom(t, D, false, l);
      if e == |t| then [t[l..]] else [t[l..e]] + Tokens(t[e + 1..], D)
  }

  /** A token followed by a delimiter character comes first, and the rest is tokenised on its own. */
  lemma TokensCons(x: Bytes, c: byte, y: Bytes, D: Bytes)
    requires x != [] && Free(x, D) && c in D
    ensures Tokens(x + [c] + y, D) == [x] + Tokens(y, D)
  {
    var t := x + [c] + y;
    RunUnique(t, D, true, 0, 0);
    RunUnique(t, D, false, 0, |x|);
    assert t[..|x|] == x && t[|x| + 1..] == y;
  }

  /** A non-empty string free of delimiter characters is one token. */
  lemma TokensSingle(x: Bytes, D: Bytes)
    requires x != [] && Free(x, D)
    ensures Tokens(x, D) == [x]
  {
    RunUnique(x, D, true, 0, 0);
    RunUnique(x, D, false, 0, |x|);
  }

  /** The number of characters of t that are delimiter characters. */
  function Count(t: Bytes, D: Bytes): (c: nat)
    ensures c <= |t|
    decreases |t|
  {
    if t == [] then 0 else (if t[0] in D then 1 else 0) + Count(t[1..], D)
  }

  /** A delimiter character at k is counted, on top of those after it. */
  lemma {:induction false} CountPast(t: Bytes, D: Bytes, k: nat)
    requires k < |t| && t[k] in D
    ensures Count(t, D) >= 1 + Count(t[k + 1..], D)
    decreases k
  {
    if k > 0 {
      CountPast(t[1..], D, k - 1);
      assert t[1..][k..] == t[k + 1..];
    }
  }

  /** With no delimiter character before f, the count of t is the count from f. */
  lemma {:induction false} CountSkip(t: Bytes, D: Bytes, f: nat)
    requires f <= |t| && forall j :: 0 <= j < f ==> t[j] !in D
    ensures Count(t, D) == Count(t[f..], D)
    decreases f
  {
    if f > 0 {
      CountSkip(t[1..], D, f - 1);
      assert t[1..][f - 1..] == t[f..];
    }
  }

  /** Every token but the last ends at a delimiter character, so there is at most one more token than delimiter characters. */
  lemma {:induction false} TokensBound(t: Bytes, D: Bytes)
    ensures |Tokens(t, D)| <= Count(t, D) + 1
    decreases |t|
  {
    var l := RunFrom(t, D, true, 0);
    if l < |t| {
      var e := RunFrom(t, D, false, l);
      if e < |t| {
        TokensBound(t[e + 1..], D);
        CountPast(t, D, e);
      }
    }
  }

  /** Counting the occurrences of a one-character delimiter, one step at a time, counts that character. */
  lemma {:induction false} MatchesSingle(t: Bytes, c: byte)
    ensures StrBuild.Matches(t, [c], 1) == Count(t, [c])
    decreases |t|
  {
    if t != [] {
      assert [c] <= t <==> t[0] == c;
      MatchesSingle(t[1..], c);
    }
  }

  /** With a one-character delimiter the tokens fit the slots str_split counts (one per occurrence, plus one). */
  lemma SingleCharFits(t: Bytes, c: byte)
    ensures |Tokens(t, [c])| <= 1 + StrBuild.Matches(t, [c], 1)
  {
    MatchesSingle(t, c);
    TokensBound(t, [c]);
  }

  /**
   * "a-b_c" split on "-_": three tokens, while the delimiter string occurs
   * nowhere, so str_split counts 1 + 0 slots for tokens.
   */
  lemma SplitOverflowExample()
    ensures var t, D := [97, 45, 98, 95, 99], [45, 95];
            Tokens(t, D) == [[97], [98], [99]] && StrBuild.Matches(t, D, 1) == 0
  {
    ExampleTokens();
    ExampleMatches();
  }

  /** "a-b_c" split on the characters of "-_" is "a", "b" and "c". */
  lemma ExampleTokens()
    ensures Tokens([97, 45, 98, 95, 99], [45, 95]) == [[97], [98], [99]]
  {
    var D: Bytes := [45, 95];
    assert [97, 45, 98, 95, 99] == [97] + [45] + [98, 95, 99];
    TokensCons([97], 45, [98, 95, 99], D);
    ExampleTail();
  }

  /** "b_c" split on the characters of "-_" is "b" and "c". */
  lemma ExampleTail()
    ensures Tokens([98, 95, 99], [45, 95]) == [[98], [99]]
  {
    var D: Bytes := [45, 95];
    assert [98, 95, 99] == [98] + [95] + [99];
    TokensCons([98], 95, [99], D);
    TokensSingle([99], D);
  }

  /** "-_" occurs nowhere in "a-b_c". */
  lemma ExampleMatches()
    ensures StrBuild.Matches([97, 45, 98, 95, 99], [45, 95], 1) == 0
  {
    var t: Bytes, D: Bytes := [97, 45, 98, 95, 99], [45, 95];
    forall j | 0 <= j <= |t|
      ensures !Occurs(t, D, j)
    {
      assert j + 1 < |t| ==> t[j + 1] != 95 || t[j] != 45;
    }
    StrBuild.MatchesNone(t, D, 1, 0);
    assert t[0..] == t;
  }

  /** The strings of ts with d between neighbours, built left to right as str_join does. */
  function Joined(ts: seq<Bytes>, d: Bytes): Bytes
    decreases |ts|
  {
    if |ts| == 0 then []
    else if |ts| == 1 then ts[0]
    else Joined(ts[..|ts| - 1], d) + d + ts[|ts| - 1]
  }

  /** The total length of the strings of ts. */
  function SumLen(ts: seq<Bytes>): nat
    decreases |ts|
  {
    if ts == [] then 0 else SumLen(ts[..|ts| - 1]) + |ts[|ts| - 1]|
  }

  /** A join is the first string, the delimiter and the join of the rest. */
  lemma {:induction false} JoinedCons(x: Bytes, r: seq<Bytes>, d: Bytes)
    requires r != []
    ensures Joined([x] + r, d) == x + d + Joined(r, d)
    decreases |r|
  {
    var s := [x] + r;
    if |r| > 1 {
      assert s[..|s| - 1] == [x] + r[..|r| - 1];
      JoinedCons(x, r[..|r| - 1], d);
    } else {
      assert s[..|s| - 1] == [x];
    }
  }

  /** The joined string holds every character of the parts and n - 1 delimiters. */
  lemma {:induction false} JoinedLength(ts: seq<Bytes>, d: Bytes)
    requires ts != []
    ensures |Joined(ts, d)| == SumLen(ts) + (|ts| - 1) * |d|
    decreases |ts|
  {
    if |ts| > 1 {
      JoinedLength(ts[..|ts| - 1], d);
      assert (|ts| - 2) * |d| + |d| == (|ts| - 1) * |d|;
    }
  }

  /** Joining a non-NUL delimiter and non-NUL parts gives a string without NUL. */
  lemma {:induction false} JoinedNoNul(ts: seq<Bytes>, d: Bytes)
    requires 0 !in d && forall k :: 0 <= k < |ts| ==> 0 !in ts[k]
    ensures 0 !in Joined(ts, d)
    decreases |ts|
  {
    if |ts| > 1 {
      JoinedNoNul(ts[..|ts| - 1], d);
    }
  }

  /**
   * Splitting on a character what str_join joined with that character gives
   * the parts back, when the parts are non-empty and free of it.
   */
  lemma {:induction false} SplitJoined(ts: seq<Bytes>, c: byte)
    requires forall k :: 0 <= k < |ts| ==> ts[k] != [] && Free(ts[k], [c])
    ensures Tokens(Joined(ts, [c]), [c]) == ts
    decreases |ts|
  {
    if |ts| == 1 {
      TokensSingle(ts[0], [c]);
    } else if |ts| > 1 {
      var r := ts[1..];
      assert ts == [ts[0]] + r;
      JoinedCons(ts[0], r, [c]);
      TokensCons(ts[0], c, Joined(r, [c]), [c]);
      SplitJoined(r, c);
    }
  }

  /**
   * After a call of str_token on the tokens u: it handed out the token that
   * starts at tok of the copy buf2 and left saveptr at next, so the tokens
   * of u are that token and the tokens from next.
   */
  ghost predicate Handed(u: Bytes, D: Bytes, buf2: Bytes, tok: nat, next: nat)
  {
    tok < next < |buf2| && Terminated(buf2[tok..]) && Terminated(buf2[next..]) &&
    Splits(u, D, Chars(buf2[tok..]), Chars(buf2[next..]))
  }

  /** The tokens of u are first followed by the tokens of rest. */
  ghost predicate Splits(u: Bytes, D: Bytes, first: Bytes, rest: Bytes)
  {
    Tokens(u, D) == [first] + Tokens(rest, D)
  }

  /**
   * str_token on the private copy buf, resuming at saveptr = pos: skip the
   * delimiter characters, and when a token starts there, overwrite the
   * delimiter character that ends it with a NUL.  found says whether a
   * token was returned, tok where it starts and next the new saveptr.
   */
  method StrToken(buf: Bytes, pos: nat, delim: Bytes) returns (found: bool, tok: nat, buf2: Bytes, next: nat)
    requires pos <= |buf| && Terminated(buf[pos..]) && Terminated(delim)
    ensures |buf2| == |buf| && pos <= next < |buf2| && Terminated(buf2[next..])
    ensures !found ==> Tokens(Chars(buf[pos..]), Chars(delim)) == []
    ensures found ==> pos <= tok && Handed(Chars(buf[pos..]), Chars(delim), buf2, tok, next)
  {
    ghost var u, D := Chars(buf[pos..]), Chars(delim);
    var n := StrSpan(buf[pos..], delim);
    var l := pos + n;
    SkipDelims(buf, pos, D, n);
    if buf[l] == 0 {
      return false, 0, buf, l;
    }
    buf2, next := EndToken(buf, pos, delim, n);
    found, tok := true, l;
  }

  /** The string at l = pos + n is what is left of the string at pos after n characters. */
  lemma RestFrom(buf: Bytes, pos: nat, n: nat, l: nat) returns (x: Bytes)
    requires pos <= |buf| && Terminated(buf[pos..]) && n <= CStrLen(buf[pos..]) && l == pos + n
    ensures Terminated(buf[l..]) && x == Chars(buf[l..]) == Chars(buf[pos..])[n..]
  {
    CharsFrom(buf[pos..], n);
    assert buf[pos..][n..] == buf[l..];
    x := Chars(buf[l..]);
  }

  /**
   * The rest of str_token once a token starts at l = pos + n: str_pbrk finds
   * the delimiter character that ends it, which becomes a NUL and saveptr
   * moves past it; without one the token runs to the end of the string and
   * saveptr moves there.
   */
  method EndToken(buf: Bytes, pos: nat, delim: Bytes, n: nat) returns (buf2: Bytes, next: nat)
    requires pos <= |buf| && Terminated(buf[pos..]) && Terminated(delim)
    requires n < CStrLen(buf[pos..]) && RunFrom(Chars(buf[pos..]), Chars(delim), true, 0) == n
    ensures |buf2| == |buf| && Handed(Chars(buf[pos..]), Chars(delim), buf2, pos + n, next)
  {
    ghost var D := Chars(delim);
    var l := pos + n;
    ghost var x := RestFrom(buf, pos, n, l);
    var r := StrPbrk(Some(buf[l..]), Some(delim));
    assert Text(Some(buf[l..])) == x && Text(Some(delim)) == D;
    if r.Some? {
      buf2, next := CutToken(buf, pos, delim, n, x, l, r.value);
    } else {
      buf2, next := RunToken(buf, pos, delim, n, x, l);
    }
  }

  /** The delimiter character r places after the token start l becomes a NUL, and saveptr moves past it. */
  method CutToken(buf: Bytes, ghost pos: nat, ghost delim: Bytes, ghost n: nat, ghost x: Bytes, l: nat, r: nat) returns (buf2: Bytes, next: nat)
    requires pos <= |buf| && Terminated(buf[pos..]) && n < CStrLen(buf[pos..])
    requires RunFrom(Chars(buf[pos..]), Chars(delim), true, 0) == n
    requires x == Chars(buf[pos..])[n..] && l == pos + n
    requires r < |x| && x[r] in Chars(delim) && forall j :: 0 <= j < r ==> x[j] !in Chars(delim)
    ensures |buf2| == |buf| && Handed(Chars(buf[pos..]), Chars(delim), buf2, pos + n, next)
  {
    var e := l + r;
    buf2 := buf[e := 0];
    next := e + 1;
    TokenEnds(buf, pos, Chars(delim), n, x, r, l, e, buf2, next);
  }

  /** No delimiter character follows the token start l: the token runs to the end of the string, and so does saveptr. */
  method RunToken(buf: Bytes, ghost pos: nat, ghost delim: Bytes, ghost n: nat, ghost x: Bytes, l: nat) returns (buf2: Bytes, next: nat)
    requires pos <= |buf| && Terminated(buf[pos..]) && n < CStrLen(buf[pos..])
    requires RunFrom(Chars(buf[pos..]), Chars(delim), true, 0) == n
    requires l == pos + n && Terminated(buf[l..]) && x == Chars(buf[l..]) == Chars(buf[pos..])[n..] && Free(x, Chars(delim))
    ensures |buf2| == |buf| && Handed(Chars(buf[pos..]), Chars(delim), buf2, pos + n, next)
  {
    var k := StrLen(Some(buf[l..]));
    buf2 := buf;
    next := l + k;
    TokenRuns(buf, pos, Chars(delim), n, x, l, next);
  }

  /** str_span from pos: the n characters skipped are exactly the leading delimiter characters of the rest of the string. */
  lemma SkipDelims(buf: Bytes, pos: nat, D: Bytes, n: nat)
    requires pos <= |buf| && Terminated(buf[pos..])
    requires n <= CStrLen(buf[pos..])
    requires forall j :: 0 <= j < n ==> buf[pos..][j] in D
    requires n < CStrLen(buf[pos..]) ==> buf[pos..][n] !in D
    ensures pos + n < |buf| && RunFrom(Chars(buf[pos..]), D, true, 0) == n
    ensures buf[pos + n] == 0 <==> n == CStrLen(buf[pos..])
    ensures buf[pos + n] == 0 ==> Tokens(Chars(buf[pos..]), D) == []
  {
    var u := Chars(buf[pos..]);
    assert buf[pos + n] == buf[pos..][n];
    RunUnique(u, D, true, 0, n);
  }

  /** A token ended by the delimiter character at offset r from its start l = pos + n; b2 has a NUL there. */
  lemma TokenEnds(buf: Bytes, pos: nat, D: Bytes, n: nat, x: Bytes, r: nat, l: nat, e: nat, b2: Bytes, next: nat)
    requires pos <= |buf| && Terminated(buf[pos..]) && n < CStrLen(buf[pos..])
    requires RunFrom(Chars(buf[pos..]), D, true, 0) == n
    requires x == Chars(buf[pos..])[n..]
    requires r < |x| && x[r] in D && forall j :: 0 <= j < r ==> x[j] !in D
    requires l == pos + n && e == l + r && e < |buf| && b2 == buf[e := 0] && next == e + 1
    ensures Handed(Chars(buf[pos..]), D, b2, pos + n, next)
  {
    var u := Chars(buf[pos..]);
    RunUnique(u, D, false, n, n + r);
    NulCut(buf, pos, n, r, l, e, b2);
    TokensStep(u, D, n, n + r, Chars(b2[l..]), Chars(b2[e + 1..]));
  }

  /** Writing a NUL at e = l + r, inside the string at pos, ends a string at l and leaves the string after e. */
  lemma NulCut(buf: Bytes, pos: nat, n: nat, r: nat, l: nat, e: nat, b2: Bytes)
    requires pos <= |buf| && Terminated(buf[pos..]) && n + r < CStrLen(buf[pos..])
    requires l == pos + n && e == l + r && b2 == buf[e := 0]
    ensures Terminated(b2[l..]) && Chars(b2[l..]) == Chars(buf[pos..])[n..n + r]
    ensures e + 1 < |b2| && Terminated(b2[e + 1..]) && Chars(b2[e + 1..]) == Chars(buf[pos..])[n + r + 1..]
  {
    var u := Chars(buf[pos..]);
    CharsFrom(buf[pos..], n + r + 1);
    assert buf[pos..][n + r + 1..] == b2[e + 1..];
    assert b2[l..][..r] == u[n..n + r] by {
      forall j | 0 <= j < r ensures b2[l..][j] == u[n + j] {
        assert b2[l..][j] == buf[pos..][n + j];
      }
    }
    assert b2[l..][r] == 0;
    StrEdit.CharsOf(b2[l..], u[n..n + r]);
  }

  /** Where the first token starts and ends decides the first token and where the rest begins. */
  lemma TokensStep(u: Bytes, D: Bytes, n: nat, e: nat, tok: Bytes, rest: Bytes)
    requires n < |u| && RunFrom(u, D, true, 0) == n
    requires e < |u| && RunFrom(u, D, false, n) == e
    requires tok == u[n..e] && rest == u[e + 1..]
    ensures Splits(u, D, tok, rest)
  {
  }

  /** A token that runs to the end of the string: the last one; next is where the string ends. */
  lemma TokenRuns(buf: Bytes, pos: nat, D: Bytes, n: nat, x: Bytes, l: nat, next: nat)
    requires pos <= |buf| && Terminated(buf[pos..]) && n < CStrLen(buf[pos..])
    requires RunFrom(Chars(buf[pos..]), D, true, 0) == n
    requires x == Chars(buf[pos..])[n..] && Free(x, D)
    requires l == pos + n && next == l + CStrLen(buf[l..]) && next <= |buf| && Terminated(buf[l..])
    ensures Handed(Chars(buf[pos..]), D, buf, pos + n, next)
  {
    var u := Chars(buf[pos..]);
    var m := CStrLen(buf[pos..]);
    forall j | n <= j < |u| ensures u[j] !in D {
      assert u[j] == u[n..][j - n];
    }
    RunUnique(u, D, false, n, |u|);
    CharsFrom(buf[pos..], n);
    assert buf[pos..][n..] == buf[l..];
    CharsFrom(buf[pos..], m);
    assert buf[pos..][m..] == buf[next..];
    assert Chars(buf[next..]) == [];
    RunUnique([], D, true, 0, 0);
  }

  /** The first n token copies were allocated. */
  predicate AllOk(tokenOk: nat -> bool, n: nat)
  {
    forall j :: 0 <= j < n ==> tokenOk(j)
  }

  /**
   * What the tokenising loop of str_split yields for the tokens ts with
   * count + 1 slots: the copies when every token fits and every copy was
   * allocated, no defined result when count + 1 copies succeed and a token
   * remains, NULL otherwise.
   */
  predicate Outcome(r: SplitOutcome, ts: seq<Bytes>, count: nat, tokenOk: nat -> bool)
  {
    && (r.Parts? <==> |ts| <= count && AllOk(tokenOk, |ts|))
    && (r.Undefined? <==> |ts| > count && AllOk(tokenOk, count + 1))
    && (r.Parts? ==> |r.parts| == |ts| && forall i :: 0 <= i < |ts| ==> r.parts[i] == ts[i] + [0])
  }

  /**
   * The tokenising loop of str_split on the private copy, with count + 1
   * slots in the result array: every token is copied with str_new into the
   * next slot, a failed copy makes the result NULL, and the slot after the
   * last token receives NULL.  A write to slot count + 1 or beyond is past
   * the array.
   */
  method SplitTokens(copy: Bytes, delim: Bytes, count: nat, tokenOk: nat -> bool) returns (r: SplitOutcome)
    requires Terminated(copy) && Terminated(delim)
    ensures Outcome(r, Tokens(Chars(copy), Chars(delim)), count, tokenOk)
  {
    assert copy[0..] == copy;
    ghost var u := Chars(copy);
    var found, tok, buf, next := StrToken(copy, 0, delim);
    var parts: seq<Bytes> := [];
    var i := 0;
    while found
      invariant |buf| == |copy| && next < |buf| && Terminated(buf[next..])
      invariant i <= |Tokens(Chars(copy), Chars(delim))| && i <= count + 1 && |parts| == i
      invariant AllOk(tokenOk, i)
      invariant forall j :: 0 <= j < i ==> parts[j] == Tokens(Chars(copy), Chars(delim))[j] + [0]
      invariant Tokens(Chars(copy), Chars(delim))[i..] == Tokens(u, Chars(delim))
      invariant found ==> Handed(u, Chars(delim), buf, tok, next)
      invariant !found ==> Tokens(u, Chars(delim)) == []
      decreases |buf| - next + (if found then 1 else 0)
    {
      ghost var piece, rest := Chars(buf[tok..]), Chars(buf[next..]);
      TakeToken(Tokens(Chars(copy), Chars(delim)), i, u, Chars(delim), buf, tok, next, piece, rest);
      if i > count {
        Overflowed(Tokens(Chars(copy), Chars(delim)), count, tokenOk);
        return Undefined;
      }
      var p := StrBuild.StrNew(Some(buf[tok..]), tokenOk(i));
      if p.None? {
        CopyFailed(Tokens(Chars(copy), Chars(delim)), count, tokenOk, i);
        return Null;
      }
      parts := parts + [p.value];
      i := i + 1;
      u := rest;
      found, tok, buf, next := StrToken(buf, next, delim);
    }
    if i > count {
      Overflowed(Tokens(Chars(copy), Chars(delim)), count, tokenOk);
      return Undefined;
    }
    AllCopied(Tokens(Chars(copy), Chars(delim)), count, tokenOk, parts);
    return Parts(parts);
  }

  /** The tokens overflowed the count + 1 slots after count + 1 successful copies. */
  lemma Overflowed(ts: seq<Bytes>, count: nat, tokenOk: nat -> bool)
    requires count < |ts| && AllOk(tokenOk, count + 1)
    ensures Outcome(Undefined, ts, count, tokenOk)
  {
  }

  /** The copy of token i failed before any slot overflowed. */
  lemma CopyFailed(ts: seq<Bytes>, count: nat, tokenOk: nat -> bool, i: nat)
    requires i <= count && i < |ts| && !tokenOk(i)
    ensures Outcome(Null, ts, count, tokenOk)
  {
  }

  /** Every token was copied into its slot. */
  lemma AllCopied(ts: seq<Bytes>, count: nat, tokenOk: nat -> bool, parts: seq<Bytes>)
    requires |ts| <= count && AllOk(tokenOk, |ts|)
    requires |parts| == |ts| && forall j :: 0 <= j < |ts| ==> parts[j] == ts[j] + [0]
    ensures Outcome(Parts(parts), ts, count, tokenOk)
  {
  }

  /** The token str_token hands over is the next of the tokens still to come. */
  lemma TakeToken(ts: seq<Bytes>, i: nat, u: Bytes, D: Bytes, buf: Bytes, tok: nat, next: nat, piece: Bytes, rest: Bytes)
    requires i <= |ts| && ts[i..] == Tokens(u, D) && Handed(u, D, buf, tok, next)
    requires piece == Chars(buf[tok..]) && rest == Chars(buf[next..])
    ensures i < |ts| && ts[i] == piece && ts[i + 1..] == Tokens(rest, D)
  {
    assert ts[i..][1..] == ts[i + 1..];
  }

  /**
   * str_split as written: the result array gets one slot per occurrence of
   * the whole delimiter string, plus one, plus the closing NULL, while the
   * tokens are cut at every delimiter character.
   */
  method StrSplitAsWritten(p: CStr, delim: CStr, arrayOk: bool, copyOk: bool, tokenOk: nat -> bool) returns (r: SplitOutcome)
    requires Valid(p) && Valid(delim)
    ensures p.None? || delim.None? ==> r == Null
    ensures p.Some? && delim.Some? && Text(delim) == [] ==> r == Undefined
    ensures p.Some? && delim.Some? && Text(delim) != [] ==>
              var ts, count := Tokens(Text(p), Text(delim)), 1 + StrBuild.Matches(Text(p), Text(delim), 1);
              && (r.Parts? <==> arrayOk && copyOk && |ts| <= count && forall i :: 0 <= i < |ts| ==> tokenOk(i))
              && (r.Undefined? <==> arrayOk && copyOk && |ts| > count && forall i :: 0 <= i <= count ==> tokenOk(i))
              && (r.Parts? ==> |r.parts| == |ts| && forall i :: 0 <= i < |ts| ==> r.parts[i] == ts[i] + [0])
  {
    if p.None? || delim.None? {
      return Null;
    }
    if delim.value[0] == 0 {
      return Undefined;
    }
    var count := StrBuild.CountMatches(p.value, delim, 1);
    count := count + 1;
    if !arrayOk {
      return Null;
    }
    var copy := StrBuild.StrNew(p, copyOk);
    if copy.None? {
      return Null;
    }
    r := SplitTokens(copy.value, delim.value, count, tokenOk);
  }

  /**
   * The count str_split evidently needs: one slot per delimiter character,
   * plus one, found by stepping with str_pbrk as the loop steps with str_str.
   */
  method CountDelims(s: Bytes, delim: Bytes) returns (c: nat)
    requires Terminated(s) && Terminated(delim)
    ensures c == Count(Chars(s), Chars(delim))
  {
    ghost var t, D := Chars(s), Chars(delim);
    c := 0;
    var pos := 0;
    while true
      invariant pos <= |t| && c + Count(t[pos..], D) == Count(t, D)
      decreases |t| - pos
    {
      CharsFrom(s, pos);
      var f := StrPbrk(Some(s[pos..]), Some(delim));
      assert Text(Some(s[pos..])) == t[pos..] && Text(Some(delim)) == D;
      if f.None? {
        CountSkip(t[pos..], D, |t| - pos);
        return;
      }
      CountSkip(t[pos..], D, f.value);
      assert t[pos..][f.value..][1..] == t[pos + f.value + 1..];
      c := c + 1;
      pos := pos + f.value + 1;
    }
  }

  /**
   * str_split with the result array sized by the delimiter characters: the
   * tokens always fit, so the result is NULL or the token copies.
   */
  method StrSplit(p: CStr, delim: CStr, arrayOk: bool, copyOk: bool, tokenOk: nat -> bool) returns (r: Option<seq<Bytes>>)
    requires Valid(p) && Valid(delim)
    ensures r.Some? <==> p.Some? && delim.Some? && arrayOk && copyOk &&
                         forall i :: 0 <= i < |Tokens(Text(p), Text(delim))| ==> tokenOk(i)
    ensures r.Some? ==> var ts := Tokens(Text(p), Text(delim));
                        |r.value| == |ts| && forall i :: 0 <= i < |ts| ==> r.value[i] == ts[i] + [0]
  {
    if p.None? || delim.None? {
      return None;
    }
    var count := CountDelims(p.value, delim.value);
    count := count + 1;
    if !arrayOk {
      return None;
    }
    var copy := StrBuild.StrNew(p, copyOk);
    if copy.None? {
      return None;
    }
    TokensBound(Text(p), Text(delim));
    var o := SplitTokens(copy.value, delim.value, count, tokenOk);
    if o.Parts? {
      return Some(o.parts);
    }
    return None;
  }

  /** The strings of a NULL-terminated array: its entries before the first NULL. */
  function Entries(a: seq<CStr>): (ts: seq<Bytes>)
    requires forall j :: 0 <= j < |a| ==> Valid(a[j])
    ensures |ts| <= |a| && (|ts| < |a| ==> a[|ts|].None?)
    ensures forall k :: 0 <= k < |ts| ==> a[k].Some? && ts[k] == Text(a[k])
    decreases |a|
  {
    if a == [] || a[0].None? then [] else [Text(a[0])] + Entries(a[1..])
  }

  /** One more part: the join of the first i + 1 parts extends the join of the first i. */
  lemma JoinedStep(ts: seq<Bytes>, d: Bytes, i: nat)
    requires i < |ts|
    ensures Joined(ts[..i + 1], d) == if i == 0 then ts[0] else Joined(ts[..i], d) + d + ts[i]
  {
    assert ts[..i + 1][..i] == ts[..i];
  }

  /** The length the first loop of str_join adds for part i. */
  lemma JoinedLengthStep(ts: seq<Bytes>, d: Bytes, i: nat, len: nat, dlen: nat)
    requires i < |ts| && len == |ts[i]| && dlen == |d|
    ensures |Joined(ts[..i + 1], d)| == |Joined(ts[..i], d)| + len + (if i > 0 then dlen else 0)
  {
    JoinedStep(ts, d, i);
  }

  /** The join of a prefix is no longer than the join of the whole. */
  lemma {:induction false} JoinedPrefix(ts: seq<Bytes>, d: Bytes, i: nat)
    requires i <= |ts|
    ensures |Joined(ts[..i], d)| <= |Joined(ts, d)|
    decreases |ts| - i
  {
    if i < |ts| {
      JoinedStep(ts, d, i);
      JoinedPrefix(ts, d, i + 1);
    } else {
      assert ts[..i] == ts;
    }
  }

  /** str_copy at ptr followed by ptr += the copied length: the buffer up to the new ptr gains the string. */
  method Append(buf: array<byte>, at: nat, src: Bytes) returns (end: nat)
    requires Terminated(src) && at + CStrLen(src) < buf.Length
    modifies buf
    ensures end == at + CStrLen(src) && buf[..end] == old(buf[..at]) + Chars(src)
  {
    StrEdit.CopyAt(buf, at, src);
    StrBuild.CopiedPrefix(buf[..], old(buf[..]), at, src);
    end := at + CStrLen(src);
  }

  /** The first loop of str_join: the number of strings before the NULL and the length of their join. */
  method JoinLength(a: seq<CStr>, delim: Bytes) returns (total: nat, count: nat)
    requires None in a && forall j :: 0 <= j < |a| ==> Valid(a[j])
    requires Terminated(delim)
    ensures count == |Entries(a)| && total == |Joined(Entries(a), Chars(delim))|
  {
    ghost var ts, d := Entries(a), Chars(delim);
    assert |ts| < |a| by {
      var k :| 0 <= k < |a| && a[k].None?;
    }
    total := 0;
    var dlen := StrLen(Some(delim));
    count := 0;
    while a[count].Some?
      invariant count <= |ts| && total == |Joined(ts[..count], d)|
      decreases |ts| - count
    {
      var len := StrLen(a[count]);
      JoinedLengthStep(ts, d, count, len, dlen);
      total := total + len;
      if count > 0 {
        total := total + dlen;
      }
      count := count + 1;
    }
    assert ts[..count] == ts;
  }

  /** The second loop of str_join: the strings and delimiters copied into the result, then the NUL. */
  method JoinInto(result: array<byte>, a: seq<CStr>, delim: Bytes, count: nat)
    requires forall j :: 0 <= j < |a| ==> Valid(a[j])
    requires Terminated(delim)
    requires count == |Entries(a)| && result.Length == |Joined(Entries(a), Chars(delim))| + 1
    modifies result
    ensures result[..] == Joined(Entries(a), Chars(delim)) + [0]
  {
    var ptr := 0;
    var i := 0;
    while i < count
      invariant i <= count && ptr == |Joined(Entries(a)[..i], Chars(delim))| < result.Length && result[..ptr] == Joined(Entries(a)[..i], Chars(delim))
    {
      JoinedStep(Entries(a), Chars(delim), i);
      JoinedPrefix(Entries(a), Chars(delim), i + 1);
      if i > 0 {
        ptr := Append(result, ptr, delim);
      }
      ptr := Append(result, ptr, a[i].value);
      i := i + 1;
    }
    assert Entries(a)[..i] == Entries(a);
    result[ptr] := 0;
    assert result[..] == result[..ptr] + [0];
  }

  /**
   * str_join: the length of the result is summed over the strings before the
   * array's NULL, then the strings are copied one after another with the
   * delimiter between neighbours.  NULL for a NULL array or delimiter or a
   * failed allocation.
   */
  method StrJoin(arr: Option<seq<CStr>>, delim: CStr, allocOk: bool) returns (r: Option<Bytes>)
    requires Valid(delim)
    requires arr.Some? ==> None in arr.value && forall j :: 0 <= j < |arr.value| ==> Valid(arr.value[j])
    ensures r.Some? <==> arr.Some? && delim.Some? && allocOk
    ensures r.Some? ==> r.value == Joined(Entries(arr.value), Text(delim)) + [0]
  {
    if arr.None? || delim.None? {
      return None;
    }
    var total, count := JoinLength(arr.value, delim.value);
    if !allocOk {
      return None;
    }
    var result := new byte[total + 1];
    JoinInto(result, arr.value, delim.value, count);
    return Some(result[..]);
  }
}
