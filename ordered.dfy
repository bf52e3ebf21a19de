/**
 * The in-order contents of a binary search tree: a sequence of key/value
 * entries strictly increasing under the tree's comparator.  Both balanced
 * trees (rb_tree.c, avl_tree.c) are specified against these sequences, and
 * through ToMap against an abstract map from keys to value buffers.
 */
module Ordered {
  import opened Common

  datatype Entry<K> = Entry(key: K, value: Bytes)

  ghost predicate Sorted<K(!new)>(cmp: (K, K) -> int, s: seq<Entry<K>>)
  {
    forall i, j :: 0 <= i < j < |s| ==> cmp(s[i].key, s[j].key) < 0
  }

  /** Every key of s compares below k. */
  ghost predicate AllBelow<K(!new)>(cmp: (K, K) -> int, s: seq<Entry<K>>, k: K)
  {
    forall i :: 0 <= i < |s| ==> cmp(s[i].key, k) < 0
  }

  /** Every key of s compares above k. */
  ghost predicate AllAbove<K(!new)>(cmp: (K, K) -> int, s: seq<Entry<K>>, k: K)
  {
    forall i :: 0 <= i < |s| ==> cmp(k, s[i].key) < 0
  }

  /** The map a sequence of entries denotes (keys are unique when sorted). */
  ghost function ToMap<K>(s: seq<Entry<K>>): map<K, Bytes>
  {
    if s == [] then map[] else ToMap(s[1..])[s[0].key := s[0].value]
  }

  /**
   * Insertion into a sorted sequence as both trees perform it: an entry
   * whose key compares equal has the new value copied over its buffer
   * (memcpy of the new value's length into the old allocation); otherwise
   * a new entry lands at its ordered position.
   */
  ghost function Upsert<K(!new)>(cmp: (K, K) -> int, s: seq<Entry<K>>, k: K, v: Bytes): seq<Entry<K>>
  {
    if s == [] then [Entry(k, v)]
    else if cmp(k, s[0].key) == 0 then [Entry(s[0].key, CopyBytes(s[0].value, v, |v|))] + s[1..]
    else if cmp(k, s[0].key) < 0 then [Entry(k, v)] + s
    else [s[0]] + Upsert(cmp, s[1..], k, v)
  }

  /** The value k holds after an upsert of v: v copied over the old buffer, or v itself for a new key. */
  function Merged<K>(m: map<K, Bytes>, k: K, v: Bytes): Bytes
  {
    if k in m then CopyBytes(m[k], v, |v|) else v
  }

  /** The map after an upsert of v under k. */
  function Updated<K>(m: map<K, Bytes>, k: K, v: Bytes): map<K, Bytes>
  {
    m[k := Merged(m, k, v)]
  }

  lemma SortedTail<K(!new)>(cmp: (K, K) -> int, s: seq<Entry<K>>)
    requires Sorted(cmp, s) && s != []
    ensures Sorted(cmp, s[1..]) && AllAbove(cmp, s[1..], s[0].key)
  {
  }

  /** Putting an entry in front of a sorted run of larger keys keeps it sorted. */
  lemma SortedCons<K(!new)>(cmp: (K, K) -> int, e: Entry<K>, s: seq<Entry<K>>)
    requires Sorted(cmp, s) && AllAbove(cmp, s, e.key)
    ensures Sorted(cmp, [e] + s)
  {
    var t := [e] + s;
    forall i, j | 0 <= i < j < |t| ensures cmp(t[i].key, t[j].key) < 0 {
      if i == 0 { assert t[j] == s[j - 1]; } else { assert t[i] == s[i - 1] && t[j] == s[j - 1]; }
    }
  }

  /** The head of a sorted sequence is below everything after it, and so is anything below the head. */
  lemma {:induction false} BelowHead<K(!new)>(cmp: (K, K) -> int, k: K, s: seq<Entry<K>>)
    requires TotalOrder(cmp) && Sorted(cmp, s) && s != [] && cmp(k, s[0].key) < 0
    ensures AllAbove(cmp, s, k)
  {
    forall i | 0 < i < |s| ensures cmp(k, s[i].key) < 0 {
      LessTransitive(cmp, k, s[0].key, s[i].key);
    }
  }

  /** Every key of a compares below every key of b. */
  ghost predicate Separated<K(!new)>(cmp: (K, K) -> int, a: seq<Entry<K>>, b: seq<Entry<K>>)
  {
    forall i, j :: 0 <= i < |a| && 0 <= j < |b| ==> cmp(a[i].key, b[j].key) < 0
  }

  /** Two sorted runs, the first wholly below the second, concatenate to a sorted run. */
  lemma SortedConcat<K(!new)>(cmp: (K, K) -> int, a: seq<Entry<K>>, b: seq<Entry<K>>)
    requires Sorted(cmp, a) && Sorted(cmp, b) && Separated(cmp, a, b)
    ensures Sorted(cmp, a + b)
  {
    var s := a + b;
    forall i, j | 0 <= i < j < |s| ensures cmp(s[i].key, s[j].key) < 0 {
      if j < |a| {
        assert s[i] == a[i] && s[j] == a[j];
      } else if i < |a| {
        assert s[i] == a[i] && s[j] == b[j - |a|];
      } else {
        assert s[i] == b[i - |a|] && s[j] == b[j - |a|];
      }
    }
  }

  /** Runs below and above a key are separated by it. */
  lemma SeparatedBy<K(!new)>(cmp: (K, K) -> int, a: seq<Entry<K>>, k: K, b: seq<Entry<K>>)
    requires TotalPreorder(cmp) && AllBelow(cmp, a, k) && AllAbove(cmp, b, k)
    ensures Separated(cmp, a, b)
  {
    forall i, j | 0 <= i < |a| && 0 <= j < |b| ensures cmp(a[i].key, b[j].key) < 0 {
      LessTransitive(cmp, a[i].key, k, b[j].key);
    }
  }

  /** Concatenating two sorted runs around a middle entry keeps them sorted. */
  lemma SortedJoin<K(!new)>(cmp: (K, K) -> int, a: seq<Entry<K>>, e: Entry<K>, b: seq<Entry<K>>)
    requires TotalOrder(cmp)
    requires Sorted(cmp, a) && Sorted(cmp, b)
    requires AllBelow(cmp, a, e.key) && AllAbove(cmp, b, e.key)
    ensures Sorted(cmp, a + [e] + b)
  {
    SortedCons(cmp, e, b);
    SeparatedAround(cmp, a, e, b);
    SortedConcat(cmp, a, [e] + b);
    assert a + [e] + b == a + ([e] + b);
  }

  /** Keys below e are below e and everything above it. */
  lemma SeparatedAround<K(!new)>(cmp: (K, K) -> int, a: seq<Entry<K>>, e: Entry<K>, b: seq<Entry<K>>)
    requires TotalPreorder(cmp) && AllBelow(cmp, a, e.key) && AllAbove(cmp, b, e.key)
    ensures Separated(cmp, a, [e] + b)
  {
    var t := [e] + b;
    forall i, j | 0 <= i < |a| && 0 <= j < |t| ensures cmp(a[i].key, t[j].key) < 0 {
      if j > 0 {
        assert t[j] == b[j - 1];
        LessTransitive(cmp, a[i].key, e.key, b[j - 1].key);
      }
    }
  }

  /** The converse of SortedJoin. */
  lemma SortedSplit<K(!new)>(cmp: (K, K) -> int, a: seq<Entry<K>>, e: Entry<K>, b: seq<Entry<K>>)
    requires Sorted(cmp, a + [e] + b)
    ensures Sorted(cmp, a) && Sorted(cmp, b)
    ensures AllBelow(cmp, a, e.key) && AllAbove(cmp, b, e.key)
  {
    var s := a + [e] + b;
    assert forall i :: 0 <= i < |a| ==> s[i] == a[i];
    assert forall i :: 0 <= i < |b| ==> s[|a| + 1 + i] == b[i];
    assert s[|a|] == e;
  }

  lemma {:induction false} ToMapConcat<K>(a: seq<Entry<K>>, b: seq<Entry<K>>)
    ensures ToMap(a + b) == ToMap(b) + ToMap(a)
  {
    if a != [] {
      assert (a + b)[1..] == a[1..] + b;
      ToMapConcat(a[1..], b);
    } else {
      assert a + b == b;
    }
  }

  /** Every key of the sequence is a key of its map. */
  lemma {:induction false} KeyPresent<K>(s: seq<Entry<K>>, i: nat)
    requires i < |s|
    ensures s[i].key in ToMap(s)
  {
    if i > 0 {
      KeyPresent(s[1..], i - 1);
    }
  }

  /** A key outside the sequence is absent from its map. */
  lemma {:induction false} KeyAbsent<K>(s: seq<Entry<K>>, k: K)
    requires forall i :: 0 <= i < |s| ==> s[i].key != k
    ensures k !in ToMap(s)
  {
    if s != [] {
      assert s[0].key != k;
      forall i | 0 <= i < |s[1..]| ensures s[1..][i].key != k {
        assert s[1..][i] == s[i + 1];
      }
      KeyAbsent(s[1..], k);
    }
  }

  /** A key above (or below) every key of the sequence is not in its map. */
  lemma AboveAbsent<K(!new)>(cmp: (K, K) -> int, s: seq<Entry<K>>, k: K)
    requires TotalPreorder(cmp) && (AllAbove(cmp, s, k) || AllBelow(cmp, s, k))
    ensures k !in ToMap(s)
  {
    assert cmp(k, k) == 0;
    KeyAbsent(s, k);
  }

  /** In a sorted sequence, the map's value for the i-th key is the i-th value. */
  lemma {:induction false} ToMapAt<K(!new)>(cmp: (K, K) -> int, s: seq<Entry<K>>, i: nat)
    requires TotalOrder(cmp) && Sorted(cmp, s) && i < |s|
    ensures s[i].key in ToMap(s) && ToMap(s)[s[i].key] == s[i].value
  {
    if i > 0 {
      ToMapAt(cmp, s[1..], i - 1);
      assert s[1..][i - 1] == s[i];
      assert cmp(s[0].key, s[i].key) < 0;
    }
  }

  /** Sorted sequences have pairwise distinct keys, so the map has one key per entry. */
  lemma {:induction false} ToMapSize<K(!new)>(cmp: (K, K) -> int, s: seq<Entry<K>>)
    requires TotalOrder(cmp) && Sorted(cmp, s)
    ensures |ToMap(s)| == |s|
  {
    if s != [] {
      SortedTail(cmp, s);
      ToMapSize(cmp, s[1..]);
      AboveAbsent(cmp, s[1..], s[0].key);
    }
  }

  /** Upserting a key above x into keys above x keeps every key above x. */
  lemma {:induction false} UpsertAbove<K(!new)>(cmp: (K, K) -> int, s: seq<Entry<K>>, x: K, k: K, v: Bytes)
    requires AllAbove(cmp, s, x) && cmp(x, k) < 0
    ensures AllAbove(cmp, Upsert(cmp, s, k, v), x)
  {
    if s != [] && cmp(k, s[0].key) > 0 {
      UpsertAbove(cmp, s[1..], x, k, v);
    }
  }

  lemma {:induction false} UpsertSorted<K(!new)>(cmp: (K, K) -> int, s: seq<Entry<K>>, k: K, v: Bytes)
    requires TotalOrder(cmp) && Sorted(cmp, s)
    ensures Sorted(cmp, Upsert(cmp, s, k, v))
  {
    if s == [] {
    } else if cmp(k, s[0].key) == 0 {
      SortedTail(cmp, s);
      SortedCons(cmp, Entry(s[0].key, CopyBytes(s[0].value, v, |v|)), s[1..]);
    } else if cmp(k, s[0].key) < 0 {
      BelowHead(cmp, k, s);
      SortedCons(cmp, Entry(k, v), s);
    } else {
      SortedTail(cmp, s);
      UpsertSorted(cmp, s[1..], k, v);
      assert cmp(s[0].key, k) < 0;
      UpsertAbove(cmp, s[1..], s[0].key, k, v);
      SortedCons(cmp, s[0], Upsert(cmp, s[1..], k, v));
    }
  }

  /** Upsert realises the abstract map update the tree operations promise. */
  lemma {:induction false} UpsertMap<K(!new)>(cmp: (K, K) -> int, s: seq<Entry<K>>, k: K, v: Bytes)
    requires TotalOrder(cmp) && Sorted(cmp, s)
    ensures ToMap(Upsert(cmp, s, k, v)) == Updated(ToMap(s), k, v)
    ensures |Upsert(cmp, s, k, v)| == if k in ToMap(s) then |s| else |s| + 1
  {
    if s == [] {
    } else if cmp(k, s[0].key) == 0 {
      UpsertMapHit(s, k, v, Upsert(cmp, s, k, v));
    } else if cmp(k, s[0].key) < 0 {
      BelowHead(cmp, k, s);
      AboveAbsent(cmp, s, k);
      UpsertMapFront(s, k, v, Upsert(cmp, s, k, v));
    } else {
      SortedTail(cmp, s);
      UpsertMap(cmp, s[1..], k, v);
      UpsertMapSkip(s, k, v, Upsert(cmp, s[1..], k, v), Upsert(cmp, s, k, v));
      UpsertSizeSkip(s, k, Upsert(cmp, s[1..], k, v), Upsert(cmp, s, k, v));
    }
  }

  lemma UpsertMapHit<K>(s: seq<Entry<K>>, k: K, v: Bytes, u: seq<Entry<K>>)
    requires s != [] && k == s[0].key && u == [Entry(s[0].key, CopyBytes(s[0].value, v, |v|))] + s[1..]
    ensures ToMap(u) == Updated(ToMap(s), k, v) && k in ToMap(s) && |u| == |s|
  {
    assert u[1..] == s[1..];
  }

  lemma UpsertMapFront<K>(s: seq<Entry<K>>, k: K, v: Bytes, u: seq<Entry<K>>)
    requires k !in ToMap(s) && u == [Entry(k, v)] + s
    ensures ToMap(u) == Updated(ToMap(s), k, v) && |u| == |s| + 1
  {
    assert u[1..] == s;
  }

  lemma UpsertMapSkip<K>(s: seq<Entry<K>>, k: K, v: Bytes, w: seq<Entry<K>>, u: seq<Entry<K>>)
    requires s != [] && s[0].key != k && u == [s[0]] + w
    requires ToMap(w) == Updated(ToMap(s[1..]), k, v)
    ensures ToMap(u) == Updated(ToMap(s), k, v)
  {
    var m1, a, x := ToMap(s[1..]), s[0].key, s[0].value;
    MergedSkip(m1, a, x, k, v);
    assert u[0] == s[0] && u[1..] == w;
    assert ToMap(u) == ToMap(w)[a := x];
    MapUpdatesCommute(m1, a, x, k, Merged(m1, k, v));
  }

  lemma UpsertSizeSkip<K>(s: seq<Entry<K>>, k: K, w: seq<Entry<K>>, u: seq<Entry<K>>)
    requires s != [] && s[0].key != k && |u| == 1 + |w|
    requires |w| == if k in ToMap(s[1..]) then |s| - 1 else |s|
    ensures |u| == if k in ToMap(s) then |s| else |s| + 1
  {
    assert ToMap(s) == ToMap(s[1..])[s[0].key := s[0].value];
  }

  /** Updating another key first does not change what k gets. */
  lemma MergedSkip<K>(m: map<K, Bytes>, a: K, x: Bytes, k: K, v: Bytes)
    requires a != k
    ensures Merged(m[a := x], k, v) == Merged(m, k, v)
    ensures (k in m[a := x]) == (k in m)
  {
  }

  lemma MapUpdatesCommute<K, V>(m: map<K, V>, a: K, x: V, b: K, y: V)
    requires a != b
    ensures m[b := y][a := x] == m[a := x][b := y]
  {
  }

  /** Removing the i-th entry of a sorted sequence removes exactly its key from the map. */
  lemma RemoveAtMap<K(!new)>(cmp: (K, K) -> int, s: seq<Entry<K>>, i: nat)
    requires TotalPreorder(cmp) && Sorted(cmp, s) && i < |s|
    ensures Sorted(cmp, s[..i] + s[i + 1..])
    ensures ToMap(s[..i] + s[i + 1..]) == ToMap(s) - {s[i].key}
  {
    var a, e, b := s[..i], s[i], s[i + 1..];
    SplitAround(s, i);
    SortedSplit(cmp, a, e, b);
    RemoveSorted(cmp, a, e.key, b);
    AboveAbsent(cmp, a, e.key);
    AboveAbsent(cmp, b, e.key);
    RemoveMiddle(a, e, b);
  }

  lemma {:induction false} RemoveMiddle<K>(a: seq<Entry<K>>, e: Entry<K>, b: seq<Entry<K>>)
    requires e.key !in ToMap(a) && e.key !in ToMap(b)
    ensures ToMap(a + b) == ToMap(a + [e] + b) - {e.key}
    decreases |a|
  {
    if a == [] {
      assert a + b == b && (a + [e] + b)[1..] == b;
      MapUpdateRemove(ToMap(b), e.key, e.value);
    } else {
      assert ToMap(a) == ToMap(a[1..])[a[0].key := a[0].value];
      RemoveMiddle(a[1..], e, b);
      ToMapCons(a, b);
      SeqAssoc(a, [e], b);
      SeqAssoc(a[1..], [e], b);
      ToMapCons(a, [e] + b);
      MapRemoveCommutes(ToMap(a[1..] + [e] + b), a[0].key, a[0].value, e.key);
    }
  }

  /** The map of a sequence with a nonempty prefix: the rest's map, updated with the first entry. */
  lemma ToMapCons<K>(a: seq<Entry<K>>, t: seq<Entry<K>>)
    requires a != []
    ensures ToMap(a + t) == ToMap(a[1..] + t)[a[0].key := a[0].value]
  {
    assert (a + t)[0] == a[0] && (a + t)[1..] == a[1..] + t;
  }

  lemma MapUpdateRemove<K, V>(m: map<K, V>, k: K, v: V)
    requires k !in m
    ensures m[k := v] - {k} == m
  {
  }

  lemma MapRemoveCommutes<K, V>(m: map<K, V>, a: K, x: V, k: K)
    requires a != k
    ensures m[a := x] - {k} == (m - {k})[a := x]
  {
  }

  lemma RemoveSorted<K(!new)>(cmp: (K, K) -> int, a: seq<Entry<K>>, k: K, b: seq<Entry<K>>)
    requires TotalPreorder(cmp) && Sorted(cmp, a) && Sorted(cmp, b)
    requires AllBelow(cmp, a, k) && AllAbove(cmp, b, k)
    ensures Sorted(cmp, a + b)
  {
    SeparatedBy(cmp, a, k, b);
    SortedConcat(cmp, a, b);
  }

  /** The value stored under k, or None: the answer a search of the tree must give. */
  ghost function Lookup<K>(s: seq<Entry<K>>, k: K): Option<Bytes>
  {
    if k in ToMap(s) then Some(ToMap(s)[k]) else None
  }

  /**
   * Searching a sorted sequence split around an entry e: a key below e is
   * found (or not) on the left, a key above on the right, and a key that
   * compares equal is e itself.
   */
  lemma LookupSplit<K(!new)>(cmp: (K, K) -> int, a: seq<Entry<K>>, e: Entry<K>, b: seq<Entry<K>>, k: K)
    requires TotalOrder(cmp) && Sorted(cmp, a + [e] + b)
    ensures Lookup(a + [e] + b, k) ==
              if cmp(k, e.key) < 0 then Lookup(a, k)
              else if cmp(k, e.key) > 0 then Lookup(b, k)
              else Some(e.value)
  {
    SortedSplit(cmp, a, e, b);
    ToMapConcat(a + [e], b);
    ToMapConcat(a, [e]);
    assert ToMap([e]) == map[e.key := e.value] by { assert [e][1..] == []; }
    assert cmp(e.key, e.key) == 0;
    AboveAbsent(cmp, b, e.key);
    AboveAbsent(cmp, a, e.key);
    if cmp(k, e.key) < 0 {
      forall i | 0 <= i < |b| ensures cmp(k, b[i].key) < 0 {
        LessTransitive(cmp, k, e.key, b[i].key);
      }
      AboveAbsent(cmp, b, k);
    } else if cmp(k, e.key) > 0 {
      forall i | 0 <= i < |a| ensures cmp(a[i].key, k) < 0 {
        LessTransitive(cmp, a[i].key, e.key, k);
      }
      AboveAbsent(cmp, a, k);
    }
  }

  /**
   * Upserting a key that lies strictly between the outer parts only
   * touches the middle: the tree descent may narrow the search to a subtree.
   */
  lemma {:induction false} UpsertMiddle<K(!new)>(cmp: (K, K) -> int, a: seq<Entry<K>>, m: seq<Entry<K>>, b: seq<Entry<K>>, k: K, v: Bytes)
    requires TotalOrder(cmp)
    requires AllBelow(cmp, a, k) && AllAbove(cmp, b, k)
    ensures Upsert(cmp, a + m + b, k, v) == a + Upsert(cmp, m, k, v) + b
  {
    SeqAssoc(a, m, b);
    UpsertAfterPrefix(cmp, a, m + b, k, v);
    UpsertBeforeSuffix(cmp, m, b, k, v);
    SeqAssoc(a, Upsert(cmp, m, k, v), b);
  }

  lemma EmptyMiddle<T>(a: seq<T>, b: seq<T>)
    ensures a + [] + b == a + b
  {
  }

  lemma SeqAssoc<T>(a: seq<T>, m: seq<T>, b: seq<T>)
    ensures a + m + b == a + (m + b)
  {
  }

  lemma UpsertAfterPrefix<K(!new)>(cmp: (K, K) -> int, a: seq<Entry<K>>, t: seq<Entry<K>>, k: K, v: Bytes)
    requires TotalPreorder(cmp) && AllBelow(cmp, a, k)
    ensures Upsert(cmp, a + t, k, v) == a + Upsert(cmp, t, k, v)
  {
    forall i | 0 <= i < |a| ensures cmp(k, a[i].key) > 0 {
    }
    UpsertPastAll(cmp, a, t, k, v);
  }

  /** An upsert passes over every entry whose key the new key compares above. */
  lemma {:induction false} UpsertPastAll<K(!new)>(cmp: (K, K) -> int, a: seq<Entry<K>>, t: seq<Entry<K>>, k: K, v: Bytes)
    requires forall i :: 0 <= i < |a| ==> cmp(k, a[i].key) > 0
    ensures Upsert(cmp, a + t, k, v) == a + Upsert(cmp, t, k, v)
    decreases |a|
  {
    if a == [] {
      assert a + t == t;
    } else {
      assert (a + t)[0] == a[0] && (a + t)[1..] == a[1..] + t;
      assert cmp(k, a[0].key) > 0;
      UpsertPastAll(cmp, a[1..], t, k, v);
      SeqAssoc([a[0]], a[1..], Upsert(cmp, t, k, v));
      assert [a[0]] + a[1..] == a;
    }
  }

  lemma {:induction false} UpsertBeforeSuffix<K(!new)>(cmp: (K, K) -> int, m: seq<Entry<K>>, b: seq<Entry<K>>, k: K, v: Bytes)
    requires TotalOrder(cmp) && AllAbove(cmp, b, k)
    ensures Upsert(cmp, m + b, k, v) == Upsert(cmp, m, k, v) + b
  {
    if m != [] {
      assert (m + b)[0] == m[0] && (m + b)[1..] == m[1..] + b;
      UpsertBeforeSuffix(cmp, m[1..], b, k, v);
    } else {
      assert m + b == b;
      if b != [] {
        assert cmp(k, b[0].key) < 0;
      }
    }
  }

  /** Replacing values without touching keys keeps a sequence sorted. */
  lemma SortedSameKeys<K(!new)>(cmp: (K, K) -> int, s: seq<Entry<K>>, t: seq<Entry<K>>)
    requires Sorted(cmp, s) && |s| == |t|
    requires forall i :: 0 <= i < |s| ==> s[i].key == t[i].key
    ensures Sorted(cmp, t)
  {
  }

  /** A search answers None exactly when no stored key compares equal to the probe. */
  lemma LookupNone<K(!new)>(cmp: (K, K) -> int, s: seq<Entry<K>>, k: K)
    requires TotalOrder(cmp)
    ensures Lookup(s, k).None? <==> forall i :: 0 <= i < |s| ==> cmp(k, s[i].key) != 0
  {
    if Lookup(s, k).None? {
      forall i | 0 <= i < |s| ensures cmp(k, s[i].key) != 0 {
        KeyPresent(s, i);
        assert cmp(s[i].key, s[i].key) == 0;
      }
    } else {
      KeyAbsentContra(s, k);
      var i :| 0 <= i < |s| && s[i].key == k;
      assert cmp(k, k) == 0;
    }
  }

  lemma KeyAbsentContra<K>(s: seq<Entry<K>>, k: K)
    requires k in ToMap(s)
    ensures exists i :: 0 <= i < |s| && s[i].key == k
  {
    if forall i :: 0 <= i < |s| ==> s[i].key != k {
      KeyAbsent(s, k);
    }
  }

  /** The middle of a sorted sequence is sorted. */
  lemma SortedInfix<K(!new)>(cmp: (K, K) -> int, a: seq<Entry<K>>, m: seq<Entry<K>>, b: seq<Entry<K>>)
    requires Sorted(cmp, a + m + b)
    ensures Sorted(cmp, m)
  {
    var s := a + m + b;
    forall i, j | 0 <= i < j < |m| ensures cmp(m[i].key, m[j].key) < 0 {
      assert s[|a| + i] == m[i] && s[|a| + j] == m[j];
    }
  }

  /** Two sequences with the same keys in the same places denote maps with the same keys. */
  lemma {:induction false} ToMapSameKeys<K>(s: seq<Entry<K>>, t: seq<Entry<K>>)
    requires |s| == |t| && forall i :: 0 <= i < |s| ==> s[i].key == t[i].key
    ensures ToMap(s).Keys == ToMap(t).Keys
  {
    if s != [] {
      assert s[0].key == t[0].key;
      forall i | 0 <= i < |s| - 1 ensures s[1..][i].key == t[1..][i].key {
        assert s[1..][i] == s[i + 1] && t[1..][i] == t[i + 1];
      }
      ToMapSameKeys(s[1..], t[1..]);
    }
  }

  /** The first key of a sorted sequence is its smallest. */
  lemma SortedFirst<K(!new)>(cmp: (K, K) -> int, s: seq<Entry<K>>)
    requires TotalOrder(cmp) && Sorted(cmp, s) && s != []
    ensures forall i :: 0 <= i < |s| ==> cmp(s[0].key, s[i].key) <= 0
  {
    assert cmp(s[0].key, s[0].key) == 0;
  }

  /** The last key of a sorted sequence is its largest. */
  lemma SortedLast<K(!new)>(cmp: (K, K) -> int, s: seq<Entry<K>>)
    requires TotalOrder(cmp) && Sorted(cmp, s) && s != []
    ensures forall i :: 0 <= i < |s| ==> cmp(s[i].key, s[|s| - 1].key) <= 0
  {
    assert cmp(s[|s| - 1].key, s[|s| - 1].key) == 0;
  }
}
