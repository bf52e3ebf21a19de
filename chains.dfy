/**
 * Separate chaining as hash_table.c and map.c implement it: an array of
 * buckets, each a singly linked chain of key/value entries, where every
 * entry sits in bucket hash(key) % capacity.  A chain is modelled as the
 * sequence of its entries from the bucket head; the bucket array as a
 * sequence of chains.
 */
module Chains {
  import opened Common
  import opened Ordered

  type Chain<K> = seq<Entry<K>>

  /** The caller's comparator decides key equality: it returns 0 exactly for equal keys. */
  ghost predicate DecidesEquality<K(!new)>(cmp: (K, K) -> int)
  {
    forall a, b :: cmp(a, b) == 0 <==> a == b
  }

  /** The value a map holds for k, or None. */
  function At<K>(m: map<K, Bytes>, k: K): Option<Bytes>
  {
    if k in m then Some(m[k]) else None
  }

  /** The value of the first entry of the chain whose key is k, or None: what a chain walk finds. */
  ghost function ChainLookup<K>(c: Chain<K>, k: K): Option<Bytes>
  {
    if c == [] then None else if c[0].key == k then Some(c[0].value) else ChainLookup(c[1..], k)
  }

  /** No key occurs twice in the chain. */
  ghost predicate Distinct<K>(c: Chain<K>)
  {
    forall i, j :: 0 <= i < j < |c| ==> c[i].key != c[j].key
  }

  /** Every entry of bucket b satisfies hash(key) % capacity == b, where capacity is the number of buckets. */
  ghost predicate Hashed<K>(bs: seq<Chain<K>>, hash: K -> nat)
  {
    |bs| > 0 && forall b, j :: 0 <= b < |bs| && 0 <= j < |bs[b]| ==> hash(bs[b][j].key) % |bs| == b
  }

  /**
   * The bucket array stores exactly the map m: entries hashed into their
   * buckets, no key twice in a chain, and the walk of k's bucket finding
   * k's value in m, or nothing when k is not in m.  Since a key can only
   * sit in its own bucket, keys are unique across the whole table.
   */
  ghost predicate Represents<K(!new)>(bs: seq<Chain<K>>, hash: K -> nat, m: map<K, Bytes>)
  {
    && Hashed(bs, hash)
    && (forall b :: 0 <= b < |bs| ==> Distinct(bs[b]))
    && (forall k :: ChainLookup(bs[hash(k) % |bs|], k) == At(m, k))
  }

  /** cap empty buckets, as calloc returns them. */
  function EmptyBuckets<K>(cap: nat): (bs: seq<Chain<K>>)
    ensures |bs| == cap && forall b :: 0 <= b < cap ==> bs[b] == []
  {
    seq(cap, _ => [])
  }

  /** Empty buckets represent the empty map. */
  lemma EmptyRepresents<K(!new)>(cap: nat, hash: K -> nat)
    requires cap > 0
    ensures Represents(EmptyBuckets<K>(cap), hash, map[])
  {
    var bs := EmptyBuckets<K>(cap);
    forall k ensures ChainLookup(bs[hash(k) % |bs|], k) == At(map[], k) {
      assert bs[hash(k) % |bs|] == [];
    }
  }

  /**
   * The chain walk shared by every operation: the index of the first
   * entry whose key compares equal to k, or the chain length when none
   * does.
   */
  method ChainFind<K(!new)>(cmp: (K, K) -> int, c: Chain<K>, k: K) returns (j: nat)
    requires DecidesEquality(cmp)
    ensures j <= |c|
    ensures forall i :: 0 <= i < j ==> c[i].key != k
    ensures j < |c| ==> c[j].key == k && ChainLookup(c, k) == Some(c[j].value)
    ensures j == |c| ==> ChainLookup(c, k) == None
  {
    j := 0;
    while j < |c|
      invariant j <= |c|
      invariant forall i :: 0 <= i < j ==> c[i].key != k
      invariant ChainLookup(c[j..], k) == ChainLookup(c, k)
    {
      assert c[j..][1..] == c[j + 1..];
      if cmp(c[j].key, k) == 0 {
        return;
      }
      j := j + 1;
    }
  }

  /** The walk finds nothing exactly when no entry has the key. */
  lemma {:induction false} ChainMissing<K>(c: Chain<K>, k: K)
    ensures ChainLookup(c, k).None? <==> forall i :: 0 <= i < |c| ==> c[i].key != k
  {
    if c != [] {
      ChainMissing(c[1..], k);
      assert forall i :: 1 <= i < |c| ==> c[i] == c[1..][i - 1];
    }
  }

  /** Replacing the value of entry j of a chain without duplicates changes only what its key finds. */
  lemma {:induction false} LookupReplace<K>(c: Chain<K>, j: nat, v: Bytes, k: K)
    requires Distinct(c) && j < |c|
    ensures Distinct(c[j := Entry(c[j].key, v)])
    ensures ChainLookup(c[j := Entry(c[j].key, v)], k) == if k == c[j].key then Some(v) else ChainLookup(c, k)
  {
    var d := c[j := Entry(c[j].key, v)];
    assert forall i :: 0 <= i < |c| ==> d[i].key == c[i].key;
    if j > 0 {
      assert d[1..] == c[1..][j - 1 := Entry(c[j].key, v)];
      assert c[1..][j - 1] == c[j];
      LookupReplace(c[1..], j - 1, v, k);
    }
  }

  /** Unlinking entry j of a chain without duplicates makes exactly its key unfindable. */
  lemma LookupRemove<K>(c: Chain<K>, j: nat, k: K)
    requires Distinct(c) && j < |c|
    ensures Distinct(c[..j] + c[j + 1..])
    ensures ChainLookup(c[..j] + c[j + 1..], k) == if k == c[j].key then None else ChainLookup(c, k)
  {
    DistinctRemove(c, j);
    LookupSkip(c, j, k);
  }

  lemma DistinctRemove<K>(c: Chain<K>, j: nat)
    requires Distinct(c) && j < |c|
    ensures Distinct(c[..j] + c[j + 1..])
  {
    var d := c[..j] + c[j + 1..];
    forall x, y | 0 <= x < y < |d| ensures d[x].key != d[y].key {
      var x', y' := if x < j then x else x + 1, if y < j then y else y + 1;
      assert d[x] == c[x'] && d[y] == c[y'];
    }
  }

  lemma {:induction false} LookupSkip<K>(c: Chain<K>, j: nat, k: K)
    requires Distinct(c) && j < |c|
    ensures ChainLookup(c[..j] + c[j + 1..], k) == if k == c[j].key then None else ChainLookup(c, k)
  {
    if j == 0 {
      assert c[..j] + c[j + 1..] == c[1..];
      if k == c[0].key {
        ChainMissing(c[1..], k);
      }
    } else {
      var d := c[..j] + c[j + 1..];
      assert d[0] == c[0] && d[1..] == c[1..][..j - 1] + c[1..][j..];
      assert c[1..][j - 1] == c[j] && c[0].key != c[j].key;
      assert Distinct(c[1..]) by {
        assert forall x :: 0 <= x < |c| - 1 ==> c[1..][x] == c[x + 1];
      }
      LookupSkip(c[1..], j - 1, k);
    }
  }

  /** Appending an entry to a chain: the walk reaches it only when nothing before it has its key. */
  lemma {:induction false} LookupAppend<K>(c: Chain<K>, e: Entry<K>, k: K)
    ensures ChainLookup(c + [e], k) ==
              if ChainLookup(c, k).Some? then ChainLookup(c, k) else if e.key == k then Some(e.value) else None
  {
    if c != [] {
      assert (c + [e])[1..] == c[1..] + [e];
      LookupAppend(c[1..], e, k);
    }
  }

  /**
   * Replacing bucket i by a chain that holds, for the keys of bucket i,
   * exactly what m2 holds, gives a table for m2 provided m2 agrees with m
   * on every other bucket.
   */
  lemma UpdateBucket<K(!new)>(bs: seq<Chain<K>>, hash: K -> nat, m: map<K, Bytes>, i: nat, c: Chain<K>, m2: map<K, Bytes>)
    requires Represents(bs, hash, m) && i < |bs|
    requires Distinct(c) && forall j :: 0 <= j < |c| ==> hash(c[j].key) % |bs| == i
    requires forall k :: hash(k) % |bs| == i ==> ChainLookup(c, k) == At(m2, k)
    requires forall k :: hash(k) % |bs| != i ==> At(m2, k) == At(m, k)
    ensures Represents(bs[i := c], hash, m2)
  {
    var nb: seq<Chain<K>> := bs[i := c];
    assert Hashed(nb, hash) by {
      forall b: nat, j: nat | b < |nb| && j < |nb[b]| ensures hash(nb[b][j].key) % |nb| == b {
        if b != i {
          assert nb[b] == bs[b];
        }
      }
    }
    assert forall b :: 0 <= b < |nb| ==> Distinct(nb[b]) by {
      forall b | 0 <= b < |nb| ensures Distinct(nb[b]) {
        if b != i {
          assert nb[b] == bs[b];
        }
      }
    }
    forall k ensures ChainLookup(nb[hash(k) % |nb|], k) == At(m2, k) {
      if hash(k) % |bs| != i {
        assert nb[hash(k) % |nb|] == bs[hash(k) % |bs|];
      }
    }
  }

  /**
   * The rehash loop of resize_table and map_resize: walk the buckets in
   * order and each chain from its head, prepending every entry to bucket
   * hash(key) % newCap of a fresh bucket array.  The result stores the
   * same map under the new capacity.
   */
  method Rehash<K(!new)>(bs: seq<Chain<K>>, hash: K -> nat, newCap: nat, ghost m: map<K, Bytes>) returns (nb: seq<Chain<K>>)
    requires Represents(bs, hash, m) && newCap > 0
    ensures |nb| == newCap && Represents(nb, hash, m)
  {
    nb := EmptyBuckets(newCap);
    var i := 0;
    while i < |bs|
      invariant i <= |bs| && |nb| == newCap
      invariant Hashed(nb, hash) && forall b :: 0 <= b < newCap ==> Distinct(nb[b])
      invariant forall k :: ChainLookup(nb[hash(k) % newCap], k) == if hash(k) % |bs| < i then At(m, k) else None
    {
      var chain := bs[i];
      var j := 0;
      while j < |chain|
        invariant j <= |chain| && |nb| == newCap
        invariant Hashed(nb, hash) && forall b :: 0 <= b < newCap ==> Distinct(nb[b])
        invariant forall k :: ChainLookup(nb[hash(k) % newCap], k) ==
                    if hash(k) % |bs| < i then At(m, k)
                    else if hash(k) % |bs| == i then ChainLookup(chain[..j], k)
                    else None
      {
        nb := MoveEntry(bs, hash, m, i, j, nb);
        j := j + 1;
      }
      forall k | hash(k) % |bs| == i ensures ChainLookup(chain[..j], k) == At(m, k) {
        assert chain[..j] == chain;
      }
      i := i + 1;
    }
  }

  /** One step of the rehash loop: entry j of bucket i is prepended to its new bucket. */
  method MoveEntry<K(!new)>(bs: seq<Chain<K>>, hash: K -> nat, ghost m: map<K, Bytes>, i: nat, j: nat, nb: seq<Chain<K>>)
    returns (nb2: seq<Chain<K>>)
    requires Represents(bs, hash, m) && i < |bs| && j < |bs[i]|
    requires Hashed(nb, hash) && forall b :: 0 <= b < |nb| ==> Distinct(nb[b])
    requires forall k :: ChainLookup(nb[hash(k) % |nb|], k) ==
               if hash(k) % |bs| < i then At(m, k)
               else if hash(k) % |bs| == i then ChainLookup(bs[i][..j], k)
               else None
    ensures |nb2| == |nb| && Hashed(nb2, hash) && forall b :: 0 <= b < |nb2| ==> Distinct(nb2[b])
    ensures forall k :: ChainLookup(nb2[hash(k) % |nb2|], k) ==
               if hash(k) % |bs| < i then At(m, k)
               else if hash(k) % |bs| == i then ChainLookup(bs[i][..j + 1], k)
               else None
  {
    var chain := bs[i];
    var e := chain[j];
    var s := hash(e.key) % |nb|;
    assert hash(e.key) % |bs| == i;
    assert chain[..j + 1] == chain[..j] + [e];
    ChainMissing(chain[..j], e.key);
    nb2 := nb[s := [e] + nb[s]];
    PrependEntry(nb, hash, e);
    forall k ensures ChainLookup(nb2[hash(k) % |nb2|], k) ==
               if hash(k) % |bs| < i then At(m, k)
               else if hash(k) % |bs| == i then ChainLookup(chain[..j + 1], k)
               else None
    {
      LookupAppend(chain[..j], e, k);
    }
  }

  /** Prepending an entry whose key its bucket lacks keeps the table well formed and makes only that key find it. */
  lemma PrependEntry<K>(nb: seq<Chain<K>>, hash: K -> nat, e: Entry<K>)
    requires Hashed(nb, hash) && forall b :: 0 <= b < |nb| ==> Distinct(nb[b])
    requires ChainLookup(nb[hash(e.key) % |nb|], e.key).None?
    ensures var nb2 := nb[hash(e.key) % |nb| := [e] + nb[hash(e.key) % |nb|]];
            && Hashed(nb2, hash) && (forall b :: 0 <= b < |nb2| ==> Distinct(nb2[b]))
            && forall k :: ChainLookup(nb2[hash(k) % |nb2|], k) ==
                 if k == e.key then Some(e.value) else ChainLookup(nb[hash(k) % |nb|], k)
  {
    var s := hash(e.key) % |nb|;
    var nb2 := nb[s := [e] + nb[s]];
    ChainMissing(nb[s], e.key);
    assert ([e] + nb[s])[1..] == nb[s];
    assert forall j :: 1 <= j < |nb2[s]| ==> nb2[s][j] == nb[s][j - 1];
  }
}
