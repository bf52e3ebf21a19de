/**
 * The hash table of hash_table.c: a bucket array of chains, an entry
 * count, a capacity, and the caller's key size, hash function and
 * comparator.  The ghost field contents is the map the table stores.
 */
module HashTable {
  import opened Common
  import opened Ordered
  import opened Chains

  class HashTable<K(==, !new)> {
    var buckets: seq<Chain<K>>
    var size: nat
    var capacity: nat
    const keySize: nat
    const hash: K -> nat
    const cmp: (K, K) -> int
    ghost var contents: map<K, Bytes>

    /**
     * A comparator deciding key equality, one bucket per unit of
     * capacity, every entry in bucket hash(key) % capacity with no key
     * twice, and size equal to the number of stored keys.
     */
    ghost predicate Valid()
      reads this
    {
      && DecidesEquality(cmp)
      && capacity == |buckets| && capacity > 0
      && Represents(buckets, hash, contents)
      && size == |contents|
    }

    /** A table as a successful hash_table_init leaves it. */
    constructor (initialCapacity: nat, keySize: nat, hash: K -> nat, cmp: (K, K) -> int)
      requires initialCapacity > 0
      ensures buckets == EmptyBuckets(initialCapacity) && size == 0 && capacity == initialCapacity
      ensures this.keySize == keySize && this.hash == hash && this.cmp == cmp && contents == map[]
      ensures DecidesEquality(cmp) ==> Valid()
    {
      buckets := EmptyBuckets(initialCapacity);
      size := 0;
      capacity := initialCapacity;
      this.keySize := keySize;
      this.hash := hash;
      this.cmp := cmp;
      contents := map[];
      EmptyRepresents(initialCapacity, hash);
    }

    /**
     * hash_table_init: false when the bucket array cannot be allocated,
     * otherwise an empty table of the given capacity.  A capacity of 0
     * would make every later operation divide by zero, so it is excluded.
     */
    static method Init(initialCapacity: nat, keySize: nat, hash: K -> nat, cmp: (K, K) -> int, allocOk: bool)
      returns (ok: bool, t: HashTable?<K>)
      requires initialCapacity > 0
      ensures ok == allocOk && (ok <==> t != null)
      ensures ok ==> fresh(t) && t.size == 0 && t.capacity == initialCapacity && t.contents == map[]
      ensures ok ==> t.buckets == EmptyBuckets(initialCapacity)
      ensures ok && DecidesEquality(cmp) ==> t.Valid()
    {
      if !allocOk {
        return false, null;
      }
      t := new HashTable(initialCapacity, keySize, hash, cmp);
      ok := true;
    }

    /**
     * resize_table: false, with nothing changed, when the new bucket array
     * cannot be allocated; otherwise every entry is rehashed into a new
     * array of the given capacity and the stored map is the same.
     */
    method Resize(newCapacity: nat, allocOk: bool) returns (ok: bool)
      requires Valid() && newCapacity > 0
      modifies this
      ensures Valid() && ok == allocOk
      ensures contents == old(contents) && size == old(size)
      ensures capacity == if ok then newCapacity else old(capacity)
      ensures !ok ==> buckets == old(buckets)
    {
      if !allocOk {
        return false;
      }
      buckets := Rehash(buckets, hash, newCapacity, contents);
      capacity := newCapacity;
      return true;
    }

    /**
     * hash_table_insert.  At load 3/4 or more the capacity first doubles
     * (false if that allocation fails).  An existing key gets a fresh copy
     * of the value; a new key is prepended to its bucket and size grows.
     * Either allocation failing gives false with the map unchanged.
     */
    method Insert(key: K, value: Bytes, growOk: bool, allocOk: bool) returns (ok: bool)
      requires Valid()
      modifies this
      ensures Valid()
      ensures var grows := 4 * old(size) >= 3 * old(capacity);
              && (ok <==> (!grows || growOk) && allocOk)
              && capacity == (if grows && growOk then 2 * old(capacity) else old(capacity))
      ensures contents == if ok then old(contents)[key := value] else old(contents)
      ensures size == old(size) + (if ok && key !in old(contents) then 1 else 0)
      ensures ok && key !in old(contents) ==> buckets[hash(key) % capacity][0] == Entry(key, value)
      ensures 4 * old(size) < 3 * old(capacity) ==>
                forall b :: 0 <= b < capacity && b != hash(key) % capacity ==> buckets[b] == old(buckets)[b]
    {
      if 4 * size >= 3 * capacity {
        var grown := Resize(capacity * 2, growOk);
        if !grown {
          return false;
        }
      }
      if !allocOk {
        return false;
      }
      var added;
      buckets, added := Put(buckets, hash, cmp, contents, key, value);
      contents := contents[key := value];
      if added {
        size := size + 1;
      }
      return true;
    }

    /**
     * hash_table_remove: true when an entry compares equal to the key, which
     * is unlinked from its chain, size shrinking by one; false and no change
     * otherwise.
     */
    method Remove(key: K) returns (found: bool)
      requires Valid()
      modifies this
      ensures Valid()
      ensures found <==> key in old(contents)
      ensures contents == old(contents) - {key}
      ensures size == old(size) - (if found then 1 else 0)
      ensures capacity == old(capacity)
      ensures forall b :: 0 <= b < capacity && b != hash(key) % capacity ==> buckets[b] == old(buckets)[b]
      ensures !found ==> buckets == old(buckets)
    {
      buckets, found := Take(buckets, hash, cmp, contents, key);
      contents := contents - {key};
      if found {
        size := size - 1;
      }
    }

    /** hash_table_find: the value stored under a key comparing equal, or None (NULL). */
    method Find(key: K) returns (r: Option<Bytes>)
      requires Valid()
      ensures r == At(contents, key)
    {
      var chain := buckets[hash(key) % capacity];
      var j := ChainFind(cmp, chain, key);
      if j < |chain| {
        return Some(chain[j].value);
      }
      return None;
    }

    /** hash_table_size. */
    function Size(): (n: nat)
      reads this
      requires Valid()
      ensures n == |contents|
    {
      size
    }

    /** hash_table_empty. */
    function Empty(): (b: bool)
      reads this
      requires Valid()
      ensures b <==> contents == map[]
    {
      size == 0
    }

    /**
     * hash_table_clear: every chain is freed and every bucket set to NULL;
     * the capacity stays.
     */
    method Clear()
      requires capacity == |buckets|
      modifies this
      ensures buckets == EmptyBuckets(old(capacity)) && capacity == old(capacity)
      ensures size == 0 && contents == map[]
      ensures DecidesEquality(cmp) && capacity > 0 ==> Valid()
    {
      var i := 0;
      while i < |buckets|
        invariant i <= |buckets| == capacity == old(capacity)
        invariant forall b :: 0 <= b < i ==> buckets[b] == []
      {
        buckets := buckets[i := []];
        i := i + 1;
      }
      assert buckets == EmptyBuckets(capacity);
      size := 0;
      contents := map[];
      if capacity > 0 {
        EmptyRepresents(capacity, hash);
      }
    }

    /** hash_table_destroy: clear, then release the bucket array: no buckets, capacity 0. */
    method Destroy()
      requires capacity == |buckets|
      modifies this
      ensures buckets == [] && capacity == 0 && size == 0 && contents == map[]
    {
      Clear();
      buckets := [];
      capacity := 0;
    }
  }

  /**
   * The bucket work of an insert: walk the key's chain; an entry comparing
   * equal gets the new value, otherwise a new entry is prepended.  Only
   * the key's bucket changes.
   */
  method Put<K(==, !new)>(bs: seq<Chain<K>>, hash: K -> nat, cmp: (K, K) -> int, ghost m: map<K, Bytes>, key: K, value: Bytes)
    returns (nb: seq<Chain<K>>, added: bool)
    requires DecidesEquality(cmp) && Represents(bs, hash, m)
    ensures |nb| == |bs| && Represents(nb, hash, m[key := value])
    ensures added <==> key !in m
    ensures added ==> nb[hash(key) % |bs|][0] == Entry(key, value)
    ensures forall b :: 0 <= b < |bs| && b != hash(key) % |bs| ==> nb[b] == bs[b]
  {
    var idx := hash(key) % |bs|;
    var chain := bs[idx];
    var j := ChainFind(cmp, chain, key);
    var c;
    if j < |chain| {
      c := chain[j := Entry(chain[j].key, value)];
      forall k ensures ChainLookup(c, k) == if k == key then Some(value) else ChainLookup(chain, k) {
        LookupReplace(chain, j, value, k);
      }
      added := false;
    } else {
      c := [Entry(key, value)] + chain;
      NewHead(chain, key, value);
      added := true;
    }
    UpdateBucket(bs, hash, m, idx, c, m[key := value]);
    nb := bs[idx := c];
  }

  /**
   * The bucket work of a remove: walk the key's chain and unlink the entry
   * comparing equal, if any.  Only the key's bucket changes.
   */
  method Take<K(==, !new)>(bs: seq<Chain<K>>, hash: K -> nat, cmp: (K, K) -> int, ghost m: map<K, Bytes>, key: K)
    returns (nb: seq<Chain<K>>, found: bool)
    requires DecidesEquality(cmp) && Represents(bs, hash, m)
    ensures |nb| == |bs| && Represents(nb, hash, m - {key})
    ensures found <==> key in m
    ensures !found ==> nb == bs
    ensures forall b :: 0 <= b < |bs| && b != hash(key) % |bs| ==> nb[b] == bs[b]
  {
    var idx := hash(key) % |bs|;
    var chain := bs[idx];
    var j := ChainFind(cmp, chain, key);
    if j == |chain| {
      assert m - {key} == m;
      return bs, false;
    }
    var c := chain[..j] + chain[j + 1..];
    forall k ensures ChainLookup(c, k) == if k == key then None else ChainLookup(chain, k) {
      LookupRemove(chain, j, k);
    }
    forall x | 0 <= x < |c| ensures hash(c[x].key) % |bs| == idx {
      assert c[x] == if x < j then chain[x] else chain[x + 1];
    }
    UpdateBucket(bs, hash, m, idx, c, m - {key});
    nb := bs[idx := c];
    found := true;
  }

  /** A new key at the head of a chain that lacks it: only that key finds something new. */
  lemma NewHead<K>(chain: Chain<K>, key: K, value: Bytes)
    requires Distinct(chain) && ChainLookup(chain, key) == None
    ensures Distinct([Entry(key, value)] + chain)
    ensures forall k :: ChainLookup([Entry(key, value)] + chain, k) == if k == key then Some(value) else ChainLookup(chain, k)
  {
    var c := [Entry(key, value)] + chain;
    assert c[1..] == chain;
    ChainMissing(chain, key);
    forall x, y | 0 <= x < y < |c| ensures c[x].key != c[y].key {
      assert c[y] == chain[y - 1];
      if x > 0 {
        assert c[x] == chain[x - 1];
      }
    }
  }
}
