/**
 * The Map of map.c: separate chaining like hash_table.c, with a default
 * capacity of 16, a resize that always doubles, and int status codes
 * (0 success, -1 failure).  The struct is the caller's; map_init fills it,
 * which the model renders as a static Init returning the filled object.
 * The ghost field contents is the map the buckets store.
 */
module HashMap {
  import opened Common
  import opened Ordered
  import opened Chains
  import HashTable
  import Compare

  const INITIAL_CAPACITY: nat := 16

  class Map<K(==, !new)> {
    var buckets: seq<Chain<K>>
    var size: nat
    var capacity: nat
    const keySize: nat
    const hash: K -> nat
    const cmp: (K, K) -> int
    ghost var contents: map<K, Bytes>

    /**
     * A comparator deciding key equality, one bucket per unit of capacity,
     * every entry in bucket hash(key) % capacity with no key twice, and
     * size equal to the number of stored keys.
     */
    ghost predicate Valid()
      reads this
    {
      && DecidesEquality(cmp)
      && capacity == |buckets| && capacity > 0
      && Represents(buckets, hash, contents)
      && size == |contents|
    }

    constructor (capacity: nat, keySize: nat, hash: K -> nat, cmp: (K, K) -> int)
      requires capacity > 0
      ensures buckets == EmptyBuckets(capacity) && size == 0 && this.capacity == capacity
      ensures this.keySize == keySize && this.hash == hash && this.cmp == cmp && contents == map[]
      ensures DecidesEquality(cmp) ==> Valid()
    {
      buckets := EmptyBuckets(capacity);
      size := 0;
      this.capacity := capacity;
      this.keySize := keySize;
      this.hash := hash;
      this.cmp := cmp;
      contents := map[];
      EmptyRepresents(capacity, hash);
    }

    /**
     * map_init: a requested capacity of 0 becomes 16; -1 when the bucket
     * array cannot be allocated, otherwise 0 and an empty map.
     */
    static method Init(initialCapacity: nat, keySize: nat, hash: K -> nat, cmp: (K, K) -> int, allocOk: bool)
      returns (r: int, m: Map?<K>)
      ensures r == (if allocOk then 0 else -1) && (r == 0 <==> m != null)
      ensures r == 0 ==> fresh(m) && m.size == 0 && m.contents == map[]
      ensures r == 0 ==> m.capacity == (if initialCapacity == 0 then INITIAL_CAPACITY else initialCapacity)
      ensures r == 0 ==> m.buckets == EmptyBuckets(m.capacity) && m.keySize == keySize
      ensures r == 0 && DecidesEquality(cmp) ==> m.Valid()
    {
      var cap := if initialCapacity == 0 then INITIAL_CAPACITY else initialCapacity;
      if !allocOk {
        return -1, null;
      }
      m := new Map(cap, keySize, hash, cmp);
      r := 0;
    }

    /**
     * map_resize: -1 with nothing changed when the doubled bucket array
     * cannot be allocated; otherwise every entry is rehashed into twice as
     * many buckets and the stored map is the same.
     */
    method Resize(allocOk: bool) returns (r: int)
      requires Valid()
      modifies this
      ensures Valid() && r == (if allocOk then 0 else -1)
      ensures contents == old(contents) && size == old(size)
      ensures capacity == if r == 0 then 2 * old(capacity) else old(capacity)
      ensures r == -1 ==> buckets == old(buckets)
    {
      if !allocOk {
        return -1;
      }
      buckets := Rehash(buckets, hash, capacity * 2, contents);
      capacity := capacity * 2;
      return 0;
    }

    /**
     * map_insert.  At load 3/4 or more the map first resizes (-1 if that
     * fails).  An existing key gets the new value (-1, value kept, if the
     * realloc fails); a new key is prepended to its bucket and size grows
     * (-1, nothing added, if the entry cannot be allocated).
     */
    method Insert(key: K, value: Bytes, growOk: bool, allocOk: bool) returns (r: int)
      requires Valid()
      modifies this
      ensures Valid()
      ensures var grows := 4 * old(size) >= 3 * old(capacity);
              && (r == 0 <==> (!grows || growOk) && allocOk) && (r == 0 || r == -1)
              && capacity == (if grows && growOk then 2 * old(capacity) else old(capacity))
      ensures contents == if r == 0 then old(contents)[key := value] else old(contents)
      ensures size == old(size) + (if r == 0 && key !in old(contents) then 1 else 0)
      ensures r == 0 && key !in old(contents) ==> buckets[hash(key) % capacity][0] == Entry(key, value)
    {
      if 4 * size >= 3 * capacity {
        var grown := Resize(growOk);
        if grown != 0 {
          return -1;
        }
      }
      if !allocOk {
        return -1;
      }
      var added;
      buckets, added := HashTable.Put(buckets, hash, cmp, contents, key, value);
      contents := contents[key := value];
      if added {
        size := size + 1;
      }
      return 0;
    }

    /** map_get: the value stored under a key comparing equal, or None (NULL). */
    method Get(key: K) returns (r: Option<Bytes>)
      requires Valid()
      ensures r == At(contents, key)
    {
      var chain := buckets[hash(key) % capacity];
      var j := ChainFind(cmp, chain, key);
      if j < |chain| {
        return Some(chain[j].value);
      }
      return None;
    }

    /** map_contains: whether map_get finds a value, i.e. whether the key is stored. */
    method Contains(key: K) returns (b: bool)
      requires Valid()
      ensures b <==> key in contents
    {
      var v := Get(key);
      return v.Some?;
    }

    /**
     * map_erase: 0 when an entry compares equal to the key, which is
     * unlinked and size shrinks by one; -1 and no change otherwise.
     */
    method Erase(key: K) returns (r: int)
      requires Valid()
      modifies this
      ensures Valid()
      ensures r == (if key in old(contents) then 0 else -1)
      ensures contents == old(contents) - {key}
      ensures size == old(size) - (if r == 0 then 1 else 0)
      ensures capacity == old(capacity)
      ensures r == -1 ==> buckets == old(buckets)
    {
      var found;
      buckets, found := HashTable.Take(buckets, hash, cmp, contents, key);
      contents := contents - {key};
      if found {
        size := size - 1;
        return 0;
      }
      return -1;
    }

    /** map_size. */
    function Size(): (n: nat)
      reads this
      requires Valid()
      ensures n == |contents|
    {
      size
    }

    /** map_empty. */
    function Empty(): (b: bool)
      reads this
      requires Valid()
      ensures b <==> contents == map[]
    {
      size == 0
    }

    /** map_clear: every chain is freed and every bucket set to NULL; the capacity stays. */
    method Clear()
      requires capacity == |buckets|
      modifies this
      ensures buckets == EmptyBuckets(old(capacity)) && capacity == old(capacity)
      ensures size == 0 && contents == map[]
      ensures DecidesEquality(cmp) && capacity > 0 ==> Valid()
    {
      var i := 0;
      while i < capacity
        invariant i <= |buckets| == capacity == old(capacity)
        invariant forall b :: 0 <= b < i ==> buckets[b] == []
      {
        buckets := buckets[i := []];
        i := i + 1;
      }
      assert buckets == EmptyBuckets(capacity);
      size := 0;
      contents := map[];
      if capacity > 0 {
        EmptyRepresents(capacity, hash);
      }
    }

    /** map_destroy: clear, then release the bucket array: no buckets, capacity 0. */
    method Destroy()
      requires capacity == |buckets|
      modifies this
      ensures buckets == [] && capacity == 0 && size == 0 && contents == map[]
    {
      Clear();
      buckets := [];
      capacity := 0;
    }
  }

  /**
   * The djb2 value of map_hash_string for the characters s: 5381, then
   * h := h * 33 + c for each character read as a signed char, in size_t
   * arithmetic (modulo 2^64).
   */
  function Djb2(s: Bytes): uint64
    decreases |s|
  {
    if s == [] then 5381
    else (Djb2(s[..|s| - 1]) * 33 + SignedChar(s[|s| - 1])) % 0x1_0000_0000_0000_0000
  }

  /** map_hash_string: the djb2 loop over the bytes before the terminating NUL. */
  method HashString(key: Bytes) returns (h: uint64)
    requires Terminated(key)
    ensures h == Djb2(Chars(key))
  {
    h := 5381;
    var i := 0;
    while key[i] != 0
      invariant i <= CStrLen(key)
      invariant h == Djb2(key[..i])
      decreases CStrLen(key) - i
    {
      assert key[..i + 1][..i] == key[..i];
      h := (h * 33 + SignedChar(key[i])) % 0x1_0000_0000_0000_0000;
      i := i + 1;
    }
  }

  /**
   * map_hash_int: the int key converted to size_t, so a negative key
   * wraps to 2^64 + key.  Distinct keys get distinct hashes.
   */
  function HashInt(x: int32): (h: uint64)
    ensures h % 0x1_0000_0000 == x % 0x1_0000_0000
  {
    if x >= 0 then x else x + 0x1_0000_0000_0000_0000
  }

  lemma HashIntInjective(a: int32, b: int32)
    ensures HashInt(a) == HashInt(b) <==> a == b
  {
  }

  /**
   * map_compare_int is compare_int: the wrapped difference.  The map uses
   * its comparator only to test for 0, and for that it is exact.
   */
  lemma CompareIntDecidesEquality()
    ensures DecidesEquality((a: int32, b: int32) => Compare.CompareInt(a, b) as int)
  {
  }
}
