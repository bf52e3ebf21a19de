/**
 * The allocation tracker of garbage.c.  The context keeps a doubly linked
 * chain of MemoryBlock records, oldest at the head, and three size_t
 * counters.  The chain from head to tail is modelled as the sequence of its
 * blocks; a pointer into the chain during a walk is the index of the block
 * it points at.  A void* is a natural number with NULL as 0.  Results of
 * malloc, calloc, realloc and time are parameters of the operations that
 * call them; whether malloc could allocate a tracking record is the
 * parameter trackOk.
 */
module Garbage {
  import opened Common

  /** A void* value; 0 is NULL. */
  type Ptr = nat

  const NULL: Ptr := 0

  /** size_t arithmetic is modulo 2^64. */
  const SIZE_MOD: int := 0x1_0000_0000_0000_0000

  /** A MemoryBlock record without its links. */
  datatype Block = Block(ptr: Ptr, size: uint64, allocationTime: int)

  /** The sum of the sizes of the blocks. */
  function SumSizes(s: seq<Block>): nat
  {
    if s == [] then 0 else SumSizes(s[..|s| - 1]) + s[|s| - 1].size
  }

  /** The pointers of the blocks, head first: what garbage_cleanup passes to free. */
  function Ptrs(s: seq<Block>): (r: seq<Ptr>)
    ensures |r| == |s| && forall j :: 0 <= j < |s| ==> r[j] == s[j].ptr
  {
    if s == [] then [] else [s[0].ptr] + Ptrs(s[1..])
  }

  /** The index of the first block whose pointer is p, as garbage_find_block walks from the head. */
  function FirstIndex(s: seq<Block>, p: Ptr): (r: Option<nat>)
    ensures r.Some? ==> r.value < |s| && s[r.value].ptr == p && forall j :: 0 <= j < r.value ==> s[j].ptr != p
    ensures r.None? ==> forall j :: 0 <= j < |s| ==> s[j].ptr != p
  {
    if s == [] then None
    else if s[0].ptr == p then Some(0)
    else match FirstIndex(s[1..], p)
      case None => None
      case Some(k) => Some(k + 1)
  }

  /** A block whose pointer was freed is marked with NULL. */
  function Scrub(b: Block, p: Ptr): Block
  {
    if b.ptr == p then b.(ptr := NULL) else b
  }

  /** The cleansing walk of garbage_remove_block over the whole chain. */
  function Cleansed(s: seq<Block>, p: Ptr): (r: seq<Block>)
    ensures |r| == |s| && forall j :: 0 <= j < |s| ==> r[j] == Scrub(s[j], p)
  {
    if s == [] then [] else [Scrub(s[0], p)] + Cleansed(s[1..], p)
  }

  /**
   * The chain after garbage_remove_block(ctx, p): unchanged when no block
   * tracks p; otherwise the first such block is unlinked and every other
   * block tracking p is marked NULL.
   */
  function Removed(s: seq<Block>, p: Ptr): (r: seq<Block>)
    ensures |r| == |s| - (if FirstIndex(s, p).Some? then 1 else 0)
  {
    match FirstIndex(s, p)
      case None => s
      case Some(k) => Cleansed(s[..k] + s[k + 1..], p)
  }

  /** The number of blocks garbage_remove_block(ctx, p) unlinks: one when p is tracked, none otherwise. */
  function Freed(s: seq<Block>, p: Ptr): nat
  {
    if FirstIndex(s, p).Some? then 1 else 0
  }

  /** The size garbage_remove_block(ctx, p) subtracts: that of the first block tracking p. */
  function FreedSize(s: seq<Block>, p: Ptr): nat
  {
    match FirstIndex(s, p)
      case None => 0
      case Some(k) => s[k].size
  }

  /** The chain after garbage_add_block when a pointer is tracked: the new block at the tail. */
  function Added(s: seq<Block>, ptr: Ptr, size: uint64, now: int, track: bool): seq<Block>
  {
    if ptr != NULL && track then s + [Block(ptr, size, now)] else s
  }

  /** currentAllocatedSize after add_block of a block of the given size, when one was tracked. */
  function SizeAfterAdd(cur: int, size: uint64, tracked: bool): int
  {
    if tracked then (cur + size) % SIZE_MOD else cur
  }

  /** Marking pointers NULL does not change any size. */
  lemma {:induction false} SumCleansed(s: seq<Block>, p: Ptr)
    ensures SumSizes(Cleansed(s, p)) == SumSizes(s)
    decreases |s|
  {
    if s != [] {
      var c := Cleansed(s, p);
      assert c[..|c| - 1] == Cleansed(s[..|s| - 1], p);
      SumCleansed(s[..|s| - 1], p);
    }
  }

  /** Unlinking block k takes exactly its size off the sum. */
  lemma {:induction false} SumWithout(s: seq<Block>, k: nat)
    requires k < |s|
    ensures SumSizes(s[..k] + s[k + 1..]) + s[k].size == SumSizes(s)
    decreases |s|
  {
    if k < |s| - 1 {
      var t := s[..|s| - 1];
      assert (s[..k] + s[k + 1..])[..|s| - 2] == t[..k] + t[k + 1..];
      assert (s[..k] + s[k + 1..])[|s| - 2] == s[|s| - 1];
      SumWithout(t, k);
    } else {
      assert s[..k] + s[k + 1..] == s[..|s| - 1];
    }
  }

  lemma SumAppend(s: seq<Block>, b: Block)
    ensures SumSizes(s + [b]) == SumSizes(s) + b.size
  {
    assert (s + [b])[..|s|] == s;
  }

  /** Adding to a size_t sum commutes with reducing it modulo 2^64. */
  lemma ModAdd(a: int, x: int)
    ensures (a % SIZE_MOD + x) % SIZE_MOD == (a + x) % SIZE_MOD
  {
    var q := a / SIZE_MOD;
    assert a == q * SIZE_MOD + a % SIZE_MOD;
    ModShift(a % SIZE_MOD + x, q);
  }

  lemma ModShift(y: int, q: int)
    ensures (y + q * SIZE_MOD) % SIZE_MOD == y % SIZE_MOD
  {
    var r := y % SIZE_MOD;
    assert y == (y / SIZE_MOD) * SIZE_MOD + r;
    assert y + q * SIZE_MOD == (y / SIZE_MOD + q) * SIZE_MOD + r;
  }

  /**
   * Freeing a non-NULL pointer twice: the second garbage_remove_block finds
   * no block and leaves the chain as the first one left it.
   */
  lemma FreeTwice(s: seq<Block>, p: Ptr)
    requires p != NULL
    ensures FirstIndex(Removed(s, p), p).None?
    ensures Removed(Removed(s, p), p) == Removed(s, p)
  {
    if FirstIndex(s, p).Some? {
      var k := FirstIndex(s, p).value;
      var u := s[..k] + s[k + 1..];
      assert forall j :: 0 <= j < |u| ==> Cleansed(u, p)[j].ptr != p;
    }
  }

  /** A tracked pointer is tracked once fewer after garbage_remove_block: its first block leaves the chain. */
  lemma RemovedSum(s: seq<Block>, p: Ptr)
    requires FirstIndex(s, p).Some?
    ensures SumSizes(Removed(s, p)) + s[FirstIndex(s, p).value].size == SumSizes(s)
  {
    var k := FirstIndex(s, p).value;
    SumCleansed(s[..k] + s[k + 1..], p);
    SumWithout(s, k);
  }

  /** The size_t counter after unlinking block k and cleansing its pointer still holds the sum of the sizes left. */
  lemma RemovedSize(s: seq<Block>, k: nat, cur: int)
    requires k < |s| && cur == SumSizes(s) % SIZE_MOD
    ensures (cur - s[k].size) % SIZE_MOD == SumSizes(Cleansed(s[..k] + s[k + 1..], s[k].ptr)) % SIZE_MOD
  {
    SumCleansed(s[..k] + s[k + 1..], s[k].ptr);
    SumWithout(s, k);
    ModSub(SumSizes(s), s[k].size, SumSizes(Cleansed(s[..k] + s[k + 1..], s[k].ptr)));
  }

  /** Subtracting from a size_t sum commutes with reducing it modulo 2^64. */
  lemma ModSub(a: int, x: int, b: int)
    requires b + x == a
    ensures (a % SIZE_MOD - x) % SIZE_MOD == b % SIZE_MOD
  {
    ModAdd(a, -x);
  }

  /** The counters agree with the chain: the size is the size_t sum of the sizes, and allocations minus frees is the length. */
  ghost predicate Consistent(s: seq<Block>, cur: int, allocs: nat, frees: nat)
  {
    && cur == SumSizes(s) % SIZE_MOD
    && allocs == frees + |s|
  }

  /**
   * What garbage_remove_block does once its walk found the first block k
   * tracking p: the chain t left after unlinking k and cleansing its
   * pointer is Removed(s, p), with one block and its size freed.
   */
  lemma RemovedAt(s: seq<Block>, p: Ptr, k: nat, t: seq<Block>)
    requires FirstIndex(s, p) == Some(k)
    requires t == Cleansed(s[..k] + s[k + 1..], s[k].ptr)
    ensures t == Removed(s, p)
    ensures Freed(s, p) == 1 && FreedSize(s, p) == s[k].size
  {
  }

  /** The counters still agree with the chain after unlinking block k and cleansing its pointer. */
  lemma ConsistentAfter(s: seq<Block>, k: nat, cur: int, allocs: nat, frees: nat, t: seq<Block>, cur2: int, frees2: nat)
    requires k < |s| && Consistent(s, cur, allocs, frees)
    requires t == Cleansed(s[..k] + s[k + 1..], s[k].ptr)
    requires cur2 == (cur - s[k].size) % SIZE_MOD && frees2 == frees + 1
    ensures Consistent(t, cur2, allocs, frees2)
  {
    RemovedSize(s, k, cur);
  }

  /** The head block left the chain s, giving chain t: one more free and its size subtracted. */
  ghost predicate HeadRemoved(s: seq<Block>, t: seq<Block>, frees: nat, frees2: nat, cur: int, cur2: int)
    requires s != []
  {
    && t == Cleansed(s[1..], s[0].ptr)
    && frees2 == frees + 1
    && cur2 == (cur - s[0].size) % SIZE_MOD
  }

  /**
   * garbage_free_oldest_block removes the head: garbage_remove_block on the
   * head's pointer finds the head itself, the first block carrying it.
   */
  lemma RemovedHead(s: seq<Block>, t: seq<Block>, frees: nat, frees2: nat, cur: int, cur2: int)
    requires s != [] && t == Removed(s, s[0].ptr)
    requires frees2 == frees + Freed(s, s[0].ptr) && cur2 == (cur - FreedSize(s, s[0].ptr)) % SIZE_MOD
    ensures HeadRemoved(s, t, frees, frees2, cur, cur2)
  {
    assert s[..0] + s[1..] == s[1..];
  }

  class GarbageContext {
    var totalAllocations: nat
    var totalFrees: nat
    var currentAllocatedSize: uint64
    var blocks: seq<Block>
    var verbose: bool

    /** The counters agree with the chain: the size is the size_t sum of the sizes, and allocations minus frees is the length. */
    ghost predicate Valid()
      reads this
    {
      Consistent(blocks, currentAllocatedSize, totalAllocations, totalFrees)
    }

    /** garbage_init and initialize_context: zero counters and an empty chain. */
    method Init(verboseMode: bool)
      modifies this
      ensures Valid() && blocks == [] && verbose == verboseMode
      ensures totalAllocations == 0 && totalFrees == 0 && currentAllocatedSize == 0
    {
      totalAllocations := 0;
      totalFrees := 0;
      currentAllocatedSize := 0;
      blocks := [];
      verbose := verboseMode;
    }

    /**
     * garbage_cleanup: every tracked pointer is freed, head first, then the
     * context is initialised again.  freed lists the pointers passed to free.
     */
    method Cleanup() returns (freed: seq<Ptr>)
      modifies this
      ensures freed == Ptrs(old(blocks))
      ensures Valid() && blocks == [] && verbose == old(verbose)
      ensures totalAllocations == 0 && totalFrees == 0 && currentAllocatedSize == 0
    {
      var current := blocks;
      freed := [];
      while current != []
        invariant blocks == old(blocks) && verbose == old(verbose)
        invariant Ptrs(blocks) == freed + Ptrs(current)
        decreases |current|
      {
        var next := current[1..];
        PtrsCons(freed, current);
        freed := freed + [current[0].ptr];
        current := next;
      }
      totalAllocations := 0;
      totalFrees := 0;
      currentAllocatedSize := 0;
      blocks := [];
    }

    /**
     * garbage_add_block: when the tracking record can be allocated, a block
     * for ptr becomes the tail, the size is added and total_allocations
     * counted; otherwise nothing changes.
     */
    method AddBlock(ptr: Ptr, size: uint64, now: int, trackOk: bool)
      requires Valid()
      modifies this
      ensures Valid() && verbose == old(verbose) && totalFrees == old(totalFrees)
      ensures blocks == if trackOk then old(blocks) + [Block(ptr, size, now)] else old(blocks)
      ensures totalAllocations == old(totalAllocations) + (if trackOk then 1 else 0)
      ensures currentAllocatedSize == if trackOk then (old(currentAllocatedSize) + size) % SIZE_MOD else old(currentAllocatedSize)
    {
      if !trackOk {
        return;
      }
      SumAppend(blocks, Block(ptr, size, now));
      ModAdd(SumSizes(blocks), size);
      blocks := blocks + [Block(ptr, size, now)];
      currentAllocatedSize := (currentAllocatedSize + size) % SIZE_MOD;
      totalAllocations := totalAllocations + 1;
    }

    /** garbage_find_block: the first block from the head whose pointer is ptr, or none. */
    method FindBlock(ptr: Ptr) returns (r: Option<nat>)
      ensures r.Some? ==> r.value < |blocks| && blocks[r.value].ptr == ptr
      ensures r.Some? ==> forall j :: 0 <= j < r.value ==> blocks[j].ptr != ptr
      ensures r.None? ==> forall j :: 0 <= j < |blocks| ==> blocks[j].ptr != ptr
      ensures r == FirstIndex(blocks, ptr)
    {
      var i := 0;
      while i < |blocks|
        invariant i <= |blocks| && forall j :: 0 <= j < i ==> blocks[j].ptr != ptr
      {
        if blocks[i].ptr == ptr {
          FirstUnique(blocks, ptr, i);
          return Some(i);
        }
        i := i + 1;
      }
      r := None;
    }

    /**
     * garbage_remove_block: nothing changes when no block tracks ptr;
     * otherwise the first block tracking it is unlinked, its size
     * subtracted, total_frees counted and every other block tracking the
     * same pointer marked NULL.  Only the tracking record is freed.
     */
    method RemoveBlock(ptr: Ptr)
      requires Valid()
      modifies this
      ensures Valid() && verbose == old(verbose) && totalAllocations == old(totalAllocations)
      ensures blocks == Removed(old(blocks), ptr)
      ensures totalFrees == old(totalFrees) + Freed(old(blocks), ptr)
      ensures currentAllocatedSize == (old(currentAllocatedSize) - FreedSize(old(blocks), ptr)) % SIZE_MOD
    {
      var found := FindBlock(ptr);
      if found.None? {
        return;
      }
      Unlink(found.value, ptr);
    }

    /**
     * The found branch of garbage_remove_block: block k, the first tracking
     * ptr, leaves the chain; the counters follow, and the chain is cleansed
     * of the freed pointer.
     */
    method Unlink(k: nat, ptr: Ptr)
      requires Valid() && FirstIndex(blocks, ptr) == Some(k)
      modifies this
      ensures Valid() && verbose == old(verbose) && totalAllocations == old(totalAllocations)
      ensures blocks == Removed(old(blocks), ptr)
      ensures totalFrees == old(totalFrees) + Freed(old(blocks), ptr)
      ensures currentAllocatedSize == (old(currentAllocatedSize) - FreedSize(old(blocks), ptr)) % SIZE_MOD
    {
      var size := blocks[k].size;
      var freedPtr := blocks[k].ptr;
      blocks := blocks[..k] + blocks[k + 1..];
      currentAllocatedSize := (currentAllocatedSize - size) % SIZE_MOD;
      totalFrees := totalFrees + 1;
      Cleanse(freedPtr);
      RemovedAt(old(blocks), ptr, k, blocks);
      ConsistentAfter(old(blocks), k, old(currentAllocatedSize), old(totalAllocations), old(totalFrees), blocks, currentAllocatedSize, totalFrees);
    }

    /** The walk at the end of garbage_remove_block: blocks still holding p get NULL. */
    method Cleanse(p: Ptr)
      modifies this
      ensures blocks == Cleansed(old(blocks), p)
      ensures totalAllocations == old(totalAllocations) && totalFrees == old(totalFrees)
      ensures currentAllocatedSize == old(currentAllocatedSize) && verbose == old(verbose)
    {
      var i := 0;
      while i < |blocks|
        invariant i <= |blocks| == |old(blocks)|
        invariant forall j :: 0 <= j < i ==> blocks[j] == Scrub(old(blocks)[j], p)
        invariant forall j :: i <= j < |blocks| ==> blocks[j] == old(blocks)[j]
        invariant totalAllocations == old(totalAllocations) && totalFrees == old(totalFrees)
        invariant currentAllocatedSize == old(currentAllocatedSize) && verbose == old(verbose)
      {
        if blocks[i].ptr == p {
          blocks := blocks[i := blocks[i].(ptr := NULL)];
        }
        i := i + 1;
      }
    }

    /** garbage_free_oldest_block: no change on an empty chain; otherwise the head block is removed. */
    method FreeOldest()
      requires Valid()
      modifies this
      ensures Valid() && verbose == old(verbose) && totalAllocations == old(totalAllocations)
      ensures old(blocks) == [] ==> blocks == [] && totalFrees == old(totalFrees) && currentAllocatedSize == old(currentAllocatedSize)
      ensures old(blocks) != [] ==> HeadRemoved(old(blocks), blocks, old(totalFrees), totalFrees, old(currentAllocatedSize), currentAllocatedSize)
    {
      if blocks == [] {
        return;
      }
      RemoveBlock(blocks[0].ptr);
      RemovedHead(old(blocks), blocks, old(totalFrees), totalFrees, old(currentAllocatedSize), currentAllocatedSize);
    }

    /** gc_malloc: mallocPtr is what malloc returned; a non-NULL result is tracked. */
    method GcMalloc(size: uint64, mallocPtr: Ptr, now: int, trackOk: bool) returns (r: Ptr)
      requires Valid()
      modifies this
      ensures r == mallocPtr && Valid() && totalFrees == old(totalFrees) && verbose == old(verbose)
      ensures blocks == Added(old(blocks), r, size, now, trackOk)
      ensures totalAllocations == old(totalAllocations) + (if r != NULL && trackOk then 1 else 0)
      ensures currentAllocatedSize == SizeAfterAdd(old(currentAllocatedSize), size, r != NULL && trackOk)
    {
      r := mallocPtr;
      if r != NULL {
        AddBlock(r, size, now, trackOk);
      }
    }

    /** gc_calloc: the tracked size is nmemb * size in size_t arithmetic. */
    method GcCalloc(nmemb: uint64, size: uint64, callocPtr: Ptr, now: int, trackOk: bool) returns (r: Ptr)
      requires Valid()
      modifies this
      ensures r == callocPtr && Valid() && totalFrees == old(totalFrees) && verbose == old(verbose)
      ensures blocks == Added(old(blocks), r, (nmemb * size) % SIZE_MOD, now, trackOk)
      ensures totalAllocations == old(totalAllocations) + (if r != NULL && trackOk then 1 else 0)
      ensures currentAllocatedSize == SizeAfterAdd(old(currentAllocatedSize), (nmemb * size) % SIZE_MOD, r != NULL && trackOk)
    {
      r := callocPtr;
      if r != NULL {
        AddBlock(r, (nmemb * size) % SIZE_MOD, now, trackOk);
      }
    }

    /**
     * gc_realloc: a NULL ptr is gc_malloc; an untracked ptr is reallocated
     * and the result tracked; a tracked ptr is removed first, then the
     * result tracked.  newPtr is what malloc or realloc returned.
     */
    method GcRealloc(ptr: Ptr, size: uint64, newPtr: Ptr, now: int, trackOk: bool) returns (r: Ptr)
      requires Valid()
      modifies this
      ensures r == newPtr && Valid() && verbose == old(verbose)
      ensures ptr == NULL ==> blocks == Added(old(blocks), r, size, now, trackOk)
      ensures ptr != NULL ==> blocks == Added(Removed(old(blocks), ptr), r, size, now, trackOk)
      ensures totalFrees == old(totalFrees) + (if ptr == NULL then 0 else Freed(old(blocks), ptr))
      ensures totalAllocations == old(totalAllocations) + (if r != NULL && trackOk then 1 else 0)
      ensures ptr == NULL ==> currentAllocatedSize == SizeAfterAdd(old(currentAllocatedSize), size, r != NULL && trackOk)
      ensures ptr != NULL ==>
                currentAllocatedSize ==
                SizeAfterAdd((old(currentAllocatedSize) - FreedSize(old(blocks), ptr)) % SIZE_MOD, size, r != NULL && trackOk)
    {
      if ptr == NULL {
        r := GcMalloc(size, newPtr, now, trackOk);
        return;
      }
      var block := FindBlock(ptr);
      if block.None? {
        r := newPtr;
        if r != NULL {
          AddBlock(r, size, now, trackOk);
        }
        return;
      }
      RemoveBlock(ptr);
      r := newPtr;
      if r != NULL {
        AddBlock(r, size, now, trackOk);
      }
    }

    /**
     * gc_strdup: strlen(str) + 1 bytes from gc_malloc, and the string with
     * its NUL copied into them when the allocation succeeded.
     */
    method GcStrdup(str: Bytes, mallocPtr: Ptr, now: int, trackOk: bool) returns (r: Ptr, copy: Option<Bytes>)
      requires Valid() && Terminated(str)
      modifies this
      ensures r == mallocPtr && Valid() && totalFrees == old(totalFrees) && verbose == old(verbose)
      ensures blocks == Added(old(blocks), r, (CStrLen(str) + 1) % SIZE_MOD, now, trackOk)
      ensures totalAllocations == old(totalAllocations) + (if r != NULL && trackOk then 1 else 0)
      ensures currentAllocatedSize == SizeAfterAdd(old(currentAllocatedSize), (CStrLen(str) + 1) % SIZE_MOD, r != NULL && trackOk)
      ensures copy.Some? <==> r != NULL
      ensures copy.Some? ==> copy.value == Chars(str) + [0] && Chars(copy.value) == Chars(str)
    {
      var len := (CStrLen(str) + 1) % SIZE_MOD;
      r := GcMalloc(len, mallocPtr, now, trackOk);
      copy := None;
      if r != NULL {
        copy := Some(str[..CStrLen(str) + 1]);
        NulEnd(str);
      }
    }

    /** gc_free: NULL is ignored; any other pointer goes through garbage_remove_block. */
    method GcFree(ptr: Ptr)
      requires Valid()
      modifies this
      ensures Valid() && totalAllocations == old(totalAllocations)
      ensures blocks == if ptr == NULL then old(blocks) else Removed(old(blocks), ptr)
    {
      if ptr == NULL {
        return;
      }
      RemoveBlock(ptr);
    }
  }

  lemma PtrsCons(freed: seq<Ptr>, current: seq<Block>)
    requires current != []
    ensures freed + Ptrs(current) == (freed + [current[0].ptr]) + Ptrs(current[1..])
  {
  }

  /** A block found by the walk at index i, with none before it, is the first. */
  lemma FirstUnique(s: seq<Block>, p: Ptr, i: nat)
    requires i < |s| && s[i].ptr == p && forall j :: 0 <= j < i ==> s[j].ptr != p
    ensures FirstIndex(s, p) == Some(i)
  {
  }

  /** The bytes of a C string up to and including its NUL. */
  lemma NulEnd(str: Bytes)
    requires Terminated(str)
    ensures str[..CStrLen(str) + 1] == Chars(str) + [0] && Chars(str[..CStrLen(str) + 1]) == Chars(str)
  {
    var c := str[..CStrLen(str) + 1];
    assert c[..CStrLen(str)] == Chars(str);
    assert CStrLen(c) == CStrLen(str) by {
      NulIndex(c, CStrLen(str));
    }
  }

  /** A buffer whose first NUL is at index n has C length n. */
  lemma NulIndex(c: Bytes, n: nat)
    requires n < |c| && c[n] == 0 && forall j :: 0 <= j < n ==> c[j] != 0
    ensures CStrLen(c) == n
  {
  }
}
