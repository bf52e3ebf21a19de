/**
 * The Vector of vector.c: an array of element slots (data), the number of
 * slots in use (size) and the number the struct records as allocated
 * (capacity).  A slot holds the element's own heap copy, modelled as its
 * bytes.  The class uses the corrected resize and insert (see
 * ResizeAsWritten and InsertAsWritten for the code as written).
 */
module Vectors {
  import opened Common

  const INITIAL_CAPACITY: nat := 1

  class Vector {
    var data: array<Bytes>
    var size: nat
    var capacity: nat

    /** The slots in use lie inside the array, whose length is the recorded capacity. */
    ghost predicate Valid()
      reads this
    {
      size <= capacity == data.Length
    }

    /** The elements in slots 0 .. size-1. */
    ghost function Contents(): seq<Bytes>
      reads this, data
      requires Valid()
    {
      data[..size]
    }

    constructor (capacity: nat)
      ensures Valid() && size == 0 && this.capacity == capacity && fresh(data)
    {
      data := new Bytes[capacity];
      size := 0;
      this.capacity := capacity;
    }

    /**
     * vector_init: a requested capacity of 0 or less becomes 1; -1 when the
     * slot array cannot be allocated, otherwise 0 and an empty vector.
     */
    static method Init(initialCapacity: int, allocOk: bool) returns (r: int, v: Vector?)
      ensures r == (if allocOk then 0 else -1) && (r == 0 <==> v != null)
      ensures r == 0 ==> fresh(v) && fresh(v.data) && v.Valid() && v.size == 0
      ensures r == 0 ==> v.capacity == if initialCapacity <= 0 then INITIAL_CAPACITY else initialCapacity
    {
      var cap: nat := if initialCapacity <= 0 then INITIAL_CAPACITY else initialCapacity;
      if !allocOk {
        return -1, null;
      }
      v := new Vector(cap);
      r := 0;
    }

    /**
     * vector_resize, corrected: the new capacity is 1 for an empty slot
     * array and double otherwise; it is recorded only once the larger array
     * exists (-1 and no change when it cannot be allocated).  The realloc
     * keeps every element.
     */
    method Resize(allocOk: bool) returns (r: int)
      requires Valid()
      modifies this
      ensures Valid() && r == (if allocOk then 0 else -1) && size == old(size)
      ensures capacity == if r == -1 then old(capacity) else if old(capacity) == 0 then INITIAL_CAPACITY else 2 * old(capacity)
      ensures r == 0 ==> fresh(data)
      ensures r == -1 ==> data == old(data)
      ensures data[..size] == old(data[..size])
    {
      var newCapacity := if capacity == 0 then INITIAL_CAPACITY else 2 * capacity;
      if !allocOk {
        return -1;
      }
      var a := new Bytes[newCapacity];
      forall k | 0 <= k < data.Length {
        a[k] := data[k];
      }
      data := a;
      capacity := newCapacity;
      return 0;
    }

    /**
     * vector_resize as written: the capacity field is doubled before the
     * realloc, so when the realloc fails the vector records a capacity its
     * array does not have.  Starting full, it is then no longer full by its
     * own count although every slot of the array is in use.
     */
    method ResizeAsWritten(allocOk: bool) returns (r: int)
      requires Valid()
      modifies this
      ensures r == (if allocOk then 0 else -1) && size == old(size)
      ensures capacity == if old(capacity) == 0 then INITIAL_CAPACITY else 2 * old(capacity)
      ensures r == 0 ==> Valid() && fresh(data) && data[..size] == old(data[..size])
      ensures r == -1 ==> data == old(data) && capacity > data.Length
      ensures r == -1 && old(size) == old(capacity) ==> size < capacity && size == data.Length
    {
      if capacity == 0 {
        capacity := INITIAL_CAPACITY;
      } else {
        capacity := capacity * 2;
      }
      if !allocOk {
        return -1;
      }
      var a := new Bytes[capacity];
      forall k | 0 <= k < data.Length {
        a[k] := data[k];
      }
      data := a;
      return 0;
    }

    /**
     * vector_push_back: when full, resize first (-1 if that fails); -1 when
     * the element copy cannot be allocated; otherwise the element is
     * appended.
     */
    method PushBack(element: Bytes, growOk: bool, allocOk: bool) returns (r: int)
      requires Valid()
      modifies this, data
      ensures Valid()
      ensures r == (if (old(size) < old(capacity) || growOk) && allocOk then 0 else -1)
      ensures Contents() == if r == 0 then old(Contents()) + [element] else old(Contents())
      ensures capacity == if old(size) < old(capacity) || !growOk then old(capacity)
                          else if old(capacity) == 0 then INITIAL_CAPACITY else 2 * old(capacity)
    {
      if size >= capacity {
        var grown := Resize(growOk);
        if grown != 0 {
          return -1;
        }
      }
      if !allocOk {
        return -1;
      }
      data[size] := element;
      size := size + 1;
      return 0;
    }

    /**
     * vector_insert, corrected: -1 for an index outside 0..size; when full,
     * resize first (-1 if that fails); the element copy is allocated before
     * anything moves (-1 and no change if that fails); then slots
     * index .. size-1 shift right by one and the element fills slot index.
     */
    method Insert(index: int, element: Bytes, growOk: bool, allocOk: bool) returns (r: int)
      requires Valid()
      modifies this, data
      ensures Valid()
      ensures r == (if 0 <= index <= old(size) && (old(size) < old(capacity) || growOk) && allocOk then 0 else -1)
      ensures Contents() == if r == 0 then old(Contents())[..index] + [element] + old(Contents())[index..]
                            else old(Contents())
      ensures capacity == if index < 0 || index > old(size) || old(size) < old(capacity) || !growOk then old(capacity)
                          else if old(capacity) == 0 then INITIAL_CAPACITY else 2 * old(capacity)
    {
      if index < 0 || index > size {
        return -1;
      }
      if size >= capacity {
        var grown := Resize(growOk);
        if grown != 0 {
          return -1;
        }
      }
      if !allocOk {
        return -1;
      }
      ShiftRight(data, size, index);
      data[index] := element;
      size := size + 1;
      return 0;
    }

    /**
     * vector_erase: -1 for an index outside 0..size-1; otherwise slots
     * index+1 .. size-1 shift left by one and size shrinks.
     */
    method Erase(index: int) returns (r: int)
      requires Valid()
      modifies this, data
      ensures Valid() && capacity == old(capacity)
      ensures r == (if 0 <= index < old(size) then 0 else -1)
      ensures Contents() == if r == 0 then old(Contents())[..index] + old(Contents())[index + 1..] else old(Contents())
    {
      if index < 0 || index >= size {
        return -1;
      }
      ShiftLeft(data, size, index);
      size := size - 1;
      return 0;
    }

    /** vector_clear: size 0, the slot array and capacity kept. */
    method Clear() returns (r: int)
      requires Valid()
      modifies this
      ensures Valid() && r == 0 && size == 0 && capacity == old(capacity) && data == old(data)
    {
      size := 0;
      return 0;
    }

    /** vector_empty. */
    function Empty(): (b: bool)
      reads this, data
      requires Valid()
      ensures b <==> Contents() == []
    {
      size == 0
    }

    /** vector_get: None (NULL) for an index outside 0..size-1, otherwise slot index. */
    method Get(index: int) returns (e: Option<Bytes>)
      requires Valid()
      ensures e == if 0 <= index < |Contents()| then Some(Contents()[index]) else None
    {
      if index < 0 || index >= size {
        return None;
      }
      return Some(data[index]);
    }

    /** vector_front: None (NULL) when empty, otherwise the first element. */
    method Front() returns (e: Option<Bytes>)
      requires Valid()
      ensures e == if Contents() == [] then None else Some(Contents()[0])
    {
      if size == 0 {
        return None;
      }
      e := Get(0);
    }

    /** vector_back: None (NULL) when empty, otherwise the last element. */
    method Back() returns (e: Option<Bytes>)
      requires Valid()
      ensures e == if Contents() == [] then None else Some(Contents()[|Contents()| - 1])
    {
      if size == 0 {
        return None;
      }
      e := Get(size - 1);
    }

    /** vector_size. */
    function Size(): (n: nat)
      reads this, data
      requires Valid()
      ensures n == |Contents()|
    {
      size
    }

    /** vector_capacity: the recorded capacity, never below the size. */
    function Capacity(): (n: nat)
      reads this
      requires Valid()
      ensures n == data.Length && n >= size
    {
      capacity
    }

    /** vector_destroy: the slot array is released (data NULL, an empty array here); size and capacity 0. */
    method Destroy()
      requires Valid()
      modifies this
      ensures Valid() && size == 0 && capacity == 0
    {
      data := new Bytes[0];
      capacity := 0;
      size := 0;
    }
  }

  /** The shift loop of vector_insert: slots index .. size-1 move one slot right, from the top down. */
  method ShiftRight(a: array<Bytes>, size: nat, index: nat)
    requires index <= size < a.Length
    modifies a
    ensures a[..index] == old(a[..index]) && a[index] == old(a[index])
    ensures a[index + 1..size + 1] == old(a[index..size])
    ensures a[size + 1..] == old(a[size + 1..])
  {
    var i := size;
    while i > index
      invariant index <= i <= size
      invariant forall k :: 0 <= k <= i ==> a[k] == old(a[k])
      invariant forall k :: i < k <= size ==> a[k] == old(a[k - 1])
      invariant forall k :: size < k < a.Length ==> a[k] == old(a[k])
    {
      a[i] := a[i - 1];
      i := i - 1;
    }
  }

  /** The shift loop of vector_erase: slots index+1 .. size-1 move one slot left, from the bottom up. */
  method ShiftLeft(a: array<Bytes>, size: nat, index: nat)
    requires index < size <= a.Length
    modifies a
    ensures a[..index] == old(a[..index])
    ensures a[index..size - 1] == old(a[index + 1..size])
    ensures a[size - 1..] == old(a[size - 1..])
  {
    var i := index;
    while i < size - 1
      invariant index <= i <= size - 1
      invariant forall k :: 0 <= k < index ==> a[k] == old(a[k])
      invariant forall k :: index <= k < i ==> a[k] == old(a[k + 1])
      invariant forall k :: i <= k < a.Length ==> a[k] == old(a[k])
    {
      a[i] := a[i + 1];
      i := i + 1;
    }
  }

  /**
   * What the slots in use hold after an insert at index whose element
   * allocation failed: the shift has run, slot index still holds its old
   * element, and size is unchanged.
   */
  function ShiftedOnly(s: seq<Bytes>, index: nat): (r: seq<Bytes>)
    requires index <= |s|
    ensures |r| == |s|
  {
    if index == |s| then s else s[..index] + [s[index]] + s[index..|s| - 1]
  }

  /**
   * vector_insert as written: the slots are shifted before the element
   * copy is allocated, and a failed allocation returns -1 without undoing
   * the shift.
   */
  method InsertAsWritten(a: array<Bytes>, size: nat, index: nat, element: Bytes, allocOk: bool) returns (r: int, newSize: nat)
    requires index <= size < a.Length
    modifies a
    ensures r == (if allocOk then 0 else -1)
    ensures r == 0 ==> newSize == size + 1 && a[..newSize] == old(a[..index]) + [element] + old(a[index..size])
    ensures r == -1 ==> newSize == size && a[..size] == ShiftedOnly(old(a[..size]), index)
  {
    ShiftRight(a, size, index);
    if !allocOk {
      if index < size {
        assert a[..size] == a[..index] + [a[index]] + a[index + 1..size];
        assert a[index + 1..size] == old(a[..size])[index..size - 1];
      }
      return -1, size;
    }
    a[index] := element;
    return 0, size + 1;
  }

  /**
   * After a failed insert as written, the element at index appears twice
   * and the last element is gone: [x, y] with an insert at 0 becomes
   * [x, x].
   */
  lemma ShiftedOnlyLoses(x: Bytes, y: Bytes)
    requires x != y
    ensures ShiftedOnly([x, y], 0) == [x, x] && y !in ShiftedOnly([x, y], 0)
  {
    assert [x, y][..0] + [x] + [x, y][0..1] == [x, x];
  }
}
