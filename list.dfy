/**
 * The doubly linked list of list.c.  The chain of nodes from head to tail
 * is modelled as the sequence of their data buffers; a pointer to a node
 * during a walk is modelled as the suffix of the chain that starts at it
 * (following next drops the first element).  size is kept as its own
 * field, as in the struct.
 */
module LinkedList {
  import opened Common

  class List {
    var nodes: seq<Bytes>
    var size: nat

    /** size counts the nodes of the chain. */
    ghost predicate Valid()
      reads this
    {
      size == |nodes|
    }

    /** list_init: no nodes (head and tail NULL), size 0. */
    constructor ()
      ensures Valid() && nodes == []
    {
      nodes := [];
      size := 0;
    }

    /** list_push_back: -1 and no change when a node cannot be allocated; otherwise the element becomes the tail. */
    method PushBack(element: Bytes, allocOk: bool) returns (r: int)
      requires Valid()
      modifies this
      ensures Valid() && r == (if allocOk then 0 else -1)
      ensures nodes == if r == 0 then old(nodes) + [element] else old(nodes)
    {
      if !allocOk {
        return -1;
      }
      nodes := nodes + [element];
      size := size + 1;
      return 0;
    }

    /** list_push_front: -1 and no change when a node cannot be allocated; otherwise the element becomes the head. */
    method PushFront(element: Bytes, allocOk: bool) returns (r: int)
      requires Valid()
      modifies this
      ensures Valid() && r == (if allocOk then 0 else -1)
      ensures nodes == if r == 0 then [element] + old(nodes) else old(nodes)
    {
      if !allocOk {
        return -1;
      }
      nodes := [element] + nodes;
      size := size + 1;
      return 0;
    }

    /** list_pop_back: -1 on an empty list (tail NULL); otherwise the tail node is unlinked. */
    method PopBack() returns (r: int)
      requires Valid()
      modifies this
      ensures Valid() && r == (if old(nodes) == [] then -1 else 0)
      ensures nodes == if r == 0 then old(nodes)[..|old(nodes)| - 1] else old(nodes)
    {
      if nodes == [] {
        return -1;
      }
      nodes := nodes[..|nodes| - 1];
      size := size - 1;
      return 0;
    }

    /** list_pop_front: -1 on an empty list (head NULL); otherwise the head node is unlinked. */
    method PopFront() returns (r: int)
      requires Valid()
      modifies this
      ensures Valid() && r == (if old(nodes) == [] then -1 else 0)
      ensures nodes == if r == 0 then old(nodes)[1..] else old(nodes)
    {
      if nodes == [] {
        return -1;
      }
      nodes := nodes[1..];
      size := size - 1;
      return 0;
    }

    /**
     * The walk shared by get, insert and erase: start at head and follow
     * next index times.  The chain from the node reached on is the rest of
     * the list, and that node holds element index.
     */
    method Walk(index: nat) returns (current: seq<Bytes>)
      requires Valid() && index < size
      ensures current == nodes[index..] && current != [] && current[0] == nodes[index]
    {
      current := nodes;
      for i := 0 to index
        invariant current == nodes[i..]
      {
        current := current[1..];
      }
    }

    /** list_get: None (NULL) when index >= size, otherwise the data of the index-th node. */
    method Get(index: nat) returns (r: Option<Bytes>)
      requires Valid()
      ensures index >= |nodes| ==> r == None
      ensures index < |nodes| ==> r == Some(nodes[index])
    {
      if index >= size {
        return None;
      }
      var current := Walk(index);
      return Some(current[0]);
    }

    /**
     * list_insert: -1 when index > size; index 0 and index size go through
     * push_front and push_back; otherwise a node is linked in before the
     * index-th one.  A failed allocation gives -1 and no change.
     */
    method Insert(index: nat, element: Bytes, allocOk: bool) returns (r: int)
      requires Valid()
      modifies this
      ensures Valid() && r == (if index <= old(size) && allocOk then 0 else -1)
      ensures nodes == if r == 0 then old(nodes)[..index] + [element] + old(nodes)[index..] else old(nodes)
    {
      if index > size {
        return -1;
      }
      if index == 0 {
        r := PushFront(element, allocOk);
        return;
      }
      if index == size {
        r := PushBack(element, allocOk);
        assert old(nodes)[..index] == old(nodes);
        return;
      }
      if !allocOk {
        return -1;
      }
      var current := Walk(index);
      nodes := nodes[..index] + [element] + current;
      size := size + 1;
      return 0;
    }

    /**
     * list_erase: -1 when index >= size; the first and the last node go
     * through pop_front and pop_back; otherwise the index-th node is
     * unlinked between its neighbours.
     */
    method Erase(index: nat) returns (r: int)
      requires Valid()
      modifies this
      ensures Valid() && r == (if index < old(size) then 0 else -1)
      ensures nodes == if r == 0 then old(nodes)[..index] + old(nodes)[index + 1..] else old(nodes)
    {
      if index >= size {
        return -1;
      }
      if index == 0 {
        r := PopFront();
        assert old(nodes)[..0] + old(nodes)[1..] == old(nodes)[1..];
        return;
      }
      if index == size - 1 {
        r := PopBack();
        assert old(nodes)[index + 1..] == [];
        return;
      }
      var current := Walk(index);
      nodes := nodes[..index] + current[1..];
      size := size - 1;
      return 0;
    }

    /** list_front: None (NULL) on an empty list, otherwise the head's data. */
    method Front() returns (r: Option<Bytes>)
      requires Valid()
      ensures r == if nodes == [] then None else Some(nodes[0])
    {
      if nodes == [] {
        return None;
      }
      return Some(nodes[0]);
    }

    /** list_back: None (NULL) on an empty list, otherwise the tail's data. */
    method Back() returns (r: Option<Bytes>)
      requires Valid()
      ensures r == if nodes == [] then None else Some(nodes[|nodes| - 1])
    {
      if nodes == [] {
        return None;
      }
      return Some(nodes[|nodes| - 1]);
    }

    /** list_empty. */
    function Empty(): (b: bool)
      reads this
      requires Valid()
      ensures b <==> nodes == []
    {
      size == 0
    }

    /** list_size. */
    function Size(): (n: nat)
      reads this
      requires Valid()
      ensures n == |nodes|
    {
      size
    }

    /** list_clear: pop_front until the list is empty. */
    method Clear()
      requires Valid()
      modifies this
      ensures Valid() && nodes == []
    {
      while size != 0
        invariant Valid()
        decreases size
      {
        var _ := PopFront();
      }
    }

    /** list_destroy: clear, then set head, tail and size once more. */
    method Destroy()
      requires Valid()
      modifies this
      ensures Valid() && nodes == []
    {
      Clear();
      size := 0;
    }
  }

  /** Erasing the index that a middle insert filled gives back the list. */
  lemma InsertThenErase(s: seq<Bytes>, index: nat, element: Bytes)
    requires index <= |s|
    ensures var t := s[..index] + [element] + s[index..];
            t[index] == element && t[..index] + t[index + 1..] == s
  {
    var t := s[..index] + [element] + s[index..];
    assert t[..index] == s[..index];
    assert t[index + 1..] == s[index..];
  }
}
