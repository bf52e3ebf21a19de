/**
 * The AVL tree object of avl_tree.c: a root pointer, a counter named size,
 * the key size and the caller's comparator.  The node graph is the value
 * type AvlNode.Tree.  The counter is not the number of nodes: insert
 * increments it whenever the root is non-NULL afterwards, including for a
 * key already present and for a leaf whose allocation failed.
 */
module AvlTree {
  import opened Common
  import opened Ordered
  import opened AvlNode

  class AVLTree<K(!new)> {
    var root: Tree<K>
    var size: nat
    const keySize: nat
    const cmp: (K, K) -> int

    /** The in-order entries of the tree. */
    ghost function Items(): seq<Entry<K>>
      reads this
    {
      Entries(root)
    }

    /** The abstract map the tree stores. */
    ghost function Map(): map<K, Bytes>
      reads this
    {
      ToMap(Entries(root))
    }

    /**
     * BST order under a total-order comparator, the AVL shape, and a
     * counter that is zero exactly when the tree is empty and never below
     * the number of nodes.
     */
    ghost predicate Valid()
      reads this
    {
      && TotalOrder(cmp)
      && Sorted(cmp, Entries(root))
      && Avl(root)
      && (size == 0 <==> root == Nil)
      && size >= |Entries(root)|
    }

    /** A tree as a successful avl_tree_init leaves it. */
    constructor (keySize: nat, cmp: (K, K) -> int)
      ensures root == Nil && size == 0 && this.keySize == keySize && this.cmp == cmp
      ensures TotalOrder(cmp) ==> Valid()
    {
      this.root := Nil;
      this.size := 0;
      this.keySize := keySize;
      this.cmp := cmp;
    }

    /**
     * avl_tree_init: -1 and no tree for a NULL comparator; otherwise an
     * empty tree with the given key size and comparator.
     */
    static method Init(keySize: nat, compare: Option<(K, K) -> int>) returns (r: int, t: AVLTree?<K>)
      ensures compare.None? ==> r == -1 && t == null
      ensures compare.Some? ==> r == 0 && t != null && fresh(t)
      ensures compare.Some? ==> t.root == Nil && t.size == 0 && t.keySize == keySize && t.cmp == compare.value
      ensures compare.Some? && TotalOrder(compare.value) ==> t.Valid()
    {
      if compare.None? {
        return -1, null;
      }
      t := new AVLTree(keySize, compare.value);
      r := 0;
    }

    /**
     * avl_tree_insert.  A NULL key or value gives -1 and no change.
     * Otherwise insert_recursive runs; only an empty tree whose new leaf
     * cannot be allocated ends with a NULL root and -1.  Every other call
     * returns 0 and increments size, even when the key was present (its
     * value buffer is overwritten) or the leaf allocation failed.
     * defined is false when that overwrite is undefined in C: memcpy of the
     * new value runs past the end of the shorter old buffer.
     */
    method Insert(key: Option<K>, value: Option<Bytes>, allocOk: bool) returns (r: int, defined: bool)
      requires Valid()
      modifies this
      ensures Valid()
      ensures defined <==> key.None? || value.None? || key.value !in old(Map()) ||
                           CopyFits(old(Map())[key.value], value.value, |value.value|)
      ensures r == (if key.None? || value.None? || (old(root) == Nil && !allocOk) then -1 else 0)
      ensures r == -1 ==> root == old(root) && size == old(size)
      ensures r == 0 ==> size == old(size) + 1
      ensures r == 0 && (allocOk || key.value in old(Map())) ==>
                Items() == Upsert(cmp, old(Items()), key.value, value.value) &&
                Map() == Updated(old(Map()), key.value, value.value)
      ensures r == 0 && !allocOk && key.value !in old(Map()) ==> Items() == old(Items())
      ensures r == 0 && key.value in old(Map()) ==> Skeleton(root) == Skeleton(old(root))
    {
      if key.None? || value.None? {
        return -1, true;
      }
      InsertFitsLookup(cmp, root, key.value, value.value);
      defined := InsertFits(cmp, root, key.value, value.value);
      var t := InsertRoot(cmp, root, key.value, value.value, allocOk);
      root := t;
      if t == Nil {
        return -1, defined;
      }
      size := size + 1;
      return 0, defined;
    }

    /** avl_tree_find: the value stored under the key that compares equal; None for a NULL key or no match. */
    method Find(key: Option<K>) returns (r: Option<Bytes>)
      requires Valid()
      ensures key.None? ==> r.None?
      ensures key.Some? ==> r == Lookup(Items(), key.value)
    {
      if key.None? {
        return None;
      }
      var k := key.value;
      var current := root;
      while current.Node?
        invariant Sorted(cmp, Entries(current))
        invariant Lookup(Entries(current), k) == Lookup(Entries(root), k)
        decreases current
      {
        var e := Entry(current.key, current.value);
        LookupSplit(cmp, Entries(current.left), e, Entries(current.right), k);
        SortedSplit(cmp, Entries(current.left), e, Entries(current.right));
        var c := cmp(k, current.key);
        if c == 0 {
          return Some(current.value);
        }
        current := if c < 0 then current.left else current.right;
      }
      return None;
    }

    /**
     * avl_tree_clear (and avl_tree_destroy, which only calls it): frees
     * every node bottom-up and leaves an empty tree.  It returns, as a
     * ghost, the keys it frees in order.
     */
    method Clear() returns (ghost freed: seq<K>)
      modifies this
      ensures root == Nil && size == 0
      ensures freed == PostOrder(old(root))
      ensures TotalOrder(cmp) ==> Valid()
    {
      freed := PostOrder(root);
      root := Nil;
      size := 0;
    }

    /** avl_tree_min: the key of the leftmost node, which is the smallest key; None on an empty tree. */
    method Min() returns (r: Option<K>)
      requires Valid()
      ensures r.None? <==> Items() == []
      ensures r.Some? ==> r.value == Items()[0].key
      ensures r.Some? ==> forall i :: 0 <= i < |Items()| ==> cmp(r.value, Items()[i].key) <= 0
    {
      if root == Nil {
        return None;
      }
      var k := Leftmost(root);
      SortedFirst(cmp, Items());
      return Some(k);
    }

    /** avl_tree_max: the key of the rightmost node, which is the largest key; None on an empty tree. */
    method Max() returns (r: Option<K>)
      requires Valid()
      ensures r.None? <==> Items() == []
      ensures r.Some? ==> r.value == Items()[|Items()| - 1].key
      ensures r.Some? ==> forall i :: 0 <= i < |Items()| ==> cmp(Items()[i].key, r.value) <= 0
    {
      if root == Nil {
        return None;
      }
      var k := Rightmost(root);
      SortedLast(cmp, Items());
      return Some(k);
    }
  }

  /** The walk of avl_tree_min: follow left links to the end; that node holds the first entry. */
  method Leftmost<K>(t: Tree<K>) returns (k: K)
    requires t.Node?
    ensures Entries(t) != [] && k == Entries(t)[0].key
  {
    var current := t;
    ghost var rest: seq<Entry<K>> := [];
    while current.left.Node?
      invariant current.Node? && Entries(t) == Entries(current) + rest
      decreases current
    {
      rest := [Entry(current.key, current.value)] + Entries(current.right) + rest;
      current := current.left;
    }
    assert Entries(current)[0].key == current.key;
    return current.key;
  }

  /** The walk of avl_tree_max: follow right links to the end; that node holds the last entry. */
  method Rightmost<K>(t: Tree<K>) returns (k: K)
    requires t.Node?
    ensures Entries(t) != [] && k == Entries(t)[|Entries(t)| - 1].key
  {
    var current := t;
    ghost var rest: seq<Entry<K>> := [];
    while current.right.Node?
      invariant current.Node? && Entries(t) == rest + Entries(current)
      decreases current
    {
      rest := rest + Entries(current.left) + [Entry(current.key, current.value)];
      current := current.right;
    }
    assert Entries(current)[|Entries(current)| - 1].key == current.key;
    return current.key;
  }

  /** avl_tree_size: the counter, 0 for a NULL tree; never below the number of keys. */
  function Size<K(!new)>(t: AVLTree?<K>): (n: nat)
    reads t
    ensures t == null ==> n == 0
    ensures t != null && t.Valid() ==> n >= |t.Map()|
  {
    if t == null then 0
    else
      assert t.Valid() ==> |t.Map()| == |t.Items()| by {
        if t.Valid() {
          ToMapSize(t.cmp, t.Items());
        }
      }
      t.size
  }

  /** avl_tree_empty: true for a NULL tree, and for a valid tree exactly when it holds no key. */
  function Empty<K(!new)>(t: AVLTree?<K>): (b: bool)
    reads t
    ensures t == null ==> b
    ensures t != null && t.Valid() ==> (b <==> t.Map() == map[])
  {
    if t == null then true
    else
      EmptyTree(t.root);
      t.size == 0
  }

  /**
   * avl_tree_verify: 0 for a NULL tree; otherwise 1 exactly when every
   * node's stored heights are balanced.  Every valid tree passes; key
   * order is not examined (VerifyIgnoresOrder).
   */
  function Verify<K(!new)>(t: AVLTree?<K>): (r: int)
    reads t
    ensures t == null ==> r == 0
    ensures t != null ==> (r == 1 <==> Balanced(t.root))
    ensures t != null && t.Valid() ==> r == 1
    ensures r == 0 || r == 1
  {
    if t == null then 0 else if Balanced(t.root) then 1 else 0
  }

  lemma EmptyTree<K>(t: Tree<K>)
    ensures ToMap(Entries(t)) == map[] <==> t == Nil
  {
    if t.Node? {
      KeyPresent(Entries(t), |Entries(t.left)|);
    }
  }

  /**
   * The root-level insert_recursive call of avl_tree_insert: the new root
   * holds the upserted entries (unchanged when a new key's leaf cannot be
   * allocated), stays sorted and AVL, and keeps its shape when the key was
   * present.
   */
  method InsertRoot<K(!new)>(cmp: (K, K) -> int, root: Tree<K>, key: K, value: Bytes, allocOk: bool) returns (t: Tree<K>)
    requires TotalOrder(cmp) && Sorted(cmp, Entries(root)) && Avl(root)
    ensures t == InsertRec(cmp, root, key, value, allocOk)
    ensures t == Nil <==> root == Nil && !allocOk
    ensures Sorted(cmp, Entries(t)) && Avl(t)
    ensures allocOk || key in ToMap(Entries(root)) ==>
              Entries(t) == Upsert(cmp, Entries(root), key, value) &&
              ToMap(Entries(t)) == Updated(ToMap(Entries(root)), key, value) &&
              |Entries(t)| <= |Entries(root)| + 1
    ensures !allocOk && key !in ToMap(Entries(root)) ==> Entries(t) == Entries(root)
    ensures key in ToMap(Entries(root)) ==> Skeleton(t) == Skeleton(root)
  {
    t := InsertRec(cmp, root, key, value, allocOk);
    InsertEntries(cmp, root, key, value, allocOk);
    InsertAvl(cmp, root, key, value, allocOk);
    UpsertSorted(cmp, Entries(root), key, value);
    UpsertMap(cmp, Entries(root), key, value);
    if key in ToMap(Entries(root)) {
      InsertPresent(cmp, root, key, value, allocOk);
    }
  }
}
