/**
 * The red-black tree object of rb_tree.c: a root pointer, a node count,
 * the key size and the caller's comparator.  The node graph is the value
 * type RbNode.Tree; every operation that walks or rewires nodes in the C
 * is a loop over a zipper position (a focus subtree and its path of
 * parent frames) and ends by rebuilding the root from it.
 */
module RbTree {
  import opened Common
  import opened Ordered
  import opened RbNode

  /**
   * The entries rb_tree_remove leaves when it removes entry i.  Without a
   * merge, entry i is simply gone.  With a merge (its node had two
   * children) the next entry, the successor, is gone instead, and entry i
   * takes the successor's key and keeps its own value buffer, whose first
   * n bytes are overwritten with the successor's value.
   */
  ghost function Spliced<K>(s: seq<Entry<K>>, i: nat, n: nat, merged: bool): seq<Entry<K>>
    requires i < |s| && (merged ==> i + 1 < |s|)
  {
    if merged then SuccessorMoved(s, i, n) else s[..i] + s[i + 1..]
  }

  /** Entry i takes the key of entry i + 1 and n bytes of its value; entry i + 1 is gone. */
  ghost function SuccessorMoved<K>(s: seq<Entry<K>>, i: nat, n: nat): seq<Entry<K>>
    requires i + 1 < |s|
  {
    s[..i] + [Entry(s[i + 1].key, CopyBytes(s[i].value, s[i + 1].value, n))] + s[i + 2..]
  }

  class RBTree<K(!new)> {
    var root: Tree<K>
    var size: nat
    const keySize: nat
    const cmp: (K, K) -> int

    /** The in-order entries of the tree. */
    ghost function Items(): seq<Entry<K>>
      reads this
    {
      Entries(root)
    }

    /** The abstract map the tree stores. */
    ghost function Map(): map<K, Bytes>
      reads this
    {
      ToMap(Entries(root))
    }

    /**
     * BST order under a total-order comparator and size equal to the
     * number of nodes.  The colour rules are not part of it: remove does
     * not restore them.
     */
    ghost predicate Valid()
      reads this
    {
      TotalOrder(cmp) && Sorted(cmp, Entries(root)) && size == |Entries(root)|
    }

    /** A tree as a successful rb_tree_init leaves it. */
    constructor (keySize: nat, cmp: (K, K) -> int)
      ensures root == Nil && size == 0 && this.keySize == keySize && this.cmp == cmp
      ensures TotalOrder(cmp) ==> Valid()
    {
      this.root := Nil;
      this.size := 0;
      this.keySize := keySize;
      this.cmp := cmp;
    }

    /**
     * rb_tree_init: -1 and no tree for a NULL comparator; otherwise an
     * empty tree with the given key size and comparator.
     */
    static method Init(keySize: nat, compare: Option<(K, K) -> int>) returns (r: int, t: RBTree?<K>)
      ensures compare.None? ==> r == -1 && t == null
      ensures compare.Some? ==> r == 0 && t != null && fresh(t)
      ensures compare.Some? ==> t.root == Nil && t.size == 0 && t.keySize == keySize && t.cmp == compare.value
      ensures compare.Some? && TotalOrder(compare.value) ==> t.Valid()
    {
      if compare.None? {
        return -1, null;
      }
      t := new RBTree(keySize, compare.value);
      r := 0;
    }

    /**
     * rb_tree_insert.  The new node is allocated before the search, so an
     * allocation failure returns -1 even for a key already present.  An
     * equal key has the new value copied over its buffer; otherwise the
     * red leaf is hung where the search ended and fix_insert runs.
     * defined is false when the run is undefined in C: the copy of a longer
     * value overruns the old buffer, or fix_insert reaches the NULL
     * grandparent of a red root (possible after rb_tree_remove, which
     * repairs no colour).
     */
    method Insert(key: K, value: Bytes, allocOk: bool) returns (r: int, defined: bool)
      requires Valid()
      modifies this
      ensures Valid()
      ensures r == (if allocOk then 0 else -1)
      ensures !allocOk ==> root == old(root) && size == old(size) && defined
      ensures allocOk ==> Items() == Upsert(cmp, old(Items()), key, value)
      ensures allocOk ==> Map() == Updated(old(Map()), key, value)
      ensures allocOk ==> size == old(size) + (if key in old(Map()) then 0 else 1)
      ensures allocOk && key in old(Map()) ==> Skeleton(root) == Skeleton(old(root))
      ensures allocOk && key in old(Map()) ==> (defined <==> CopyFits(old(Map())[key], value, |value|))
      ensures allocOk && key !in old(Map()) && !old(IsRed(root)) ==> defined
      ensures allocOk && key !in old(Map()) && old(IsRed(root)) && old(size) == 1 ==> !defined
      ensures (allocOk && key !in old(Map())) || !old(IsRed(root)) ==> !IsRed(root)
      ensures old(IsRedBlack(root)) ==> IsRedBlack(root)
    {
      if !allocOk {
        return -1, true;
      }
      var t, added;
      t, added, defined := InsertNode(cmp, root, key, value);
      root, size := t, if added then size + 1 else size;
      r := 0;
    }

    /** rb_tree_find: the value stored under the key that compares equal, or None (NULL). */
    method Find(key: K) returns (r: Option<Bytes>)
      requires Valid()
      ensures r == Lookup(Items(), key)
    {
      var current := root;
      while current.Node?
        invariant Sorted(cmp, Entries(current))
        invariant Lookup(Entries(current), key) == Lookup(Entries(root), key)
        decreases NodeCount(current)
      {
        var e := Entry(current.key, current.value);
        LookupSplit(cmp, Entries(current.left), e, Entries(current.right), key);
        SortedSplit(cmp, Entries(current.left), e, Entries(current.right));
        var c := cmp(key, current.key);
        if c == 0 {
          return Some(current.value);
        } else if c < 0 {
          current := current.left;
        } else {
          current := current.right;
        }
      }
      return None;
    }

    /** rb_tree_contains. */
    method Contains(key: K) returns (b: bool)
      requires Valid()
      ensures b <==> key in Map()
    {
      var r := Find(key);
      b := r.Some?;
    }

    /** rb_tree_size. */
    function Size(): (n: nat)
      reads this
      requires Valid()
      ensures n == |Items()|
    {
      size
    }

    /** rb_tree_empty. */
    function Empty(): (b: bool)
      reads this
      requires Valid()
      ensures b <==> Map() == map[]
    {
      EmptyMap(Entries(root));
      size == 0
    }

    /** rb_tree_min: the key of the leftmost node, which is the smallest key; None on an empty tree. */
    method Min() returns (r: Option<K>)
      requires Valid()
      ensures r.None? <==> Items() == []
      ensures r.Some? ==> r.value == Items()[0].key
      ensures r.Some? ==> forall i :: 0 <= i < |Items()| ==> cmp(r.value, Items()[i].key) <= 0
    {
      if root == Nil {
        return None;
      }
      var current := root;
      ghost var rest: seq<Entry<K>> := [];
      while current.left.Node?
        invariant current.Node? && Entries(root) == Entries(current) + rest
        decreases NodeCount(current)
      {
        rest := [Entry(current.key, current.value)] + Entries(current.right) + rest;
        current := current.left;
      }
      r := Some(current.key);
      assert Entries(root)[0].key == current.key;
      forall i | 0 < i < |Items()| ensures cmp(r.value, Items()[i].key) <= 0 {
        assert cmp(Items()[0].key, Items()[i].key) < 0;
      }
      assert cmp(current.key, current.key) == 0;
    }

    /** rb_tree_max: the key of the rightmost node, which is the largest key; None on an empty tree. */
    method Max() returns (r: Option<K>)
      requires Valid()
      ensures r.None? <==> Items() == []
      ensures r.Some? ==> r.value == Items()[|Items()| - 1].key
      ensures r.Some? ==> forall i :: 0 <= i < |Items()| ==> cmp(Items()[i].key, r.value) <= 0
    {
      if root == Nil {
        return None;
      }
      var current := root;
      ghost var rest: seq<Entry<K>> := [];
      while current.right.Node?
        invariant current.Node? && Entries(root) == rest + Entries(current)
        decreases NodeCount(current)
      {
        rest := rest + Entries(current.left) + [Entry(current.key, current.value)];
        current := current.right;
      }
      r := Some(current.key);
      ghost var n := |Items()|;
      assert Entries(root)[n - 1].key == current.key;
      forall i | 0 <= i < n - 1 ensures cmp(Items()[i].key, r.value) <= 0 {
        assert cmp(Items()[i].key, Items()[n - 1].key) < 0;
      }
      assert cmp(current.key, current.key) == 0;
    }

    /**
     * rb_tree_remove.  An absent key gives -1 and no change.  A node with
     * two children takes its successor's key and key_size bytes of the
     * successor's value, and the successor is spliced out instead.  The
     * spliced node is replaced by its only child; no colour is repaired.
     * defined is false when the key_size-byte copy of the successor's value
     * reads or writes past one of the two value buffers.
     */
    method Remove(key: K) returns (r: int, ghost at: nat, ghost merged: bool, defined: bool)
      requires Valid()
      modifies this
      ensures Valid()
      ensures r == (if key in old(Map()) then 0 else -1)
      ensures r == -1 ==> root == old(root) && size == old(size)
      ensures r == 0 ==> size == old(size) - 1
      ensures r == 0 ==> Map().Keys == old(Map()).Keys - {key}
      ensures r == 0 ==> at < |old(Items())| && old(Items())[at].key == key
      ensures r == 0 ==> (merged ==> at + 1 < |old(Items())|) && Items() == Spliced(old(Items()), at, keySize, merged)
      ensures r == -1 || !merged ==> defined
      ensures r == 0 && merged ==> (defined <==> CopyFits(old(Items())[at].value, old(Items())[at + 1].value, keySize))
    {
      var path, node := Search(cmp, root, key);
      if node == Nil {
        AbsentAtLeaf(cmp, path, key);
        return -1, 0, false, true;
      }
      var newRoot;
      newRoot, at, merged, defined := SpliceOut(path, node, keySize);
      SplicedKeys(cmp, Entries(root), at, keySize, merged, key, Entries(newRoot));
      root, size := newRoot, size - 1;
      r := 0;
    }

    /**
     * rb_tree_clear (and rb_tree_destroy): walks from the root, freeing a
     * node with no left child and moving right, or else rotating the left
     * child above the current node.  It returns, as a ghost, the keys it
     * frees in order.
     */
    method Clear() returns (ghost freed: seq<K>)
      modifies this
      ensures root == Nil && size == 0
      ensures freed == ClearFreed(old(root))
      ensures TotalOrder(cmp) ==> Valid()
    {
      var current := root;
      freed := [];
      while current.Node?
        invariant freed + ClearFreed(current) == ClearFreed(old(root))
        decreases NodeCount(current)
      {
        if current.left == Nil {
          freed := freed + [current.key];
          current := current.right;
        } else {
          // left->right = current; current->left = left->right; current itself stays current.
          var left := current.left;
          assert NodeCount(left) == NodeCount(left.left) + 1 + NodeCount(left.right);
          current := current.(left := left.right);
        }
      }
      root := Nil;
      size := 0;
    }

    /** rb_tree_verify: 1 exactly when the tree obeys the red-black rules (BST order is not checked). */
    method Verify() returns (r: int)
      ensures r == (if IsRedBlack(root) then 1 else 0)
    {
      if root == Nil {
        return 1;
      }
      // Parent links are consistent by construction here, so the root has no parent.
      VerifyNodeCorrect(root, true, 0);
      var res := VerifyNode(root, true, 0);
      return res.0;
    }
  }

  /**
   * The descent of rb_tree_insert and rb_tree_remove: from the root, go
   * left on a smaller key and right on a larger one, stopping at the node
   * whose key compares equal or where the search falls off the tree.  The
   * path records every parent passed, so that the caller can rewire it.
   */
  method Search<K(!new)>(cmp: (K, K) -> int, t: Tree<K>, key: K) returns (path: seq<Frame<K>>, node: Tree<K>)
    requires TotalOrder(cmp) && Sorted(cmp, Entries(t))
    ensures Plug(path, node) == t
    ensures AllBelow(cmp, PathLeft(path), key) && AllAbove(cmp, PathRight(path), key)
    ensures node.Node? ==> cmp(key, node.key) == 0
  {
    path, node := [], t;
    while node.Node?
      invariant Plug(path, node) == t
      invariant AllBelow(cmp, PathLeft(path), key) && AllAbove(cmp, PathRight(path), key)
      decreases NodeCount(node)
    {
      FocusOrder(cmp, path, node);
      var c := cmp(key, node.key);
      if c < 0 {
        DescendLeft(cmp, path, node, key);
        var f := Frame(node.color, node.key, node.value, node.right, true);
        assert ([f] + path)[1..] == path;
        path, node := [f] + path, node.left;
      } else if c > 0 {
        DescendRight(cmp, path, node, key);
        var f := Frame(node.color, node.key, node.value, node.left, false);
        assert ([f] + path)[1..] == path;
        path, node := [f] + path, node.right;
      } else {
        return;
      }
    }
  }

  /**
   * fix_insert, on the position of the red node just hung (x, with its
   * parent frames in path).  The returned tree is the new root: the same
   * entries and a black root.  The loop reads the grandparent of every red
   * parent; when that parent is a red root the grandparent is NULL and the
   * run is undefined (defined == false).  That cannot happen when the root,
   * or the new node's parent, is black.  From the fix-up invariant under a
   * black root the result is a red-black tree.
   */
  method FixInsert<K>(up: seq<Frame<K>>, z: Tree<K>) returns (t: Tree<K>, defined: bool)
    requires IsRed(z)
    ensures Entries(t) == Entries(Plug(up, z))
    ensures !IsRed(t)
    ensures up == [] || up[0].color == Black || up[|up| - 1].color == Black ==> defined
    ensures |up| == 1 && up[0].color == Red ==> !defined
    ensures AlmostRedBlack(up, z) && (up == [] || up[|up| - 1].color == Black) ==> IsRedBlack(t)
  {
    ghost var wasRB := AlmostRedBlack(up, z);
    ghost var blackRoot := up == [] || up[|up| - 1].color == Black;
    ghost var target := Entries(Plug(up, z));
    var path := up;
    var x := z;
    defined := true;
    // fix_insert: x is "node"; path[0] is its parent and path[1] its grandparent.
    while path != [] && path[0].color == Red
      invariant IsRed(x) && defined
      invariant path != [] ==> up != [] && (path[|path| - 1].color == Black || path[|path| - 1] == up[|up| - 1])
      invariant up != [] && up[0].color == Black ==> path == up
      invariant |up| == 1 ==> path == up
      invariant Entries(Plug(path, x)) == target
      invariant wasRB ==> AlmostRedBlack(path, x)
      decreases |path|
    {
      if |path| == 1 {
        // The red parent is the root: node->parent->parent is NULL.
        defined := false;
        break;
      }
      if IsRed(path[1].sibling) {
        path, x := FixRedUncle(path, x);
      } else if path[1].focusLeft {
        path, x := FixParentLeft(path, x);
      } else {
        path, x := FixParentRight(path, x);
      }
    }
    PlugRoot(path, x);
    BlackenEntries(Plug(path, x));
    if wasRB && blackRoot {
      assert path == [] || path[0].color == Black;
      FixDone(path, x);
    }
    t := Blacken(Plug(path, x));
  }

  /**
   * One step of fix_insert when the uncle is red: parent and uncle turn
   * black, the grandparent red, and the walk continues from the grandparent.
   */
  method FixRedUncle<K>(path: seq<Frame<K>>, x: Tree<K>) returns (np: seq<Frame<K>>, nx: Tree<K>)
    requires IsRed(x) && |path| >= 2 && path[0].color == Red && IsRed(path[1].sibling)
    ensures IsRed(nx) && |np| < |path|
    ensures np != [] ==> np[|np| - 1].color == Black || np[|np| - 1] == path[|path| - 1]
    ensures Entries(Plug(np, nx)) == Entries(Plug(path, x))
    ensures AlmostRedBlack(path, x) ==> AlmostRedBlack(np, nx)
  {
    var p, g := path[0], path[1];
    // Both branches of the C recolour alike: parent and uncle black, grandparent red.
    nx := Attach(g.(color := Red, sibling := Blacken(g.sibling)), Attach(p.(color := Black), x));
    RecolourEntries(path, x, nx);
    if AlmostRedBlack(path, x) {
      RecolourStep(path, x, nx);
    }
    assert path[2..] != [] ==> path[2..][|path[2..]| - 1] == path[|path| - 1];
    np := path[2..];
  }

  /**
   * The rotation case of fix_insert when the parent is a left child and the
   * uncle is black: a right-leaning node is first rotated left at the
   * parent, then the grandparent is rotated right and recoloured.
   */
  method FixParentLeft<K>(path: seq<Frame<K>>, x: Tree<K>) returns (np: seq<Frame<K>>, nx: Tree<K>)
    requires IsRed(x) && |path| >= 2 && path[0].color == Red && !IsRed(path[1].sibling) && path[1].focusLeft
    ensures IsRed(nx) && |np| < |path|
    ensures np != [] ==> np[|np| - 1].color == Black || np[|np| - 1] == path[|path| - 1]
    ensures Entries(Plug(np, nx)) == Entries(Plug(path, x))
    ensures AlmostRedBlack(path, x) ==> AlmostRedBlack(np, nx)
  {
    var p, g := path[0], path[1];
    var sub := Attach(p, x);
    if !p.focusLeft {
      sub := RotateLeft(sub);
    }
    var top := RotateRight(Node(Red, Blacken(sub), g.key, g.value, g.sibling));
    np := [Frame(top.color, top.key, top.value, top.right, true)] + path[2..];
    BlackenEntries(sub);
    RotateStepEntries(path, x, top, np, top.left);
    if AlmostRedBlack(path, x) {
      RotateRightStep(path, x, sub, top);
    }
    assert np[|np| - 1].color == Black || np[|np| - 1] == path[|path| - 1] by {
      if path[2..] != [] {
        assert np[|np| - 1] == path[|path| - 1];
      }
    }
    nx := top.left;
  }

  /** The mirror image of FixParentLeft, for a parent that is a right child. */
  method FixParentRight<K>(path: seq<Frame<K>>, x: Tree<K>) returns (np: seq<Frame<K>>, nx: Tree<K>)
    requires IsRed(x) && |path| >= 2 && path[0].color == Red && !IsRed(path[1].sibling) && !path[1].focusLeft
    ensures IsRed(nx) && |np| < |path|
    ensures np != [] ==> np[|np| - 1].color == Black || np[|np| - 1] == path[|path| - 1]
    ensures Entries(Plug(np, nx)) == Entries(Plug(path, x))
    ensures AlmostRedBlack(path, x) ==> AlmostRedBlack(np, nx)
  {
    var p, g := path[0], path[1];
    var sub := Attach(p, x);
    if p.focusLeft {
      sub := RotateRight(sub);
    }
    var top := RotateLeft(Node(Red, g.sibling, g.key, g.value, Blacken(sub)));
    np := [Frame(top.color, top.key, top.value, top.left, false)] + path[2..];
    BlackenEntries(sub);
    RotateStepEntries(path, x, top, np, top.right);
    if AlmostRedBlack(path, x) {
      RotateLeftStep(path, x, sub, top);
    }
    assert np[|np| - 1].color == Black || np[|np| - 1] == path[|path| - 1] by {
      if path[2..] != [] {
        assert np[|np| - 1] == path[|path| - 1];
      }
    }
    nx := top.right;
  }

  // ---------------------------------------------------------------------------
  // Lemmas for the operations above.

  lemma EmptyMap<K>(s: seq<Entry<K>>)
    ensures ToMap(s) == map[] <==> s == []
  {
    if s != [] {
      KeyPresent(s, 0);
    }
  }

  lemma BlackenEntries<K>(t: Tree<K>)
    ensures Entries(Blacken(t)) == Entries(t)
  {
  }

  /** A probe that fell off the tree at a NULL child is not a key of the tree. */
  lemma AbsentAtLeaf<K(!new)>(cmp: (K, K) -> int, path: seq<Frame<K>>, key: K)
    requires TotalOrder(cmp)
    requires AllBelow(cmp, PathLeft(path), key) && AllAbove(cmp, PathRight(path), key)
    ensures key !in ToMap(Entries(Plug(path, Nil)))
  {
    PlugEntries(path, Nil);
    ToMapConcat(PathLeft(path), PathRight(path));
    EmptyMiddle(PathLeft(path), PathRight(path));
    AboveAbsent(cmp, PathLeft(path), key);
    AboveAbsent(cmp, PathRight(path), key);
  }

  /** Hanging the new node where the search fell off the tree is the ordered insertion of a new key. */
  lemma InsertAtLeaf<K(!new)>(cmp: (K, K) -> int, path: seq<Frame<K>>, key: K, value: Bytes)
    requires TotalOrder(cmp)
    requires AllBelow(cmp, PathLeft(path), key) && AllAbove(cmp, PathRight(path), key)
    ensures Entries(Plug(path, NewNode(key, value))) == Upsert(cmp, Entries(Plug(path, Nil)), key, value)
    ensures key !in ToMap(Entries(Plug(path, Nil)))
  {
    AbsentAtLeaf(cmp, path, key);
    PlugEntries(path, Nil);
    PlugEntries(path, NewNode(key, value));
    UpsertMiddle(cmp, PathLeft(path), [], PathRight(path), key, value);
    assert PathLeft(path) + [] + PathRight(path) == PathLeft(path) + Entries(Nil) + PathRight(path);
  }

  /** The duplicate-key branch of rb_tree_insert: the node's buffer receives the new value, nothing else moves. */
  lemma UpdateInPlace<K(!new)>(cmp: (K, K) -> int, path: seq<Frame<K>>, cur: Tree<K>, key: K, value: Bytes)
    requires TotalOrder(cmp) && cur.Node? && cmp(key, cur.key) == 0
    requires Sorted(cmp, Entries(Plug(path, cur)))
    ensures Entries(Plug(path, cur.(value := CopyBytes(cur.value, value, |value|)))) ==
              Upsert(cmp, Entries(Plug(path, cur)), key, value)
    ensures key in ToMap(Entries(Plug(path, cur))) && ToMap(Entries(Plug(path, cur)))[key] == cur.value
  {
    var e := Entry(cur.key, cur.value);
    var before, after := PathLeft(path) + Entries(cur.left), Entries(cur.right) + PathRight(path);
    FocusOrder(cmp, path, cur);
    assert key == cur.key;
    forall i | 0 <= i < |before| ensures cmp(key, before[i].key) > 0 {
    }
    PlugSplit(path, cur);
    PlugSplit(path, cur.(value := CopyBytes(cur.value, value, |value|)));
    UpsertHere(cmp, before, e, after, key, value);
    SliceAround(before, e, after);
    KeyPresent(before + [e] + after, |before|);
    ToMapAt(cmp, before + [e] + after, |before|);
  }

  /** Upserting the key of the entry between a lower and a higher part rewrites that entry's value only. */
  lemma UpsertHere<K(!new)>(cmp: (K, K) -> int, before: seq<Entry<K>>, e: Entry<K>, after: seq<Entry<K>>, key: K, value: Bytes)
    requires cmp(key, e.key) == 0 && forall i :: 0 <= i < |before| ==> cmp(key, before[i].key) > 0
    ensures Upsert(cmp, before + [e] + after, key, value) ==
              before + [Entry(e.key, CopyBytes(e.value, value, |value|))] + after
  {
    SeqAssoc(before, [e], after);
    UpsertPastAll(cmp, before, [e] + after, key, value);
    UpsertHead(cmp, e, after, key, value);
    SeqAssoc(before, [Entry(e.key, CopyBytes(e.value, value, |value|))], after);
  }

  lemma UpsertHead<K(!new)>(cmp: (K, K) -> int, e: Entry<K>, after: seq<Entry<K>>, key: K, value: Bytes)
    requires cmp(key, e.key) == 0
    ensures Upsert(cmp, [e] + after, key, value) == [Entry(e.key, CopyBytes(e.value, value, |value|))] + after
  {
    assert ([e] + after)[0] == e && ([e] + after)[1..] == after;
  }

  /** Index arithmetic around the middle entry of a three-part sequence. */
  lemma SliceAround<T>(before: seq<T>, e: T, after: seq<T>)
    ensures var s := before + [e] + after;
            && |s| == |before| + 1 + |after| && s[|before|] == e
            && s[..|before|] == before && s[|before| + 1..] == after
  {
    var s := before + [e] + after;
    assert s[..|before|] == before;
    assert s[|before| + 1..] == after;
  }

  /** Splicing out a node with at most one child removes exactly its entry. */
  lemma RemoveOneChild<K>(path: seq<Frame<K>>, n: Tree<K>)
    requires n.Node? && (n.left == Nil || n.right == Nil)
    ensures Entries(Plug(path, if n.left.Node? then n.left else n.right)) ==
              (PathLeft(path) + Entries(n.left)) + (Entries(n.right) + PathRight(path))
  {
    var child := if n.left.Node? then n.left else n.right;
    PlugEntries(path, child);
    assert Entries(child) == Entries(n.left) + Entries(n.right);
  }

  /** Removing a node with at most one child splices out its entry. */
  lemma OneChildSplice<K>(path: seq<Frame<K>>, n: Tree<K>, nb: nat)
    requires n.Node? && (n.left == Nil || n.right == Nil)
    ensures |PathLeft(path)| + |Entries(n.left)| < |Entries(Plug(path, n))|
    ensures Entries(Plug(path, n))[|PathLeft(path)| + |Entries(n.left)|] == Entry(n.key, n.value)
    ensures Entries(Plug(path, if n.left.Node? then n.left else n.right)) ==
              Spliced(Entries(Plug(path, n)), |PathLeft(path)| + |Entries(n.left)|, nb, false)
  {
    RemoveOneChild(path, n);
    PlugSplit(path, n);
    SplicedOne(Entries(Plug(path, n)), Entries(Plug(path, if n.left.Node? then n.left else n.right)),
               PathLeft(path) + Entries(n.left), Entry(n.key, n.value), Entries(n.right) + PathRight(path),
               |PathLeft(path)| + |Entries(n.left)|, nb);
  }

  /**
   * The node-level part of rb_tree_insert: descend from the root; on an
   * equal key copy the new value into the existing buffer; otherwise hang a
   * new red node where the search fell off the tree and run fix_insert.
   * The result tells whether a node was added.
   */
  method InsertNode<K(!new)>(cmp: (K, K) -> int, root: Tree<K>, key: K, value: Bytes) returns (t: Tree<K>, added: bool, defined: bool)
    requires TotalOrder(cmp) && Sorted(cmp, Entries(root))
    ensures Entries(t) == Upsert(cmp, Entries(root), key, value)
    ensures Sorted(cmp, Entries(t)) && ToMap(Entries(t)) == Updated(ToMap(Entries(root)), key, value)
    ensures added <==> key !in ToMap(Entries(root))
    ensures |Entries(t)| == if added then |Entries(root)| + 1 else |Entries(root)|
    ensures !added ==> Skeleton(t) == Skeleton(root)
    ensures !added ==> (defined <==> CopyFits(ToMap(Entries(root))[key], value, |value|))
    ensures added && !IsRed(root) ==> defined
    ensures added && IsRed(root) && |Entries(root)| == 1 ==> !defined
    ensures added || !IsRed(root) ==> !IsRed(t)
    ensures IsRedBlack(root) ==> IsRedBlack(t)
  {
    UpsertSorted(cmp, Entries(root), key, value);
    UpsertMap(cmp, Entries(root), key, value);
    var z := NewNode(key, value);
    var path, current := Search(cmp, root, key);
    if current.Node? {
      // The key is present: its buffer receives the new value and nothing else moves.
      var updated := current.(value := CopyBytes(current.value, value, |value|));
      UpdateInPlace(cmp, path, current, key, value);
      PlugSkeleton(path, updated, current);
      SkeletonRedBlack(Plug(path, updated), root);
      return Plug(path, updated), false, CopyFits(current.value, value, |value|);
    }
    InsertAtLeaf(cmp, path, key, value);
    if path != [] {
      PlugRoot(path, Nil);
    }
    if IsRedBlack(root) {
      FixStart(path, z);
    }
    if |Entries(root)| == 1 {
      LeafPath(root, path);
    }
    t, defined := FixInsert(path, z);
    added := true;
  }

  /** A search in a one-entry tree stops at a NULL child of the root, with the root as the only frame. */
  lemma LeafPath<K>(root: Tree<K>, path: seq<Frame<K>>)
    requires Plug(path, Nil) == root && |Entries(root)| == 1
    ensures |path| == 1 && path[0].color == root.color
  {
    PlugEntries(path, Nil);
    PathSize(path);
    PlugRoot(path, Nil);
  }

  /** Every frame of a path contributes at least its own entry. */
  lemma {:induction false} PathSize<K>(path: seq<Frame<K>>)
    ensures |PathLeft(path)| + |PathRight(path)| >= |path|
    decreases |path|
  {
    if path != [] {
      PathSize(path[1..]);
    }
  }

  /**
   * The unlinking step of rb_tree_remove for the node n found at the focus
   * of path.  A node with two children takes its successor's key and nb
   * bytes of its value, and the successor is replaced by its right child;
   * any other node is replaced by its only child (or by nothing).  No
   * colour is repaired.
   */
  method SpliceOut<K>(path: seq<Frame<K>>, n: Tree<K>, nb: nat) returns (t: Tree<K>, ghost at: nat, merged: bool, defined: bool)
    requires n.Node?
    ensures merged <==> n.left.Node? && n.right.Node?
    ensures !merged ==> defined
    ensures !merged ==> t == Plug(path, if n.left.Node? then n.left else n.right)
    ensures at == |PathLeft(path)| + |Entries(n.left)|
    ensures at < |Entries(Plug(path, n))| && Entries(Plug(path, n))[at] == Entry(n.key, n.value)
    ensures merged ==> at + 1 < |Entries(Plug(path, n))| && (defined <==> CopyFits(n.value, Entries(Plug(path, n))[at + 1].value, nb))
    ensures Entries(t) == Spliced(Entries(Plug(path, n)), at, nb, merged)
  {
    at := |PathLeft(path)| + |Entries(n.left)|;
    var twoChildren := n.left.Node? && n.right.Node?;
    merged := twoChildren;
    if twoChildren {
      // The successor's key, and nb bytes of its value, are copied into the
      // node; the successor is replaced by its right child.
      var k, v, rest := TakeSuccessor(n.right);
      var m := Node(n.color, n.left, k, CopyBytes(n.value, v, nb), rest);
      t := Plug(path, m);
      TwoChildrenSplice(path, n, k, v, rest, nb, m, Entries(Plug(path, n)), Entries(t), at);
      defined := CopyFits(n.value, v, nb);
    } else {
      defined := true;
      OneChildSplice(path, n, nb);
      t := Plug(path, if n.left.Node? then n.left else n.right);
    }
  }

  /**
   * The successor walk of rb_tree_remove: from the right child of the node
   * being removed, go left as long as possible; the node reached holds the
   * first entry of that subtree and is replaced by its right child.
   */
  method TakeSuccessor<K>(t: Tree<K>) returns (key: K, value: Bytes, rest: Tree<K>)
    requires t.Node?
    ensures Entries(t) == [Entry(key, value)] + Entries(rest)
  {
    var spath: seq<Frame<K>> := [];
    var succ := t;
    while succ.left.Node?
      invariant succ.Node? && Plug(spath, succ) == t
      invariant PathLeft(spath) == []
      decreases NodeCount(succ)
    {
      var f := Frame(succ.color, succ.key, succ.value, succ.right, true);
      assert ([f] + spath)[1..] == spath;
      spath, succ := [f] + spath, succ.left;
    }
    SuccessorFirst(spath, succ);
    PlugEntries(spath, succ.right);
    key, value, rest := succ.key, succ.value, Plug(spath, succ.right);
  }

  /**
   * Removing a node with two children: the node takes its successor's key
   * and nb bytes of the successor's value, and the rest of its right
   * subtree is what remains once the successor is spliced out.
   */
  lemma TwoChildrenSplice<K>(path: seq<Frame<K>>, n: Tree<K>, k: K, v: Bytes, rest: Tree<K>, nb: nat, m: Tree<K>,
                             s: seq<Entry<K>>, t: seq<Entry<K>>, at: nat)
    requires n.Node? && Entries(n.right) == [Entry(k, v)] + Entries(rest)
    requires m == Node(n.color, n.left, k, CopyBytes(n.value, v, nb), rest)
    requires s == Entries(Plug(path, n)) && t == Entries(Plug(path, m)) && at == |PathLeft(path)| + |Entries(n.left)|
    ensures at + 1 < |s| && s[at] == Entry(n.key, n.value) && s[at + 1] == Entry(k, v)
    ensures t == SuccessorMoved(s, at, nb)
  {
    PlugSplit(path, m);
    SuccessorNext(path, n, k, v, rest);
    SplicedTwo(s, t, PathLeft(path) + Entries(n.left), Entry(n.key, n.value), k, v, Entries(rest) + PathRight(path), at, nb);
  }

  /** The successor's entry comes right after the node's own. */
  lemma SuccessorNext<K>(path: seq<Frame<K>>, n: Tree<K>, k: K, v: Bytes, rest: Tree<K>)
    requires n.Node? && Entries(n.right) == [Entry(k, v)] + Entries(rest)
    ensures Entries(Plug(path, n)) ==
              (PathLeft(path) + Entries(n.left)) + [Entry(n.key, n.value)] + ([Entry(k, v)] + (Entries(rest) + PathRight(path)))
  {
    PlugSplit(path, n);
    SeqAssoc([Entry(k, v)], Entries(rest), PathRight(path));
  }

  /** The node reached by going left all the way holds the first entry of the subtree. */
  lemma SuccessorFirst<K>(spath: seq<Frame<K>>, succ: Tree<K>)
    requires succ.Node? && succ.left == Nil && PathLeft(spath) == []
    ensures Entries(Plug(spath, succ)) == [Entry(succ.key, succ.value)] + (Entries(succ.right) + PathRight(spath))
  {
    PlugEntries(spath, succ);
  }

  /** Dropping the middle entry of a three-part sequence splices it out. */
  lemma SplicedOne<K>(s: seq<Entry<K>>, t: seq<Entry<K>>, before: seq<Entry<K>>, e: Entry<K>, after: seq<Entry<K>>,
                      at: nat, n: nat)
    requires s == before + [e] + after && at == |before| && t == before + after
    ensures at < |s| && s[at] == e && t == Spliced(s, at, n, false)
  {
    assert s[..at] == before;
    assert s[at + 1..] == after;
  }

  /** Merging two adjacent middle entries into one, as the two-children case does, splices out the first. */
  lemma SplicedTwo<K>(s: seq<Entry<K>>, t: seq<Entry<K>>, before: seq<Entry<K>>, e: Entry<K>, k: K, v: Bytes,
                      rest: seq<Entry<K>>, at: nat, n: nat)
    requires s == before + [e] + ([Entry(k, v)] + rest) && at == |before|
    requires t == before + [Entry(k, CopyBytes(e.value, v, n))] + rest
    ensures at + 1 < |s| && s[at] == e && s[at + 1] == Entry(k, v) && t == SuccessorMoved(s, at, n)
  {
    assert s[..at] == before;
    assert s[at + 1] == Entry(k, v);
    assert s[at + 2..] == rest;
  }

  /** What rb_tree_remove leaves behind is still ordered and holds one key fewer. */
  lemma SplicedKeys<K(!new)>(cmp: (K, K) -> int, s: seq<Entry<K>>, at: nat, n: nat, merged: bool, key: K, t: seq<Entry<K>>)
    requires TotalOrder(cmp) && Sorted(cmp, s) && at < |s| && (merged ==> at + 1 < |s|) && s[at].key == key
    requires t == Spliced(s, at, n, merged)
    ensures Sorted(cmp, t) && |t| == |s| - 1
    ensures key in ToMap(s) && ToMap(t).Keys == ToMap(s).Keys - {key}
  {
    var u := s[..at] + s[at + 1..];
    KeyPresent(s, at);
    RemoveAtMap(cmp, s, at);
    if merged {
      var m := Entry(s[at + 1].key, CopyBytes(s[at].value, s[at + 1].value, n));
      assert t == s[..at] + [m] + s[at + 2..];
      assert |t| == |u|;
      forall j | 0 <= j < |t| ensures t[j].key == u[j].key {
        if j < at {
          assert t[j] == s[j] && u[j] == s[j];
        } else if j == at {
          assert t[j] == m && u[j] == s[at + 1];
        } else {
          assert t[j] == s[j + 1] && u[j] == s[j + 1];
        }
      }
      SortedSameKeys(cmp, u, t);
      ToMapSameKeys(u, t);
    }
  }
}
