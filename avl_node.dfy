/**
 * The nodes of avl_tree.c as values: a node holds its key, its value
 * buffer, its stored height and two children.  update_height, the two
 * rotations, balance_node and insert_recursive each return the root of
 * the subtree they rebuild, so each is a function from the old subtree to
 * the new one.
 */
module AvlNode {
  import opened Common
  import opened Ordered

  datatype Tree<K> = Nil | Node(left: Tree<K>, key: K, value: Bytes, height: nat, right: Tree<K>)

  /** The in-order entries of a subtree. */
  ghost function Entries<K>(t: Tree<K>): seq<Entry<K>>
  {
    if t.Nil? then [] else Entries(t.left) + [Entry(t.key, t.value)] + Entries(t.right)
  }

  /** The in-order keys of a subtree. */
  ghost function Keys<K>(t: Tree<K>): (ks: seq<K>)
    ensures |ks| == |Entries(t)|
    ensures forall i :: 0 <= i < |ks| ==> ks[i] == Entries(t)[i].key
  {
    if t.Nil? then [] else Keys(t.left) + [t.key] + Keys(t.right)
  }

  /** height(): the height stored in a node, 0 for NULL. */
  function Height<K>(t: Tree<K>): nat
  {
    if t.Nil? then 0 else t.height
  }

  /** balance_factor(): left height minus right height, 0 for NULL. */
  function BalanceFactor<K>(t: Tree<K>): int
  {
    if t.Nil? then 0 else Height(t.left) - Height(t.right)
  }

  /** Every stored height is one more than the larger stored height of the children. */
  predicate Exact<K>(t: Tree<K>)
  {
    t.Node? ==> Exact(t.left) && Exact(t.right) && t.height == 1 + Max(Height(t.left), Height(t.right))
  }

  /** verify_recursive(): every node's balance factor, read from stored heights, is -1, 0 or 1. */
  predicate Balanced<K>(t: Tree<K>)
  {
    t.Node? ==> -1 <= BalanceFactor(t) <= 1 && Balanced(t.left) && Balanced(t.right)
  }

  /** The AVL shape: exact stored heights and balance at every node. */
  predicate Avl<K>(t: Tree<K>)
  {
    Exact(t) && Balanced(t)
  }

  /** The tree with every value buffer emptied: keys, heights and links only. */
  function Skeleton<K>(t: Tree<K>): Tree<K>
  {
    if t.Nil? then Nil else Node(Skeleton(t.left), t.key, [], t.height, Skeleton(t.right))
  }

  /**
   * update_height(): the node's height becomes the least height above both
   * children.  NULL is left alone.
   */
  function UpdateHeight<K>(t: Tree<K>): (r: Tree<K>)
    ensures r.Nil? <==> t.Nil?
    ensures Entries(r) == Entries(t)
    ensures t.Node? ==> Height(r) > Height(t.left) && Height(r) > Height(t.right)
    ensures t.Node? ==> Height(r) == Height(t.left) + 1 || Height(r) == Height(t.right) + 1
    ensures t.Node? && Exact(t.left) && Exact(t.right) ==> Exact(r)
  {
    if t.Nil? then t else t.(height := Max(Height(t.left), Height(t.right)) + 1)
  }

  /**
   * rotate_right(): the left child x rises above y, y takes x's right
   * subtree as its left one, and both heights are recomputed, y first.
   */
  function RotateRight<K>(y: Tree<K>): (r: Tree<K>)
    requires y.Node? && y.left.Node?
    ensures r.Node? && r.right.Node?
    ensures Entries(r) == Entries(y)
    ensures Exact(y.left.left) && Exact(y.left.right) && Exact(y.right) ==> Exact(r)
  {
    var x := y.left;
    var y' := UpdateHeight(y.(left := x.right));
    Regroup(Entries(x.left), Entry(x.key, x.value), Entries(x.right), Entry(y.key, y.value), Entries(y.right));
    UpdateHeight(x.(right := y'))
  }

  /**
   * rotate_left(): the right child y rises above x, x takes y's left
   * subtree as its right one, and both heights are recomputed, x first.
   */
  function RotateLeft<K>(x: Tree<K>): (r: Tree<K>)
    requires x.Node? && x.right.Node?
    ensures r.Node? && r.left.Node?
    ensures Entries(r) == Entries(x)
    ensures Exact(x.left) && Exact(x.right.left) && Exact(x.right.right) ==> Exact(r)
  {
    var y := x.right;
    var x' := UpdateHeight(x.(right := y.left));
    Regroup(Entries(x.left), Entry(x.key, x.value), Entries(y.left), Entry(y.key, y.value), Entries(y.right));
    UpdateHeight(y.(left := x'))
  }

  lemma Regroup<T>(a: seq<T>, x: T, b: seq<T>, y: T, c: seq<T>)
    ensures a + [x] + b + [y] + c == a + [x] + (b + [y] + c)
  {
  }

  /** On a subtree with exact heights the two rotations undo each other. */
  lemma RotationsInverse<K>(t: Tree<K>)
    requires Exact(t)
    ensures t.Node? && t.left.Node? ==> RotateLeft(RotateRight(t)) == t
    ensures t.Node? && t.right.Node? ==> RotateRight(RotateLeft(t)) == t
  {
  }

  /**
   * balance_node(): after refreshing the node's height, a left-heavy node
   * (factor above 1) is rotated right, first rotating its left child left
   * when that child leans right; a right-heavy node symmetrically.
   */
  function BalanceNode<K>(t: Tree<K>): (r: Tree<K>)
    ensures r.Nil? <==> t.Nil?
    ensures Entries(r) == Entries(t)
  {
    if t.Nil? then Nil
    else
      var u := UpdateHeight(t);
      if BalanceFactor(u) > 1 then
        RotateRight(if BalanceFactor(u.left) < 0 then u.(left := RotateLeft(u.left)) else u)
      else if BalanceFactor(u) < -1 then
        RotateLeft(if BalanceFactor(u.right) > 0 then u.(right := RotateRight(u.right)) else u)
      else u
  }

  /**
   * Given AVL children whose heights differ by at most 2, balance_node
   * returns an AVL subtree as high as the higher child or one more; when
   * the children already differ by at most 1 it rotates nothing and the
   * node is one above the higher child.
   */
  lemma BalanceNodeAvl<K>(t: Tree<K>)
    requires t.Node? && Avl(t.left) && Avl(t.right)
    requires -2 <= Height(t.left) - Height(t.right) <= 2
    ensures Avl(BalanceNode(t))
    ensures var m := Max(Height(t.left), Height(t.right));
            m <= Height(BalanceNode(t)) <= m + 1
    ensures -1 <= Height(t.left) - Height(t.right) <= 1 ==>
              BalanceNode(t) == t.(height := 1 + Max(Height(t.left), Height(t.right)))
  {
    var u := UpdateHeight(t);
    if BalanceFactor(u) > 1 {
      LeftHeavy(u);
    } else if BalanceFactor(u) < -1 {
      RightHeavy(u);
    }
  }

  lemma LeftHeavy<K>(u: Tree<K>)
    requires u.Node? && Avl(u.left) && Avl(u.right) && Height(u.left) == Height(u.right) + 2
    ensures u.left.Node?
    ensures var v := if BalanceFactor(u.left) < 0 then u.(left := RotateLeft(u.left)) else u;
            v.left.Node? && Avl(RotateRight(v)) &&
            Height(u.left) <= Height(RotateRight(v)) <= Height(u.left) + 1
  {
    var l := u.left;
    if BalanceFactor(l) < 0 {
      var lr := l.right;
      assert lr.Node? && Avl(lr) && Avl(l.left);
      assert Avl(lr.left) && Avl(lr.right);
      var a := UpdateHeight(l.(right := lr.left));
      var b := UpdateHeight(u.(left := lr.right));
      JoinAvl(l.(right := lr.left));
      JoinAvl(u.(left := lr.right));
      JoinAvl(lr.(left := a, right := b));
      assert RotateRight(u.(left := RotateLeft(l))) == UpdateHeight(lr.(left := a, right := b));
    } else {
      assert Avl(l.left) && Avl(l.right);
      var b := UpdateHeight(u.(left := l.right));
      JoinAvl(u.(left := l.right));
      JoinAvl(l.(right := b));
      assert RotateRight(u) == UpdateHeight(l.(right := b));
    }
  }

  lemma RightHeavy<K>(u: Tree<K>)
    requires u.Node? && Avl(u.left) && Avl(u.right) && Height(u.right) == Height(u.left) + 2
    ensures u.right.Node?
    ensures var v := if BalanceFactor(u.right) > 0 then u.(right := RotateRight(u.right)) else u;
            v.right.Node? && Avl(RotateLeft(v)) &&
            Height(u.right) <= Height(RotateLeft(v)) <= Height(u.right) + 1
  {
    var r := u.right;
    if BalanceFactor(r) > 0 {
      var rl := r.left;
      assert rl.Node? && Avl(rl) && Avl(r.right);
      assert Avl(rl.left) && Avl(rl.right);
      var a := UpdateHeight(u.(right := rl.left));
      var b := UpdateHeight(r.(left := rl.right));
      JoinAvl(u.(right := rl.left));
      JoinAvl(r.(left := rl.right));
      JoinAvl(rl.(left := a, right := b));
      assert RotateLeft(u.(right := RotateRight(r))) == UpdateHeight(rl.(left := a, right := b));
    } else {
      assert Avl(r.left) && Avl(r.right);
      var a := UpdateHeight(u.(right := r.left));
      JoinAvl(u.(right := r.left));
      JoinAvl(r.(left := a));
      assert RotateLeft(u) == UpdateHeight(r.(left := a));
    }
  }

  /** A node over two AVL children at most one level apart is AVL once its height is refreshed. */
  lemma JoinAvl<K>(t: Tree<K>)
    requires t.Node? && Avl(t.left) && Avl(t.right) && -1 <= Height(t.left) - Height(t.right) <= 1
    ensures Avl(UpdateHeight(t))
  {
  }

  /** balance_node changes nothing on a subtree that is already AVL. */
  lemma BalanceNodeIdentity<K>(t: Tree<K>)
    requires Avl(t)
    ensures BalanceNode(t) == t
  {
    if t.Node? {
      assert UpdateHeight(t) == t;
    }
  }

  /**
   * insert_recursive(): descend by the comparator; at a NULL child hang a
   * new leaf of height 1 (or nothing, when its allocation fails); on an
   * equal key copy the new value over the old buffer and return at once;
   * on the way back up rebalance every node passed.
   */
  function InsertRec<K>(cmp: (K, K) -> int, t: Tree<K>, key: K, value: Bytes, allocOk: bool): (r: Tree<K>)
    ensures t.Node? || allocOk ==> r.Node?
    decreases t
  {
    if t.Nil? then
      (if allocOk then Node(Nil, key, value, 1, Nil) else Nil)
    else
      var c := cmp(key, t.key);
      if c < 0 then BalanceNode(t.(left := InsertRec(cmp, t.left, key, value, allocOk)))
      else if c > 0 then BalanceNode(t.(right := InsertRec(cmp, t.right, key, value, allocOk)))
      else t.(value := CopyBytes(t.value, value, |value|))
  }

  /**
   * Whether the copy insert_recursive makes on an equal key stays inside
   * the old value buffer: the same descent as InsertRec, true when it ends
   * at a NULL child.  When it is false the C memcpy writes past the old
   * buffer and the run is undefined.
   */
  function InsertFits<K>(cmp: (K, K) -> int, t: Tree<K>, key: K, value: Bytes): bool
    decreases t
  {
    if t.Nil? then true
    else
      var c := cmp(key, t.key);
      if c < 0 then InsertFits(cmp, t.left, key, value)
      else if c > 0 then InsertFits(cmp, t.right, key, value)
      else CopyFits(t.value, value, |value|)
  }

  /** The descent finds the stored value of the key, if any: the copy overruns exactly when that value is shorter. */
  lemma {:induction false} InsertFitsLookup<K(!new)>(cmp: (K, K) -> int, t: Tree<K>, key: K, value: Bytes)
    requires TotalOrder(cmp) && Sorted(cmp, Entries(t))
    ensures InsertFits(cmp, t, key, value) <==>
              key !in ToMap(Entries(t)) || CopyFits(ToMap(Entries(t))[key], value, |value|)
    decreases t
  {
    if t.Node? {
      var a, e, b := Entries(t.left), Entry(t.key, t.value), Entries(t.right);
      SortedSplit(cmp, a, e, b);
      LookupSplit(cmp, a, e, b, key);
      var c := cmp(key, t.key);
      if c < 0 {
        InsertFitsLookup(cmp, t.left, key, value);
      } else if c > 0 {
        InsertFitsLookup(cmp, t.right, key, value);
      }
    } else {
      assert ToMap(Entries(t)) == map[];
    }
  }

  /**
   * The entries insert_recursive leaves: the upsert of the key, except that
   * a new key whose leaf cannot be allocated leaves the entries as they
   * were.
   */
  lemma {:induction false} InsertEntries<K(!new)>(cmp: (K, K) -> int, t: Tree<K>, key: K, value: Bytes, allocOk: bool)
    requires TotalOrder(cmp) && Sorted(cmp, Entries(t))
    ensures Entries(InsertRec(cmp, t, key, value, allocOk)) ==
              if allocOk || key in ToMap(Entries(t)) then Upsert(cmp, Entries(t), key, value) else Entries(t)
    decreases t
  {
    if t.Node? {
      var a, e, b := Entries(t.left), Entry(t.key, t.value), Entries(t.right);
      SortedSplit(cmp, a, e, b);
      LookupSplit(cmp, a, e, b, key);
      LookupIn(Entries(t), key);
      var c := cmp(key, t.key);
      if c < 0 {
        LookupIn(a, key);
        InsertEntries(cmp, t.left, key, value, allocOk);
        UpsertLeftOf(cmp, a, e, b, key, value);
      } else if c > 0 {
        LookupIn(b, key);
        InsertEntries(cmp, t.right, key, value, allocOk);
        UpsertRightOf(cmp, a, e, b, key, value);
      } else {
        UpsertAt(cmp, a, e, b, key, value);
      }
    } else {
      assert ToMap(Entries(t)) == map[];
    }
  }

  lemma LookupIn<K>(s: seq<Entry<K>>, k: K)
    ensures Lookup(s, k).Some? <==> k in ToMap(s)
  {
  }

  /** Upserting a key below e into a + [e] + b only touches a. */
  lemma UpsertLeftOf<K(!new)>(cmp: (K, K) -> int, a: seq<Entry<K>>, e: Entry<K>, b: seq<Entry<K>>, k: K, v: Bytes)
    requires TotalOrder(cmp) && AllAbove(cmp, b, e.key) && cmp(k, e.key) < 0
    ensures Upsert(cmp, a + [e] + b, k, v) == Upsert(cmp, a, k, v) + [e] + b
  {
    forall i | 0 <= i < |b| ensures cmp(k, b[i].key) < 0 {
      LessTransitive(cmp, k, e.key, b[i].key);
    }
    assert AllAbove(cmp, [e] + b, k) by {
      forall i | 0 <= i < |[e] + b| ensures cmp(k, ([e] + b)[i].key) < 0 {
        if i > 0 {
          assert ([e] + b)[i] == b[i - 1];
        }
      }
    }
    SeqAssoc(a, [e], b);
    UpsertBeforeSuffix(cmp, a, [e] + b, k, v);
    SeqAssoc(Upsert(cmp, a, k, v), [e], b);
  }

  /** Upserting a key above e into a + [e] + b only touches b. */
  lemma UpsertRightOf<K(!new)>(cmp: (K, K) -> int, a: seq<Entry<K>>, e: Entry<K>, b: seq<Entry<K>>, k: K, v: Bytes)
    requires TotalOrder(cmp) && AllBelow(cmp, a, e.key) && cmp(k, e.key) > 0
    ensures Upsert(cmp, a + [e] + b, k, v) == a + [e] + Upsert(cmp, b, k, v)
  {
    forall i | 0 <= i < |a| ensures cmp(a[i].key, k) < 0 {
      assert cmp(e.key, k) < 0;
      LessTransitive(cmp, a[i].key, e.key, k);
    }
    assert AllBelow(cmp, a + [e], k) by {
      forall i | 0 <= i < |a + [e]| ensures cmp((a + [e])[i].key, k) < 0 {
        if i < |a| {
          assert (a + [e])[i] == a[i];
        }
      }
    }
    UpsertAfterPrefix(cmp, a + [e], b, k, v);
  }

  /** Upserting e's own key into a + [e] + b copies the value over e's buffer. */
  lemma UpsertAt<K(!new)>(cmp: (K, K) -> int, a: seq<Entry<K>>, e: Entry<K>, b: seq<Entry<K>>, k: K, v: Bytes)
    requires TotalOrder(cmp) && AllBelow(cmp, a, e.key) && cmp(k, e.key) == 0
    ensures Upsert(cmp, a + [e] + b, k, v) == a + [Entry(e.key, CopyBytes(e.value, v, |v|))] + b
  {
    assert k == e.key;
    UpsertAfterPrefix(cmp, a, [e] + b, k, v);
    SeqAssoc(a, [e], b);
    var u := Upsert(cmp, [e] + b, k, v);
    assert ([e] + b)[0] == e && ([e] + b)[1..] == b;
    assert u == [Entry(e.key, CopyBytes(e.value, v, |v|))] + b;
    SeqAssoc(a, [Entry(e.key, CopyBytes(e.value, v, |v|))], b);
  }

  /**
   * insert_recursive keeps an AVL subtree AVL, and the subtree grows by at
   * most one level.
   */
  lemma {:induction false} InsertAvl<K>(cmp: (K, K) -> int, t: Tree<K>, key: K, value: Bytes, allocOk: bool)
    requires Avl(t)
    ensures Avl(InsertRec(cmp, t, key, value, allocOk))
    ensures Height(t) <= Height(InsertRec(cmp, t, key, value, allocOk)) <= Height(t) + 1
    decreases t
  {
    if t.Node? {
      var c := cmp(key, t.key);
      if c < 0 {
        InsertAvl(cmp, t.left, key, value, allocOk);
        BalanceNodeAvl(t.(left := InsertRec(cmp, t.left, key, value, allocOk)));
      } else if c > 0 {
        InsertAvl(cmp, t.right, key, value, allocOk);
        BalanceNodeAvl(t.(right := InsertRec(cmp, t.right, key, value, allocOk)));
      }
    }
  }

  /**
   * Inserting a key the subtree already holds changes no key, height or
   * link: only the value buffer of that key's node.
   */
  lemma {:induction false} InsertPresent<K(!new)>(cmp: (K, K) -> int, t: Tree<K>, key: K, value: Bytes, allocOk: bool)
    requires TotalOrder(cmp) && Sorted(cmp, Entries(t)) && Avl(t)
    requires key in ToMap(Entries(t))
    ensures Skeleton(InsertRec(cmp, t, key, value, allocOk)) == Skeleton(t)
    decreases t
  {
    var a, e, b := Entries(t.left), Entry(t.key, t.value), Entries(t.right);
    SortedSplit(cmp, a, e, b);
    LookupSplit(cmp, a, e, b, key);
    LookupIn(Entries(t), key);
    var c := cmp(key, t.key);
    if c < 0 {
      LookupIn(a, key);
      var l := InsertRec(cmp, t.left, key, value, allocOk);
      InsertPresent(cmp, t.left, key, value, allocOk);
      InsertAvl(cmp, t.left, key, value, allocOk);
      SkeletonHeight(l, t.left);
      BalanceNodeIdentity(t.(left := l));
    } else if c > 0 {
      LookupIn(b, key);
      var r := InsertRec(cmp, t.right, key, value, allocOk);
      InsertPresent(cmp, t.right, key, value, allocOk);
      InsertAvl(cmp, t.right, key, value, allocOk);
      SkeletonHeight(r, t.right);
      BalanceNodeIdentity(t.(right := r));
    }
  }

  lemma SkeletonHeight<K>(s: Tree<K>, t: Tree<K>)
    requires Skeleton(s) == Skeleton(t)
    ensures Height(s) == Height(t)
  {
  }

  /**
   * The keys clear_recursive frees, in order: left subtree, right subtree,
   * then the node itself.
   */
  ghost function PostOrder<K>(t: Tree<K>): seq<K>
  {
    if t.Nil? then [] else PostOrder(t.left) + PostOrder(t.right) + [t.key]
  }

  /** clear_recursive frees every node exactly once. */
  lemma {:induction false} ClearFreesAll<K>(t: Tree<K>)
    ensures multiset(PostOrder(t)) == multiset(Keys(t))
  {
    if t.Node? {
      ClearFreesAll(t.left);
      ClearFreesAll(t.right);
    }
  }

  /**
   * verify_recursive reads only stored heights: a subtree with exact
   * heights passes it exactly when it is AVL, and it passes keys in any
   * order.
   */
  lemma VerifyIgnoresOrder()
    ensures var t := Node(Nil, 2, [], 2, Node(Nil, 1, [], 1, Nil));
            Avl(t) && !Sorted((a: int, b: int) => a - b, Entries(t))
  {
    var t := Node(Nil, 2, [], 2, Node(Nil, 1, [], 1, Nil));
    var cmp := (a: int, b: int) => a - b;
    assert Entries(t) == [Entry(2, []), Entry(1, [])];
    assert cmp(Entries(t)[0].key, Entries(t)[1].key) == 1;
  }
}
