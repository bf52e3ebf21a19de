/**
 * Nodes of the red-black tree of rb_tree.c as immutable values.
 *
 * The C nodes carry parent pointers; here a position in the tree is a
 * zipper: the subtree under the position (the focus) together with the
 * path of frames from the focus up to the root, innermost frame first.
 * A frame is the parent node of the position with everything except the
 * child on the path.  "node->parent" is the first frame, "tree->root" is
 * what Plug rebuilds from a path and a focus.
 */
module RbNode {
  import opened Common
  import opened Ordered

  datatype Color = Red | Black

  datatype Tree<K> =
    | Nil
    | Node(color: Color, left: Tree<K>, key: K, value: Bytes, right: Tree<K>)

  /** A parent node seen from one of its children. */
  datatype Frame<K> = Frame(color: Color, key: K, value: Bytes, sibling: Tree<K>, focusLeft: bool)

  /** In-order key/value sequence of a subtree. */
  ghost function Entries<K>(t: Tree<K>): seq<Entry<K>>
  {
    match t
    case Nil => []
    case Node(_, l, k, v, r) => Entries(l) + [Entry(k, v)] + Entries(r)
  }

  function NodeCount<K>(t: Tree<K>): nat
  {
    match t
    case Nil => 0
    case Node(_, l, _, _, r) => NodeCount(l) + 1 + NodeCount(r)
  }

  lemma {:induction false} NodeCountEntries<K>(t: Tree<K>)
    ensures |Entries(t)| == NodeCount(t)
  {
    if t.Node? {
      NodeCountEntries(t.left);
      NodeCountEntries(t.right);
    }
  }

  /** A NULL child reads as black in the colour tests of rb_tree.c. */
  predicate IsRed<K>(t: Tree<K>)
  {
    t.Node? && t.color == Red
  }

  function Blacken<K>(t: Tree<K>): Tree<K>
  {
    if t.Node? then t.(color := Black) else t
  }

  /** Rule 4: a red node has no red child. */
  ghost predicate NoRedRed<K>(t: Tree<K>)
  {
    match t
    case Nil => true
    case Node(c, l, _, _, r) =>
      NoRedRed(l) && NoRedRed(r) && (c == Red ==> !IsRed(l) && !IsRed(r))
  }

  /** Number of black nodes on the leftmost path (NULL leaves not counted). */
  function BlackHeight<K>(t: Tree<K>): nat
  {
    match t
    case Nil => 0
    case Node(c, l, _, _, _) => BlackHeight(l) + (if c == Black then 1 else 0)
  }

  /** Rule 5: every path from a node down to a NULL leaf has the same number of black nodes. */
  ghost predicate BlackBalanced<K>(t: Tree<K>)
  {
    match t
    case Nil => true
    case Node(_, l, _, _, r) =>
      BlackBalanced(l) && BlackBalanced(r) && BlackHeight(l) == BlackHeight(r)
  }

  /** The red-black rules rb_tree_verify checks: black root, no red-red edge, equal black heights. */
  ghost predicate IsRedBlack<K>(t: Tree<K>)
  {
    !IsRed(t) && NoRedRed(t) && BlackBalanced(t)
  }

  /** The tree with every value erased: its keys, colours and links. */
  function Skeleton<K>(t: Tree<K>): Tree<K>
  {
    match t
    case Nil => Nil
    case Node(c, l, k, _, r) => Node(c, Skeleton(l), k, [], Skeleton(r))
  }

  /** create_node: a fresh node is red, with no children. */
  function NewNode<K>(key: K, value: Bytes): (n: Tree<K>)
    ensures IsRed(n) && NoRedRed(n) && BlackBalanced(n) && BlackHeight(n) == 0
    ensures Entries(n) == [Entry(key, value)]
  {
    Node(Red, Nil, key, value, Nil)
  }

  /** left_rotate: the right child y of x takes x's place and x becomes y's left child; colours are kept. */
  function RotateLeft<K>(t: Tree<K>): (r: Tree<K>)
    requires t.Node? && t.right.Node?
    ensures r.Node? && r.left.Node?
    ensures Entries(r) == Entries(t)
    ensures r.key == t.right.key && r.left.key == t.key && NodeCount(r) == NodeCount(t)
  {
    var y := t.right;
    Node(y.color, Node(t.color, t.left, t.key, t.value, y.left), y.key, y.value, y.right)
  }

  /** right_rotate: the mirror image of left_rotate. */
  function RotateRight<K>(t: Tree<K>): (r: Tree<K>)
    requires t.Node? && t.left.Node?
    ensures r.Node? && r.right.Node?
    ensures Entries(r) == Entries(t)
    ensures r.key == t.left.key && r.right.key == t.key && NodeCount(r) == NodeCount(t)
  {
    var x := t.left;
    Node(x.color, x.left, x.key, x.value, Node(t.color, x.right, t.key, t.value, t.right))
  }

  lemma RotationsInverse<K>(t: Tree<K>)
    requires t.Node? && t.right.Node?
    ensures RotateRight(RotateLeft(t)) == t
  {
  }

  // ---------------------------------------------------------------------------
  // The zipper: parent pointers as a path of frames.

  /** The parent node rebuilt around its child t. */
  function Attach<K>(f: Frame<K>, t: Tree<K>): Tree<K>
  {
    if f.focusLeft then Node(f.color, t, f.key, f.value, f.sibling)
    else Node(f.color, f.sibling, f.key, f.value, t)
  }

  /** The whole tree rebuilt from the focus and its path to the root. */
  function Plug<K>(path: seq<Frame<K>>, t: Tree<K>): Tree<K>
    decreases |path|
  {
    if path == [] then t else Plug(path[1..], Attach(path[0], t))
  }

  /** Entries of the plugged tree that come before the focus. */
  ghost function PathLeft<K>(path: seq<Frame<K>>): seq<Entry<K>>
    decreases |path|
  {
    if path == [] then []
    else PathLeft(path[1..]) +
         (if path[0].focusLeft then [] else Entries(path[0].sibling) + [Entry(path[0].key, path[0].value)])
  }

  /** Entries of the plugged tree that come after the focus. */
  ghost function PathRight<K>(path: seq<Frame<K>>): seq<Entry<K>>
    decreases |path|
  {
    if path == [] then []
    else (if path[0].focusLeft then [Entry(path[0].key, path[0].value)] + Entries(path[0].sibling) else []) +
         PathRight(path[1..])
  }

  lemma {:induction false} PlugEntries<K>(path: seq<Frame<K>>, t: Tree<K>)
    ensures Entries(Plug(path, t)) == PathLeft(path) + Entries(t) + PathRight(path)
    decreases |path|
  {
    if path != [] {
      var f := path[0];
      var l := if f.focusLeft then [] else Entries(f.sibling) + [Entry(f.key, f.value)];
      var r := if f.focusLeft then [Entry(f.key, f.value)] + Entries(f.sibling) else [];
      PlugEntries(path[1..], Attach(f, t));
      AttachEntries(f, t);
      Regroup5(PathLeft(path[1..]), l, Entries(t), r, PathRight(path[1..]));
    }
  }

  /** The entries of a parent rebuilt around its child. */
  lemma AttachEntries<K>(f: Frame<K>, t: Tree<K>)
    ensures Entries(Attach(f, t)) ==
              (if f.focusLeft then [] else Entries(f.sibling) + [Entry(f.key, f.value)]) + Entries(t) +
              (if f.focusLeft then [Entry(f.key, f.value)] + Entries(f.sibling) else [])
  {
    if f.focusLeft {
      EmptyMiddle([], Entries(t) + ([Entry(f.key, f.value)] + Entries(f.sibling)));
      SeqAssoc(Entries(t), [Entry(f.key, f.value)], Entries(f.sibling));
    }
  }

  lemma Regroup5<T>(a: seq<T>, b: seq<T>, c: seq<T>, d: seq<T>, e: seq<T>)
    ensures a + (b + c + d) + e == (a + b) + c + (d + e)
  {
  }

  lemma {:induction false} PlugAppend<K>(a: seq<Frame<K>>, b: seq<Frame<K>>, t: Tree<K>)
    ensures Plug(a + b, t) == Plug(b, Plug(a, t))
    decreases |a|
  {
    if a != [] {
      assert (a + b)[0] == a[0] && (a + b)[1..] == a[1..] + b;
      PlugAppend(a[1..], b, Attach(a[0], t));
    } else {
      assert a + b == b;
    }
  }

  /** The colour of the plugged root: the outermost frame's, or the focus's when the path is empty. */
  lemma {:induction false} PlugRoot<K>(path: seq<Frame<K>>, t: Tree<K>)
    requires path != [] || t.Node?
    ensures Plug(path, t).Node?
    ensures path != [] ==> Plug(path, t).color == path[|path| - 1].color
    ensures path == [] ==> Plug(path, t) == t
    decreases |path|
  {
    if path != [] {
      PlugRoot(path[1..], Attach(path[0], t));
    }
  }

  /** Changing only values under the focus leaves the skeleton of the whole tree unchanged. */
  lemma {:induction false} PlugSkeleton<K>(path: seq<Frame<K>>, a: Tree<K>, b: Tree<K>)
    requires Skeleton(a) == Skeleton(b)
    ensures Skeleton(Plug(path, a)) == Skeleton(Plug(path, b))
    decreases |path|
  {
    if path != [] {
      PlugSkeleton(path[1..], Attach(path[0], a), Attach(path[0], b));
    }
  }

  // ---------------------------------------------------------------------------
  // Colour rules of a plugged tree, stated frame by frame.

  /** No red-red edge along the path, given whether the focus is red. */
  ghost predicate PathNoRedRed<K>(path: seq<Frame<K>>, focusRed: bool)
    decreases |path|
  {
    path == [] ||
    (&& NoRedRed(path[0].sibling)
     && (path[0].color == Red ==> !focusRed && !IsRed(path[0].sibling))
     && PathNoRedRed(path[1..], path[0].color == Red))
  }

  /** Every sibling on the path is balanced with the black height the focus has at its level. */
  ghost predicate PathBalanced<K>(path: seq<Frame<K>>, h: nat)
    decreases |path|
  {
    path == [] ||
    (&& BlackBalanced(path[0].sibling)
     && BlackHeight(path[0].sibling) == h
     && PathBalanced(path[1..], h + (if path[0].color == Black then 1 else 0)))
  }

  lemma {:induction false} PlugNoRedRed<K>(path: seq<Frame<K>>, t: Tree<K>)
    ensures NoRedRed(Plug(path, t)) <==> NoRedRed(t) && PathNoRedRed(path, IsRed(t))
    decreases |path|
  {
    if path != [] {
      PlugNoRedRed(path[1..], Attach(path[0], t));
    }
  }

  lemma {:induction false} PlugBalanced<K>(path: seq<Frame<K>>, t: Tree<K>)
    ensures BlackBalanced(Plug(path, t)) <==> BlackBalanced(t) && PathBalanced(path, BlackHeight(t))
    decreases |path|
  {
    if path != [] {
      var f := path[0];
      PlugBalanced(path[1..], Attach(f, t));
      if BlackHeight(t) == BlackHeight(f.sibling) {
        assert BlackHeight(Attach(f, t)) == BlackHeight(t) + (if f.color == Black then 1 else 0);
      }
    }
  }

  /**
   * The state fix_insert keeps between iterations: the focus is red and
   * internally valid, and the tree would satisfy every red-black rule
   * except the colour of the root if the focus were black.  The only
   * possible red-red edge is the focus and its parent.
   */
  ghost predicate AlmostRedBlack<K>(path: seq<Frame<K>>, x: Tree<K>)
  {
    && IsRed(x) && NoRedRed(x) && BlackBalanced(x)
    && PathNoRedRed(path, false)
    && PathBalanced(path, BlackHeight(x))
  }

  /** Recolour case of fix_insert: parent and uncle turn black, the grandparent red and becomes the focus. */
  lemma RecolourStep<K>(path: seq<Frame<K>>, x: Tree<K>, nx: Tree<K>)
    requires |path| >= 2 && path[0].color == Red && IsRed(path[1].sibling)
    requires nx == Attach(path[1].(color := Red, sibling := Blacken(path[1].sibling)), Attach(path[0].(color := Black), x))
    requires AlmostRedBlack(path, x)
    ensures AlmostRedBlack(path[2..], nx)
  {
    assert path[2..] == path[1..][1..];
    var p, g := path[0], path[1];
    var h := BlackHeight(x);
    assert PathNoRedRed(path[1..], true);
    assert PathBalanced(path[1..], h);
    assert g.color == Black;
    assert PathNoRedRed(path[2..], false);
    assert PathBalanced(path[2..], h + 1);
    assert BlackHeight(nx) == h + 1;
  }

  lemma RecolourEntries<K>(path: seq<Frame<K>>, x: Tree<K>, nx: Tree<K>)
    requires |path| >= 2
    requires nx == Attach(path[1].(color := Red, sibling := Blacken(path[1].sibling)), Attach(path[0].(color := Black), x))
    ensures Entries(Plug(path[2..], nx)) == Entries(Plug(path, x))
  {
    assert path[2..] == path[1..][1..];
    var old2 := Attach(path[1], Attach(path[0], x));
    assert Plug(path, x) == Plug(path[2..], old2);
    assert Entries(nx) == Entries(old2);
    PlugEntries(path[2..], nx);
    PlugEntries(path[2..], old2);
  }

  /**
   * Rotation case of fix_insert when the parent is a left child: an inner
   * grandchild is first rotated outwards at the parent, then the parent
   * turns black, the grandparent red, and the grandparent is rotated right.
   * The focus ends as the left child of a black node.
   */
  lemma RotateRightStep<K>(path: seq<Frame<K>>, x: Tree<K>, sub: Tree<K>, top: Tree<K>)
    requires |path| >= 2 && path[0].color == Red && path[1].focusLeft && !IsRed(path[1].sibling)
    requires x.Node?
    requires sub == if path[0].focusLeft then Attach(path[0], x) else RotateLeft(Attach(path[0], x))
    requires top == RotateRight(Node(Red, Blacken(sub), path[1].key, path[1].value, path[1].sibling))
    requires AlmostRedBlack(path, x)
    ensures AlmostRedBlack([Frame(top.color, top.key, top.value, top.right, true)] + path[2..], top.left)
  {
    var np := [Frame(top.color, top.key, top.value, top.right, true)] + path[2..];
    assert np[1..] == path[2..] == path[1..][1..];
    var h := BlackHeight(x);
    assert PathNoRedRed(path[1..], true);
    assert PathBalanced(path[1..], h);
    assert path[1].color == Black;
    assert PathNoRedRed(path[2..], false);
    assert PathBalanced(path[2..], h + 1);
    assert BlackHeight(path[1].sibling) == h;
    assert BlackHeight(path[0].sibling) == h;
  }

  /** The mirror image of RotateRightStep, when the parent is a right child. */
  lemma RotateLeftStep<K>(path: seq<Frame<K>>, x: Tree<K>, sub: Tree<K>, top: Tree<K>)
    requires |path| >= 2 && path[0].color == Red && !path[1].focusLeft && !IsRed(path[1].sibling)
    requires x.Node?
    requires sub == if !path[0].focusLeft then Attach(path[0], x) else RotateRight(Attach(path[0], x))
    requires top == RotateLeft(Node(Red, path[1].sibling, path[1].key, path[1].value, Blacken(sub)))
    requires AlmostRedBlack(path, x)
    ensures AlmostRedBlack([Frame(top.color, top.key, top.value, top.left, false)] + path[2..], top.right)
  {
    var np := [Frame(top.color, top.key, top.value, top.left, false)] + path[2..];
    assert np[1..] == path[2..] == path[1..][1..];
    var h := BlackHeight(x);
    assert PathNoRedRed(path[1..], true);
    assert PathBalanced(path[1..], h);
    assert path[1].color == Black;
    assert PathNoRedRed(path[2..], false);
    assert PathBalanced(path[2..], h + 1);
    assert BlackHeight(path[1].sibling) == h;
    assert BlackHeight(path[0].sibling) == h;
  }

  /** Both rotation cases only rearrange: the in-order entries of the whole tree stay the same. */
  lemma RotateStepEntries<K>(path: seq<Frame<K>>, x: Tree<K>, top: Tree<K>, np: seq<Frame<K>>, nx: Tree<K>)
    requires |path| >= 2 && top.Node?
    requires Entries(top) == Entries(Attach(path[1], Attach(path[0], x)))
    requires np == [Frame(top.color, top.key, top.value, if path[1].focusLeft then top.right else top.left, path[1].focusLeft)] + path[2..]
    requires nx == if path[1].focusLeft then top.left else top.right
    ensures Entries(Plug(np, nx)) == Entries(Plug(path, x))
  {
    assert path[2..] == path[1..][1..];
    assert np[1..] == path[2..];
    var old2 := Attach(path[1], Attach(path[0], x));
    assert Plug(path, x) == Plug(path[2..], old2);
    assert Attach(np[0], nx) == top;
    assert Plug(np, nx) == Plug(path[2..], top);
    PlugEntries(path[2..], top);
    PlugEntries(path[2..], old2);
  }

  /** The exit of fix_insert: when the parent is black (or the focus is the root), blackening the root yields a red-black tree. */
  lemma FixDone<K>(path: seq<Frame<K>>, x: Tree<K>)
    requires AlmostRedBlack(path, x)
    requires path == [] || path[0].color == Black
    ensures IsRedBlack(Blacken(Plug(path, x)))
  {
    PlugRoot(path, x);
    PlugNoRedRed(path, x);
    PlugBalanced(path, x);
    var t := Plug(path, x);
    assert NoRedRed(t) && BlackBalanced(t);
  }

  /** The start of fix_insert: a red leaf hung under a red-black tree satisfies the loop's state. */
  lemma FixStart<K>(path: seq<Frame<K>>, x: Tree<K>)
    requires IsRedBlack(Plug(path, Nil))
    requires IsRed(x) && x.left == Nil && x.right == Nil
    ensures AlmostRedBlack(path, x)
  {
    PlugNoRedRed(path, Nil);
    PlugBalanced(path, Nil);
  }

  // ---------------------------------------------------------------------------
  // verify_node

  /**
   * verify_node(node, black_height, &path_black_height): a pure check
   * returning whether the subtree passes and the black count at its leaves.
   * isRoot stands for "node->parent == NULL".
   */
  function VerifyNode<K>(t: Tree<K>, isRoot: bool, blackHeight: int): (int, int)
  {
    match t
    case Nil => (1, blackHeight)
    case Node(c, l, _, _, r) =>
      if isRoot && c != Black then (0, 0)
      else if c == Red && (IsRed(l) || IsRed(r)) then (0, 0)
      else
        var bh := if c == Black then blackHeight + 1 else blackHeight;
        var (okL, hl) := VerifyNode(l, false, bh);
        if okL == 0 then (0, 0)
        else
          var (okR, hr) := VerifyNode(r, false, bh);
          if okR == 0 then (0, 0)
          else if hl != hr then (0, 0)
          else (1, hl)
  }

  /** verify_node accepts exactly the subtrees that obey rules 4 and 5 (and rule 2 at the root). */
  lemma {:induction false} VerifyNodeCorrect<K>(t: Tree<K>, isRoot: bool, blackHeight: int)
    ensures VerifyNode(t, isRoot, blackHeight).0 == 1 <==>
              NoRedRed(t) && BlackBalanced(t) && (isRoot ==> !IsRed(t))
    ensures VerifyNode(t, isRoot, blackHeight).0 == 1 ==>
              VerifyNode(t, isRoot, blackHeight).1 == blackHeight + BlackHeight(t)
    ensures VerifyNode(t, isRoot, blackHeight).0 in {0, 1}
  {
    match t
    case Nil =>
    case Node(c, l, _, _, r) =>
      var bh := if c == Black then blackHeight + 1 else blackHeight;
      VerifyNodeCorrect(l, false, bh);
      VerifyNodeCorrect(r, false, bh);
  }

  // ---------------------------------------------------------------------------
  // The order of a tree, used by the searches.

  /** Entries of a node split around its own entry. */
  lemma EntriesNode<K>(t: Tree<K>)
    requires t.Node?
    ensures Entries(t) == Entries(t.left) + [Entry(t.key, t.value)] + Entries(t.right)
  {
  }

  /** The leftmost node of a subtree holds its first entry. */
  lemma {:induction false} LeftmostFirst<K>(t: Tree<K>)
    requires t.Node? && t.left == Nil
    ensures Entries(t) == [Entry(t.key, t.value)] + Entries(t.right)
  {
  }

  /** Keys, colours and shape decide the red-black rules; values play no part. */
  lemma {:induction false} SkeletonRedBlack<K>(a: Tree<K>, b: Tree<K>)
    requires Skeleton(a) == Skeleton(b)
    ensures IsRed(a) == IsRed(b) && BlackHeight(a) == BlackHeight(b)
    ensures NoRedRed(a) == NoRedRed(b) && BlackBalanced(a) == BlackBalanced(b)
  {
    if a.Node? {
      SkeletonRedBlack(a.left, b.left);
      SkeletonRedBlack(a.right, b.right);
    }
  }

  /** The entries of a plugged tree, split around the focus node's own entry. */
  lemma PlugSplit<K>(path: seq<Frame<K>>, n: Tree<K>)
    requires n.Node?
    ensures Entries(Plug(path, n)) ==
              (PathLeft(path) + Entries(n.left)) + [Entry(n.key, n.value)] + (Entries(n.right) + PathRight(path))
  {
    PlugEntries(path, n);
  }

  /** In a sorted tree the focus key lies above everything before it and below everything after it. */
  lemma FocusOrder<K(!new)>(cmp: (K, K) -> int, path: seq<Frame<K>>, n: Tree<K>)
    requires n.Node? && Sorted(cmp, Entries(Plug(path, n)))
    ensures AllBelow(cmp, PathLeft(path) + Entries(n.left), n.key)
    ensures AllAbove(cmp, Entries(n.right) + PathRight(path), n.key)
  {
    PlugSplit(path, n);
    SortedSplit(cmp, PathLeft(path) + Entries(n.left), Entry(n.key, n.value), Entries(n.right) + PathRight(path));
  }

  /** The entries around the focus after stepping to its left child. */
  lemma StepLeftPaths<K>(path: seq<Frame<K>>, n: Tree<K>)
    requires n.Node?
    ensures var np := [Frame(n.color, n.key, n.value, n.right, true)] + path;
            PathLeft(np) == PathLeft(path) &&
            PathRight(np) == [Entry(n.key, n.value)] + (Entries(n.right) + PathRight(path))
  {
    var np := [Frame(n.color, n.key, n.value, n.right, true)] + path;
    assert np[1..] == path;
  }

  /** The entries around the focus after stepping to its right child. */
  lemma StepRightPaths<K>(path: seq<Frame<K>>, n: Tree<K>)
    requires n.Node?
    ensures var np := [Frame(n.color, n.key, n.value, n.left, false)] + path;
            PathRight(np) == PathRight(path) &&
            PathLeft(np) == (PathLeft(path) + Entries(n.left)) + [Entry(n.key, n.value)]
  {
    var np := [Frame(n.color, n.key, n.value, n.left, false)] + path;
    assert np[1..] == path;
  }

  /** A probe below an entry's key is below everything above that key, the entry included. */
  lemma AboveExtend<K(!new)>(cmp: (K, K) -> int, e: Entry<K>, after: seq<Entry<K>>, k: K)
    requires TotalPreorder(cmp) && AllAbove(cmp, after, e.key) && cmp(k, e.key) < 0
    ensures AllAbove(cmp, [e] + after, k)
  {
    forall i | 0 <= i < |[e] + after| ensures cmp(k, ([e] + after)[i].key) < 0 {
      if i > 0 {
        LessTransitive(cmp, k, e.key, after[i - 1].key);
      }
    }
  }

  /** The mirror image of AboveExtend. */
  lemma BelowExtend<K(!new)>(cmp: (K, K) -> int, before: seq<Entry<K>>, e: Entry<K>, k: K)
    requires TotalPreorder(cmp) && AllBelow(cmp, before, e.key) && cmp(e.key, k) < 0
    ensures AllBelow(cmp, before + [e], k)
  {
    forall i | 0 <= i < |before + [e]| ensures cmp((before + [e])[i].key, k) < 0 {
      if i < |before| {
        LessTransitive(cmp, before[i].key, e.key, k);
      }
    }
  }

  /**
   * One step left in a descent from the root: when the probe k lies between
   * everything before the focus and everything after it, and k is below the
   * focus key, it still does with the left child as the focus.
   */
  lemma DescendLeft<K(!new)>(cmp: (K, K) -> int, path: seq<Frame<K>>, n: Tree<K>, k: K)
    requires TotalOrder(cmp) && n.Node?
    requires AllAbove(cmp, Entries(n.right) + PathRight(path), n.key)
    requires AllBelow(cmp, PathLeft(path), k) && AllAbove(cmp, PathRight(path), k)
    requires cmp(k, n.key) < 0
    ensures AllBelow(cmp, PathLeft([Frame(n.color, n.key, n.value, n.right, true)] + path), k)
    ensures AllAbove(cmp, PathRight([Frame(n.color, n.key, n.value, n.right, true)] + path), k)
  {
    StepLeftPaths(path, n);
    AboveExtend(cmp, Entry(n.key, n.value), Entries(n.right) + PathRight(path), k);
  }

  /** The mirror image of DescendLeft. */
  lemma DescendRight<K(!new)>(cmp: (K, K) -> int, path: seq<Frame<K>>, n: Tree<K>, k: K)
    requires TotalOrder(cmp) && n.Node?
    requires AllBelow(cmp, PathLeft(path) + Entries(n.left), n.key)
    requires AllBelow(cmp, PathLeft(path), k) && AllAbove(cmp, PathRight(path), k)
    requires cmp(k, n.key) > 0
    ensures AllBelow(cmp, PathLeft([Frame(n.color, n.key, n.value, n.left, false)] + path), k)
    ensures AllAbove(cmp, PathRight([Frame(n.color, n.key, n.value, n.left, false)] + path), k)
  {
    StepRightPaths(path, n);
    assert cmp(n.key, k) < 0;
    BelowExtend(cmp, PathLeft(path) + Entries(n.left), Entry(n.key, n.value), k);
  }

  /** A path that only ever went left has nothing before the focus. */
  lemma {:induction false} LeftPathLeft<K>(path: seq<Frame<K>>)
    requires forall i :: 0 <= i < |path| ==> path[i].focusLeft
    ensures PathLeft(path) == []
    decreases |path|
  {
    if path != [] {
      LeftPathLeft(path[1..]);
    }
  }

  // ---------------------------------------------------------------------------
  // rb_tree_clear

  /**
   * The keys rb_tree_clear frees, in order.  A node without a left child is
   * freed and the walk moves to its right child; otherwise the left child
   * is rotated above the current node, the walk stays on the current node,
   * and the promoted node with its left subtree is never visited again.
   */
  ghost function ClearFreed<K>(t: Tree<K>): seq<K>
    decreases NodeCount(t)
  {
    match t
    case Nil => []
    case Node(c, l, k, v, r) =>
      if l == Nil then [k] + ClearFreed(r)
      else
        assert NodeCount(l) == NodeCount(l.left) + 1 + NodeCount(l.right);
        ClearFreed(Node(c, l.right, k, v, r))
  }

  /** The keys of a sequence of entries. */
  ghost function Keys<K>(s: seq<Entry<K>>): (ks: seq<K>)
    ensures |ks| == |s| && forall i :: 0 <= i < |s| ==> ks[i] == s[i].key
  {
    if s == [] then [] else [s[0].key] + Keys(s[1..])
  }

  /** rb_tree_clear frees nothing that was not in the tree, and at most one key per node. */
  lemma {:induction false} ClearFreedSubsequence<K>(t: Tree<K>)
    ensures |ClearFreed(t)| <= NodeCount(t)
    ensures forall i :: 0 <= i < |ClearFreed(t)| ==> ClearFreed(t)[i] in Keys(Entries(t))
    decreases NodeCount(t)
  {
    match t
    case Nil =>
    case Node(c, l, k, v, r) =>
      if l == Nil {
        ClearFreedSubsequence(r);
        assert Entries(t) == [Entry(k, v)] + Entries(r);
        KeysConcat([Entry(k, v)], Entries(r));
      } else {
        var t2 := Node(c, l.right, k, v, r);
        assert NodeCount(l) == NodeCount(l.left) + 1 + NodeCount(l.right);
        ClearFreedSubsequence(t2);
        ClearPromotedEntries(t, t2);
        KeysConcat(Entries(l.left) + [Entry(l.key, l.value)], Entries(t2));
      }
  }

  /** Rotating the left child up and forgetting it leaves the entries after it. */
  lemma ClearPromotedEntries<K>(t: Tree<K>, t2: Tree<K>)
    requires t.Node? && t.left.Node? && t2 == Node(t.color, t.left.right, t.key, t.value, t.right)
    ensures Entries(t) == (Entries(t.left.left) + [Entry(t.left.key, t.left.value)]) + Entries(t2)
  {
  }

  /** A root with a single left child: rb_tree_clear frees the root only. */
  lemma ClearLeaksPromoted<K>(lk: K, lv: Bytes, k: K, v: Bytes)
    ensures var t := Node(Black, Node(Red, Nil, lk, lv, Nil), k, v, Nil);
            ClearFreed(t) == [k] && Keys(Entries(t)) == [lk, k]
  {
    var t := Node(Black, Node(Red, Nil, lk, lv, Nil), k, v, Nil);
    assert ClearFreed(t) == ClearFreed(Node(Black, Nil, k, v, Nil)) == [k];
  }

  /** Nodes on the left spine below the root, the measure of the intended clear's rotations. */
  function LeftWeight<K>(t: Tree<K>): nat
  {
    if t.Node? then NodeCount(t.left) else 0
  }

  /**
   * The evidently intended clear: after rotating the left child up, the walk
   * moves onto the promoted node, so every node is eventually freed.
   */
  ghost function ClearAllFreed<K>(t: Tree<K>): seq<K>
    decreases NodeCount(t), LeftWeight(t)
  {
    match t
    case Nil => []
    case Node(c, l, k, v, r) =>
      if l == Nil then [k] + ClearAllFreed(r)
      else ClearAllFreed(RotateRight(t))
  }

  /** The intended clear frees every key of the tree, in order. */
  lemma {:induction false} ClearAllFreesAll<K>(t: Tree<K>)
    ensures ClearAllFreed(t) == Keys(Entries(t))
    decreases NodeCount(t), LeftWeight(t)
  {
    match t
    case Nil =>
    case Node(c, l, k, v, r) =>
      if l == Nil {
        ClearAllFreesAll(r);
        assert Entries(t) == [Entry(k, v)] + Entries(r);
        KeysConcat([Entry(k, v)], Entries(r));
      } else {
        ClearAllFreesAll(RotateRight(t));
      }
  }

  lemma KeysConcat<K>(a: seq<Entry<K>>, b: seq<Entry<K>>)
    ensures Keys(a + b) == Keys(a) + Keys(b)
  {
  }
}
