/**
 * The skip list of skip_list.c.  The level-0 chain of nodes after the
 * header is modelled as a sequence; a node with level L sits on the chains
 * 0 .. L-1, so the chain at level i is the subsequence of nodes whose level
 * exceeds i, and every forward link is determined by the sequence (see
 * Forward).  A pointer to a node during a descent is modelled as the
 * position just after it, 0 standing for the header.  rand() is replaced
 * by the sequence of coin outcomes random_level draws.
 */
module SkipLists {
  import opened Common

  const MAX_LEVEL: nat := 16

  datatype Node<V> = Node(key: int32, value: V, level: nat)

  /** Keys strictly increase along the level-0 chain, and every node has 1 .. MAX_LEVEL forward links. */
  ghost predicate WellFormed<V>(nodes: seq<Node<V>>)
  {
    && (forall i, j :: 0 <= i < j < |nodes| ==> nodes[i].key < nodes[j].key)
    && (forall i :: 0 <= i < |nodes| ==> 1 <= nodes[i].level <= MAX_LEVEL)
  }

  /** The highest level of any node, 0 when there is none. */
  function TopLevel<V>(nodes: seq<Node<V>>): (r: nat)
    ensures forall j :: 0 <= j < |nodes| ==> nodes[j].level <= r
    ensures nodes != [] ==> exists j :: 0 <= j < |nodes| && nodes[j].level == r
    ensures nodes == [] ==> r == 0
  {
    if nodes == [] then 0 else Max(nodes[0].level, TopLevel(nodes[1..]))
  }

  /**
   * The forward link at level i of the node just before position p (the
   * header when p is 0): the position of the first node from p on that has
   * more than i levels, or |nodes| for NULL.
   */
  function Forward<V>(nodes: seq<Node<V>>, p: nat, i: nat): (f: nat)
    requires p <= |nodes|
    ensures p <= f <= |nodes|
    ensures f < |nodes| ==> nodes[f].level > i
    ensures forall j :: p <= j < f ==> nodes[j].level <= i
    decreases |nodes| - p
  {
    if p == |nodes| then p else if nodes[p].level > i then p else Forward(nodes, p + 1, i)
  }

  /** Skipping nodes that are not on level i does not change where the level-i link leads. */
  lemma {:induction false} ForwardSkip<V>(nodes: seq<Node<V>>, a: nat, b: nat, i: nat)
    requires a <= b <= |nodes|
    requires forall j :: a <= j < b ==> nodes[j].level <= i
    ensures Forward(nodes, a, i) == Forward(nodes, b, i)
    decreases b - a
  {
    if a < b {
      ForwardSkip(nodes, a + 1, b, i);
    }
  }

  /** The keys on the level-i chain, from the header on. */
  function Chain<V>(nodes: seq<Node<V>>, i: nat): (r: seq<int32>)
    ensures |r| <= |nodes|
  {
    if nodes == [] then []
    else (if nodes[0].level > i then [nodes[0].key] else []) + Chain(nodes[1..], i)
  }

  /** a can be obtained from b by leaving elements out. */
  predicate Subsequence(a: seq<int32>, b: seq<int32>)
    decreases |b|
  {
    a == [] || (b != [] && ((a[0] == b[0] && Subsequence(a[1..], b[1..])) || Subsequence(a, b[1..])))
  }

  /** Each chain is a subsequence of the chain one level below it. */
  lemma {:induction false} ChainNested<V>(nodes: seq<Node<V>>, i: nat)
    ensures Subsequence(Chain(nodes, i + 1), Chain(nodes, i))
  {
    if nodes != [] {
      ChainNested(nodes[1..], i);
      var a, b := Chain(nodes[1..], i + 1), Chain(nodes[1..], i);
      if nodes[0].level > i + 1 {
        assert Chain(nodes, i + 1) == [nodes[0].key] + a && Chain(nodes, i) == [nodes[0].key] + b;
        assert ([nodes[0].key] + a)[1..] == a && ([nodes[0].key] + b)[1..] == b;
      } else if nodes[0].level > i {
        assert Chain(nodes, i + 1) == a && Chain(nodes, i) == [nodes[0].key] + b;
        assert ([nodes[0].key] + b)[1..] == b;
      } else {
        assert Chain(nodes, i + 1) == a && Chain(nodes, i) == b;
      }
    }
  }

  /** The level-0 chain holds every node's key, in order, so size is its length. */
  lemma {:induction false} ChainBase<V>(nodes: seq<Node<V>>)
    requires WellFormed(nodes)
    ensures |Chain(nodes, 0)| == |nodes|
    ensures forall j :: 0 <= j < |nodes| ==> Chain(nodes, 0)[j] == nodes[j].key
  {
    if nodes != [] {
      assert WellFormed(nodes[1..]);
      ChainBase(nodes[1..]);
    }
  }

  /** Linear search of the level-0 chain: the value under key, or None. */
  function Find<V>(nodes: seq<Node<V>>, key: int32): (r: Option<V>)
    ensures r.None? <==> forall j :: 0 <= j < |nodes| ==> nodes[j].key != key
  {
    if nodes == [] then None
    else if nodes[0].key == key then Some(nodes[0].value)
    else Find(nodes[1..], key)
  }

  /** Searching a concatenation searches the first part, then the second. */
  lemma {:induction false} FindAppend<V>(a: seq<Node<V>>, b: seq<Node<V>>, key: int32)
    ensures Find(a + b, key) == if Find(a, key).Some? then Find(a, key) else Find(b, key)
  {
    if a == [] {
      assert a + b == b;
    } else {
      assert (a + b)[0] == a[0] && (a + b)[1..] == a[1..] + b;
      FindAppend(a[1..], b, key);
    }
  }

  /** In a sorted chain, the node at the lower-bound position p decides the search. */
  lemma FindAt<V>(nodes: seq<Node<V>>, p: nat, key: int32)
    requires WellFormed(nodes) && p <= |nodes|
    requires forall j :: 0 <= j < p ==> nodes[j].key < key
    requires forall j :: p <= j < |nodes| ==> nodes[j].key >= key
    ensures Find(nodes, key) == if p < |nodes| && nodes[p].key == key then Some(nodes[p].value) else None
  {
    if p < |nodes| && nodes[p].key == key {
      assert nodes == nodes[..p] + nodes[p..];
      FindAppend(nodes[..p], nodes[p..], key);
      assert nodes[p..][0] == nodes[p];
    }
  }

  /**
   * random_level: start at 1 and go up one level for each successful draw
   * (rand()/RAND_MAX below 0.5), stopping at the first failure or at
   * MAX_LEVEL.  coins lists the draws; a draw past its end fails.
   */
  method RandomLevel(coins: seq<bool>) returns (level: nat)
    ensures 1 <= level <= MAX_LEVEL
    ensures level - 1 <= |coins| && forall j :: 0 <= j < level - 1 ==> coins[j]
    ensures level < MAX_LEVEL ==> level - 1 >= |coins| || !coins[level - 1]
  {
    level := 1;
    while level - 1 < |coins| && coins[level - 1] && level < MAX_LEVEL
      invariant 1 <= level <= MAX_LEVEL
      invariant level - 1 <= |coins| && forall j :: 0 <= j < level - 1 ==> coins[j]
    {
      level := level + 1;
    }
  }

  /**
   * The inner loop of the descent at level i: from the node before p0,
   * follow level-i links while the next key is below key.  The nodes passed
   * over are not on any level above i + 1.
   */
  method Advance<V>(nodes: seq<Node<V>>, p0: nat, i: nat, key: int32) returns (p: nat)
    requires WellFormed(nodes) && p0 <= |nodes|
    requires forall j :: 0 <= j < p0 ==> nodes[j].key < key
    requires forall j :: p0 <= j < |nodes| && nodes[j].level > i + 1 ==> nodes[j].key >= key
    ensures p0 <= p <= |nodes|
    ensures forall j :: 0 <= j < p ==> nodes[j].key < key
    ensures forall j :: p <= j < |nodes| && nodes[j].level > i ==> nodes[j].key >= key
    ensures forall j :: p0 <= j < p ==> nodes[j].level <= i + 1
  {
    p := p0;
    while Forward(nodes, p, i) < |nodes| && nodes[Forward(nodes, p, i)].key < key
      invariant p0 <= p <= |nodes|
      invariant forall j :: 0 <= j < p ==> nodes[j].key < key
      invariant forall j :: p0 <= j < p ==> nodes[j].level <= i + 1
      decreases |nodes| - p
    {
      p := Forward(nodes, p, i) + 1;
    }
  }

  /**
   * The descent shared by insert, search and delete: from the header, at
   * each level from level-1 down to 0, follow forward links while the next
   * key is below key, and record in update[i] where level i stopped.  The
   * descent ends just before the first node whose key is not below key,
   * and each update[i] is the last node before that point on level i.
   */
  method Descend<V>(nodes: seq<Node<V>>, level: nat, key: int32) returns (p: nat, update: seq<nat>)
    requires WellFormed(nodes) && 1 <= level
    requires forall j :: 0 <= j < |nodes| ==> nodes[j].level <= level
    ensures p <= |nodes|
    ensures forall j :: 0 <= j < p ==> nodes[j].key < key
    ensures forall j :: p <= j < |nodes| ==> nodes[j].key >= key
    ensures |update| == level
    ensures forall i :: 0 <= i < level ==> update[i] <= p && Forward(nodes, update[i], i) == Forward(nodes, p, i)
  {
    p := 0;
    update := seq(level, _ => 0);
    var i := level;
    while i > 0
      invariant i <= level && p <= |nodes| && |update| == level
      invariant forall j :: 0 <= j < p ==> nodes[j].key < key
      invariant forall j :: p <= j < |nodes| && nodes[j].level > i ==> nodes[j].key >= key
      invariant forall l :: i <= l < level ==> update[l] <= p && Forward(nodes, update[l], l) == Forward(nodes, p, l)
    {
      i := i - 1;
      var p0 := p;
      p := Advance(nodes, p0, i, key);
      forall l | i < l < level
        ensures Forward(nodes, p0, l) == Forward(nodes, p, l)
      {
        ForwardSkip(nodes, p0, p, l);
      }
      update := update[i := p];
    }
  }

  /**
   * The chain is well formed and level is the highest level in use (1 when
   * no node reaches above level 1), so the header's link at level-1 is
   * non-NULL unless level is 1.
   */
  ghost predicate Leveled<V>(nodes: seq<Node<V>>, level: nat)
  {
    WellFormed(nodes) && level == Max(1, TopLevel(nodes))
  }

  /**
   * The work of skip_list_insert on the chain and the list level: an
   * existing key gets the new value (0); otherwise a node with the level
   * random_level draws is linked in at its sorted place and the list level
   * rises to that level if it is higher (1).
   */
  method InsertNode<V>(nodes: seq<Node<V>>, level: nat, key: int32, value: V, coins: seq<bool>)
    returns (r: int, t: seq<Node<V>>, newLevel: nat)
    requires Leveled(nodes, level)
    ensures Leveled(t, newLevel)
    ensures r == (if Find(nodes, key).Some? then 0 else 1)
    ensures forall k :: Find(t, k) == if k == key then Some(value) else Find(nodes, k)
    ensures |t| == |nodes| + r
    ensures r == 0 ==> newLevel == level
    ensures r == 1 ==> exists j :: 0 <= j < |t| && t[j].key == key && newLevel == Max(level, t[j].level)
  {
    var p, _ := Descend(nodes, level, key);
    FindAt(nodes, p, key);
    if p < |nodes| && nodes[p].key == key {
      var n := Node(key, value, nodes[p].level);
      ReplacedValid(nodes, p, n);
      return 0, nodes[p := n], level;
    }
    var nodeLevel := RandomLevel(coins);
    newLevel := level;
    if nodeLevel > newLevel {
      newLevel := nodeLevel;
    }
    var n := Node(key, value, nodeLevel);
    InsertedValid(nodes, p, n);
    return 1, nodes[..p] + [n] + nodes[p..], newLevel;
  }

  /**
   * The work of skip_list_delete on the chain and the list level: 0 and no
   * change when no node has key; otherwise the node is unlinked from each
   * of its levels and the list level drops while the header's link at the
   * top level is NULL, never below 1 (1).
   */
  method DeleteNode<V>(nodes: seq<Node<V>>, level: nat, key: int32)
    returns (r: int, t: seq<Node<V>>, newLevel: nat)
    requires Leveled(nodes, level)
    ensures Leveled(t, newLevel)
    ensures r == (if Find(nodes, key).Some? then 1 else 0)
    ensures Find(t, key).None?
    ensures forall k :: k != key ==> Find(t, k) == Find(nodes, k)
    ensures |t| == |nodes| - r
    ensures r == 0 ==> t == nodes && newLevel == level
  {
    var p, update := Descend(nodes, level, key);
    FindAt(nodes, p, key);
    if p == |nodes| || nodes[p].key != key {
      return 0, nodes, level;
    }
    var unlinked := Unlink(nodes, level, update, p);
    assert unlinked == nodes[p].level;
    RemovedValid(nodes, p);
    t := nodes[..p] + nodes[p + 1..];
    newLevel := Shrink(t, level);
    r := 1;
  }

  /**
   * The level loop of skip_list_delete: while the level is above 1 and the
   * header's link at the top level is NULL, drop a level.  It ends at the
   * highest level still in use, or 1.
   */
  method Shrink<V>(t: seq<Node<V>>, level: nat) returns (newLevel: nat)
    requires 1 <= level && TopLevel(t) <= level
    ensures newLevel == Max(1, TopLevel(t))
  {
    newLevel := level;
    while newLevel > 1 && Forward(t, 0, newLevel - 1) == |t|
      invariant 1 <= newLevel && TopLevel(t) <= newLevel
    {
      newLevel := newLevel - 1;
    }
    if newLevel > 1 {
      var f := Forward(t, 0, newLevel - 1);
      assert t[f].level <= TopLevel(t);
    }
  }

  class SkipList<V> {
    var nodes: seq<Node<V>>
    var level: nat
    var size: nat

    /** The chain is Leveled at the list level, and size counts its nodes. */
    ghost predicate Valid()
      reads this
    {
      Leveled(nodes, level) && size == |nodes|
    }

    /** skip_list_create: level 1, size 0, every header link NULL. */
    constructor ()
      ensures Valid() && nodes == [] && level == 1 && size == 0
      ensures forall i :: Forward(nodes, 0, i) == |nodes|
    {
      nodes := [];
      level := 1;
      size := 0;
    }

    /**
     * skip_list_insert: an existing key gets the new value and 0 is
     * returned, nothing else changing; otherwise a node with the level
     * random_level draws is linked in at its sorted place, the list level
     * rises to that level if it is higher, size grows and 1 is returned.
     */
    method Insert(key: int32, value: V, coins: seq<bool>) returns (r: int)
      requires Valid()
      modifies this
      ensures Valid()
      ensures r == (if Find(old(nodes), key).Some? then 0 else 1)
      ensures forall k :: Find(nodes, k) == if k == key then Some(value) else Find(old(nodes), k)
      ensures size == old(size) + r
      ensures r == 0 ==> level == old(level)
      ensures r == 1 ==> exists j :: 0 <= j < |nodes| && nodes[j].key == key && level == Max(old(level), nodes[j].level)
    {
      r, nodes, level := InsertNode(nodes, level, key, value, coins);
      size := size + r;
    }

    /** skip_list_search: the node with key, or None (NULL) when no node has it. */
    method Search(key: int32) returns (r: Option<Node<V>>)
      requires Valid()
      ensures r.None? <==> Find(nodes, key).None?
      ensures r.Some? ==> r.value.key == key && Find(nodes, key) == Some(r.value.value)
      ensures r.Some? ==> exists j :: 0 <= j < |nodes| && nodes[j] == r.value
    {
      var p, _ := Descend(nodes, level, key);
      FindAt(nodes, p, key);
      if p < |nodes| && nodes[p].key == key {
        return Some(nodes[p]);
      }
      return None;
    }

    /**
     * skip_list_delete: 0 and no change when no node has key; otherwise the
     * node is unlinked from each of its levels, the list level drops to the
     * highest level still in use (never below 1), size shrinks and 1 is
     * returned.
     */
    method Delete(key: int32) returns (r: int)
      requires Valid()
      modifies this
      ensures Valid()
      ensures r == (if Find(old(nodes), key).Some? then 1 else 0)
      ensures Find(nodes, key).None?
      ensures forall k :: k != key ==> Find(nodes, k) == Find(old(nodes), k)
      ensures size == old(size) - r
      ensures r == 0 ==> nodes == old(nodes) && level == old(level)
    {
      r, nodes, level := DeleteNode(nodes, level, key);
      size := size - r;
    }

    /** skip_list_destroy: walk the level-0 chain from the header, releasing every node; count says how many. */
    method Destroy() returns (count: nat)
      requires Valid()
      ensures count == |nodes| + 1
    {
      var current := nodes;
      count := 1;
      while current != []
        invariant |current| <= |nodes| && count == |nodes| - |current| + 1
      {
        current := current[1..];
        count := count + 1;
      }
    }
  }

  /**
   * The relinking loop of skip_list_delete: from level 0 upwards, while
   * update[i]'s link at level i leads to the node at p, it is redirected
   * past it.  It stops exactly after the node's own levels.
   */
  method Unlink<V>(nodes: seq<Node<V>>, level: nat, update: seq<nat>, p: nat) returns (unlinked: nat)
    requires p < |nodes| && nodes[p].level <= level == |update|
    requires forall i :: 0 <= i < level ==> update[i] <= p && Forward(nodes, update[i], i) == Forward(nodes, p, i)
    ensures unlinked == nodes[p].level
  {
    unlinked := 0;
    while unlinked < level && Forward(nodes, update[unlinked], unlinked) == p
      invariant unlinked <= nodes[p].level
    {
      unlinked := unlinked + 1;
    }
  }

  /** TopLevel of a concatenation is the larger of the two parts' TopLevels. */
  lemma {:induction false} TopLevelAppend<V>(a: seq<Node<V>>, b: seq<Node<V>>)
    ensures TopLevel(a + b) == Max(TopLevel(a), TopLevel(b))
  {
    if a == [] {
      assert a + b == b;
    } else {
      assert (a + b)[0] == a[0] && (a + b)[1..] == a[1..] + b;
      TopLevelAppend(a[1..], b);
    }
  }

  /** Searching a chain with one node y between a and b. */
  lemma FindSplit<V>(a: seq<Node<V>>, y: Node<V>, b: seq<Node<V>>, k: int32)
    ensures Find(a + [y] + b, k) ==
            if Find(a, k).Some? then Find(a, k) else if y.key == k then Some(y.value) else Find(b, k)
  {
    FindAppend(a + [y], b, k);
    FindAppend(a, [y], k);
    assert [y][1..] == [];
  }

  lemma TopLevelSplit<V>(a: seq<Node<V>>, y: Node<V>, b: seq<Node<V>>)
    ensures TopLevel(a + [y] + b) == Max(Max(TopLevel(a), y.level), TopLevel(b))
  {
    TopLevelAppend(a + [y], b);
    TopLevelAppend(a, [y]);
    assert [y][1..] == [];
  }

  /** The nodes before p have keys below the key at p, so a search for that key cannot stop before p. */
  lemma PrefixMisses<V>(s: seq<Node<V>>, p: nat)
    requires WellFormed(s) && p < |s|
    ensures Find(s[..p], s[p].key).None?
  {
  }

  /** Replacing the value of the node at p keeps the chain well formed and changes only the value found under its key. */
  lemma ReplacedValid<V>(s: seq<Node<V>>, p: nat, n: Node<V>)
    requires WellFormed(s) && p < |s| && s[p].key == n.key && s[p].level == n.level
    ensures WellFormed(s[p := n]) && TopLevel(s[p := n]) == TopLevel(s)
    ensures forall k :: Find(s[p := n], k) == if k == n.key then Some(n.value) else Find(s, k)
  {
    var a, b := s[..p], s[p + 1..];
    ReplacedWellFormed(s, p, n);
    SplitAround(s, p);
    SplitAround(s[p := n], p);
    TopLevelSplit(a, s[p], b);
    TopLevelSplit(a, n, b);
    PrefixMisses(s, p);
    forall k
      ensures Find(a + [n] + b, k) == if k == n.key then Some(n.value) else Find(a + [s[p]] + b, k)
    {
      FindSplit(a, s[p], b, k);
      FindSplit(a, n, b, k);
    }
  }

  lemma ReplacedWellFormed<V>(s: seq<Node<V>>, p: nat, n: Node<V>)
    requires WellFormed(s) && p < |s| && s[p].key == n.key && s[p].level == n.level
    ensures WellFormed(s[p := n])
  {
    assert forall j :: 0 <= j < |s| ==> s[p := n][j].key == s[j].key && s[p := n][j].level == s[j].level;
  }

  /**
   * Linking a node in at the lower-bound position of its key keeps the
   * chain well formed, raises TopLevel to the node's level at most, and
   * adds exactly its key.
   */
  lemma InsertedValid<V>(s: seq<Node<V>>, p: nat, n: Node<V>)
    requires WellFormed(s) && p <= |s| && 1 <= n.level <= MAX_LEVEL
    requires forall j :: 0 <= j < p ==> s[j].key < n.key
    requires forall j :: p <= j < |s| ==> s[j].key > n.key
    ensures WellFormed(s[..p] + [n] + s[p..])
    ensures TopLevel(s[..p] + [n] + s[p..]) == Max(TopLevel(s), n.level)
    ensures (s[..p] + [n] + s[p..])[p] == n
    ensures forall k :: Find(s[..p] + [n] + s[p..], k) == if k == n.key then Some(n.value) else Find(s, k)
  {
    SplitAt(s, p);
    InsertedFind(s[..p], n, s[p..]);
    InsertedTop(s[..p], n, s[p..]);
    InsertedWellFormed(s, p, n);
  }

  lemma InsertedTop<V>(a: seq<Node<V>>, n: Node<V>, b: seq<Node<V>>)
    ensures TopLevel(a + [n] + b) == Max(TopLevel(a + b), n.level)
  {
    TopLevelSplit(a, n, b);
    TopLevelAppend(a, b);
  }

  lemma InsertedFind<V>(a: seq<Node<V>>, n: Node<V>, b: seq<Node<V>>)
    requires forall j :: 0 <= j < |a| ==> a[j].key < n.key
    ensures forall k :: Find(a + [n] + b, k) == if k == n.key then Some(n.value) else Find(a + b, k)
  {
    assert Find(a, n.key).None?;
    forall k
      ensures Find(a + [n] + b, k) == if k == n.key then Some(n.value) else Find(a + b, k)
    {
      FindSplit(a, n, b, k);
      FindAppend(a, b, k);
    }
  }

  lemma InsertedWellFormed<V>(s: seq<Node<V>>, p: nat, n: Node<V>)
    requires WellFormed(s) && p <= |s| && 1 <= n.level <= MAX_LEVEL
    requires forall j :: 0 <= j < p ==> s[j].key < n.key
    requires forall j :: p <= j < |s| ==> s[j].key > n.key
    ensures WellFormed(s[..p] + [n] + s[p..]) && (s[..p] + [n] + s[p..])[p] == n
  {
    var t := s[..p] + [n] + s[p..];
    assert forall j :: 0 <= j < |s| ==> s[j] == t[if j < p then j else j + 1];
    assert t[p] == n;
  }

  /** Unlinking the node at p keeps the chain well formed, does not raise TopLevel, and removes exactly its key. */
  lemma RemovedValid<V>(s: seq<Node<V>>, p: nat)
    requires WellFormed(s) && p < |s|
    ensures WellFormed(s[..p] + s[p + 1..])
    ensures TopLevel(s[..p] + s[p + 1..]) <= TopLevel(s)
    ensures forall k :: Find(s[..p] + s[p + 1..], k) == if k == s[p].key then None else Find(s, k)
  {
    SplitAround(s, p);
    RemovedFind(s[..p], s[p], s[p + 1..]);
    RemovedTop(s[..p], s[p], s[p + 1..]);
    RemovedWellFormed(s, p);
  }

  lemma RemovedTop<V>(a: seq<Node<V>>, y: Node<V>, b: seq<Node<V>>)
    ensures TopLevel(a + b) <= TopLevel(a + [y] + b)
  {
    TopLevelSplit(a, y, b);
    TopLevelAppend(a, b);
  }

  lemma RemovedFind<V>(a: seq<Node<V>>, y: Node<V>, b: seq<Node<V>>)
    requires forall j :: 0 <= j < |a| ==> a[j].key < y.key
    requires forall j :: 0 <= j < |b| ==> b[j].key > y.key
    ensures forall k :: Find(a + b, k) == if k == y.key then None else Find(a + [y] + b, k)
  {
    assert Find(a, y.key).None? && Find(b, y.key).None?;
    forall k
      ensures Find(a + b, k) == if k == y.key then None else Find(a + [y] + b, k)
    {
      FindSplit(a, y, b, k);
      FindAppend(a, b, k);
    }
  }

  lemma RemovedWellFormed<V>(s: seq<Node<V>>, p: nat)
    requires WellFormed(s) && p < |s|
    ensures WellFormed(s[..p] + s[p + 1..])
  {
    var t := s[..p] + s[p + 1..];
    assert forall j :: 0 <= j < |t| ==> t[j] == s[if j < p then j else j + 1];
    forall i, j | 0 <= i < j < |t|
      ensures t[i].key < t[j].key
    {
      var i', j' := if i < p then i else i + 1, if j < p then j else j + 1;
      assert t[i] == s[i'] && t[j] == s[j'];
    }
  }
}
