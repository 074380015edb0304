/** The operations of common/avl.c on a whole tree: insert, remove and the three searches. */
module Avl {
  import opened Basics
  import opened OonfList
  import opened AvlShape
  import opened AvlRebalance

  const COUNT_LIMIT := 0x1_0000_0000  // count is a uint32_t

  ghost function CountOf<T>(s: seq<T>): nat {
    |s| % COUNT_LIMIT
  }

  /** The list: every tree node with its followers behind it, in key order. */
  ghost function Contents<K(0,!new)>(tree: AvlTree<K>): seq<Node<K>>
    reads tree`tree
  {
    Flat(Walk(tree.tree))
  }

  ghost predicate FlagsOf<K>(g: Group<K>)
    reads g.node`follower, Elems(g.followers)`follower
  {
    !g.node.follower && forall f :: f in g.followers ==> f.follower
  }

  ghost predicate Flags<K>(gs: seq<Group<K>>)
    reads Elems(Flat(gs))`follower
    decreases gs
  {
    gs != [] ==> FlagsOf(gs[0]) && Flags(gs[1..])
  }

  /** What Valid says of the walk alone. */
  ghost predicate GoodWalk<K(!new)>(comp: (K, K) -> int, allowDups: bool, gs: seq<Group<K>>)
    reads Elems(Flat(gs))`follower
  {
    && Sorted(comp, gs)
    && Flags(gs)
    && (!allowDups ==> forall g :: g in gs ==> g.followers == [])
  }

  /** A node prepared by avl_insert. */
  ghost predicate Detached<K>(n: Node<K>)
    reads n`left, n`right, n`balance, n`follower
  {
    n.left == null && n.right == null && n.balance == 0 && !n.follower
  }

  /** Everything that holds between two calls. */
  ghost predicate Valid<K(0,!new)>(tree: AvlTree<K>)
    reads tree, tree.head, tree.nodes
  {
    && TotalPreorder(tree.comp)
    && tree.nodes == Elems(Contents(tree))
    && (MembersInFlat(tree.tree); tree.Placed(Top, tree.tree, Height(tree.tree), 0))
    && Avl(tree.tree)
    && Ring(tree.head, Contents(tree))
    && GoodWalk(tree.comp, tree.allowDups, Walk(tree.tree))
    && tree.count == CountOf(Contents(tree))
  }

  lemma {:induction false} ShapeNode<K>(t: Tree<K>, p: Node?<K>, n: Node<K>)
    requires Shape(t, p) && Avl(t) && n in Members(t)
    ensures -1 <= n.balance <= 1
    ensures (n.left != null ==> n.left.parent == n) && (n.right != null ==> n.right.parent == n)
    ensures if Root(t) == n then n.parent == p else n.parent != null && (n.parent.left == n || n.parent.right == n)
    decreases t
  {
    hide Shape, Proper;
    ShapeFork(t, p);
    if n == t.group.node {
      RootParent(t.left, n);
      RootParent(t.right, n);
    } else if n in Members(t.left) {
      ShapeNode(t.left, t.group.node, n);
    } else {
      ShapeNode(t.right, t.group.node, n);
    }
  }

  lemma {:induction false} RootParent<K>(t: Tree<K>, p: Node<K>)
    requires Shape(t, p)
    ensures Root(t) != null ==> Root(t).parent == p
  {
  }

  /** What Valid says of the pointers of a tree node: parent and child pointers agree, only the root has no parent, and
   *  the cached balance is one of -1, 0 and 1. */
  lemma {:induction false} ValidPointers<K(0,!new)>(tree: AvlTree<K>, n: Node<K>)
    requires Valid(tree) && n in Members(tree.tree)
    ensures tree.root != null && tree.root.parent == null
    ensures -1 <= n.balance <= 1
    ensures (n.left != null ==> n.left.parent == n) && (n.right != null ==> n.right.parent == n)
    ensures n != tree.root ==> n.parent != null && (n.parent.left == n || n.parent.right == n)
  {
    hide Members, Shape, GoodWalk, Ring, CountOf, TotalPreorder;
    assert Shape(tree.tree, null) && tree.root == Root(tree.tree);
    ShapeNode(tree.tree, null, n);
    ShapeFork(tree.tree, null);
  }

  /** What Valid says of the list: it is in key order, next and prev undo each other, and count is its length. */
  lemma {:induction false} ValidList<K(0,!new)>(tree: AvlTree<K>, i: nat)
    requires Valid(tree) && i < |Contents(tree)|
    ensures var s := Contents(tree);
      && InOrder(tree.comp, s)
      && s[i].next == (if i + 1 < |s| then s[i + 1] else tree.head)
        && s[i].prev == (if i > 0 then s[i - 1] else tree.head)
      && tree.head.next == s[0] && tree.head.prev == s[|s| - 1]
      && tree.count == |s| % COUNT_LIMIT
  {
    hide Walk, Flat, Members, Height;
    var s := Contents(tree);
    ContentsSorted(tree.comp, Walk(tree.tree));
    RingAt(tree.head, s, i);
    RingAt(tree.head, s, 0);
    RingAt(tree.head, s, |s| - 1);
  }

  lemma {:induction false} RingAt<K>(head: Node<K>, s: seq<Node<K>>, i: nat)
    requires Ring(head, s) && i < |s|
    ensures s[i].next == (if i + 1 < |s| then s[i + 1] else head) && s[i].prev == (if i > 0 then s[i - 1] else head)
    ensures (i == 0 ==> head.next == s[0]) && (i == |s| - 1 ==> head.prev == s[i])
  {
    assert At(head, s, i).next == At(head, s, i + 1) && At(head, s, i + 1).prev == At(head, s, i);
    assert At(head, s, i + 1).next == At(head, s, i + 2) && At(head, s, i + 2).prev == At(head, s, i + 1);
  }

  /** A tree just made by avl_init. */
  lemma EmptyTree<K(0,!new)>(tree: AvlTree<K>)
    requires TotalPreorder(tree.comp) && Ring(tree.head, []) && tree.root == null && tree.count == 0
    requires tree.tree == Leaf && tree.nodes == {}
    ensures Valid(tree) && Contents(tree) == []
  {
  }

  lemma ValidNodes<K(0,!new)>(tree: AvlTree<K>)
    requires Valid(tree)
    ensures tree.nodes == Elems(Contents(tree)) && tree.head !in tree.nodes
  {
  }

  // ---------- Searching ----------

  /** _avl_find_rec: the node with the key, or the one below which it would hang. It calls itself at most once
   *  per level. */
  method FindRec<K(0,!new)>(node: Node<K>, key: K, comp: (K, K) -> int, ghost c: Context<K>, ghost t: Tree<K>)
    returns (r: Node<K>, diff: int, ghost d: Context<K>, ghost u: Tree<K>, ghost calls: nat)
    requires t.Fork? && t.group.node == node && Shape(t, CRoot(c))
    requires TotalPreorder(comp) && Sorted(comp, Walk(Plug(c, t))) && Splits(comp, c, key)
    ensures u.Fork? && u.group.node == r && Plug(d, u) == Plug(c, t) && Splits(comp, d, key)
    ensures diff == comp(key, r.key)
    ensures diff < 0 ==> u.left.Leaf?
    ensures diff > 0 ==> u.right.Leaf?
    ensures calls <= Height(t)
    decreases t
  {
    hide Walk, Members, Height, Before, After, TotalPreorder, Sorted, Splits, Shape, Proper;
    ShapeFork(t, CRoot(c));
    diff := comp(key, node.key);
    SearchStep(comp, c, t, key);
    if diff < 0 {
      if node.left != null {
        r, diff, d, u, calls := FindRec(node.left, key, comp, Frame(true, t.group, t.right, c), t.left);
        calls := calls + 1;
        return;
      }
      return node, diff, c, t, 1;
    }
    if diff > 0 {
      if node.right != null {
        r, diff, d, u, calls := FindRec(node.right, key, comp, Frame(false, t.group, t.left, c), t.right);
        calls := calls + 1;
        return;
      }
      return node, diff, c, t, 1;
    }
    return node, diff, c, t, 1;
  }

  lemma {:induction false} FlatBelow<K(!new)>(comp: (K, K) -> int, gs: seq<Group<K>>, key: K)
    requires TotalPreorder(comp)
    requires forall g :: g in gs ==> comp(key, g.node.key) > 0
    requires forall g, f :: g in gs && f in g.followers ==> comp(g.node.key, f.key) == 0
    ensures forall n :: n in Flat(gs) ==> comp(key, n.key) > 0
  {
    if gs != [] {
      FlatBelow(comp, gs[1..], key);
      assert gs[0] in gs;
      forall f | f in gs[0].followers ensures comp(key, f.key) > 0 {
        Transitive(comp, f.key, gs[0].node.key, key);
      }
    }
  }

  lemma {:induction false} FlatAbove<K(!new)>(comp: (K, K) -> int, gs: seq<Group<K>>, key: K)
    requires TotalPreorder(comp)
    requires forall g :: g in gs ==> comp(key, g.node.key) < 0
    requires forall g, f :: g in gs && f in g.followers ==> comp(g.node.key, f.key) == 0
    ensures forall n :: n in Flat(gs) ==> comp(key, n.key) < 0
  {
    if gs != [] {
      FlatAbove(comp, gs[1..], key);
      assert gs[0] in gs;
      forall f | f in gs[0].followers ensures comp(key, f.key) < 0 {
        Transitive(comp, key, gs[0].node.key, f.key);
      }
    }
  }

  /** The node that FindRec arrives at separates the smaller from the greater keys. */
  lemma {:induction false} FoundInWalk<K(!new)>(comp: (K, K) -> int, c: Context<K>, t: Tree<K>, key: K)
    requires TotalPreorder(comp) && t.Fork? && Sorted(comp, Walk(Plug(c, t))) && Splits(comp, c, key)
    requires comp(key, t.group.node.key) < 0 ==> t.left.Leaf?
    requires comp(key, t.group.node.key) > 0 ==> t.right.Leaf?
    ensures Walk(Plug(c, t)) == (Before(c) + Walk(t.left)) + [t.group] + (Walk(t.right) + After(c))
    ensures forall g :: g in Before(c) + Walk(t.left) ==> comp(key, g.node.key) > 0
    ensures forall g :: g in Walk(t.right) + After(c) ==> comp(key, g.node.key) < 0
  {
    hide Walk, Before, After, Plug, Sorted;
    LeafFacts<K>();
    PlugWalk(c, t);
    ShapeWalk(t);
    Regroup(Before(c), Walk(t.left), [t.group], Walk(t.right), After(c));
    SortedPart(comp, Before(c), Walk(t.left), t.group, Walk(t.right), After(c));
    var n := t.group.node;
    forall g | g in Walk(t.left) ensures comp(key, g.node.key) > 0 {
      Transitive(comp, g.node.key, n.key, key);
    }
    forall g | g in Walk(t.right) ensures comp(key, g.node.key) < 0 {
      Transitive(comp, key, n.key, g.node.key);
    }
  }

  ghost function Front<K>(c: Context<K>, t: Tree<K>): seq<Node<K>>
    requires t.Fork?
  {
    Flat(Before(c) + Walk(t.left))
  }

  ghost function Back<K>(c: Context<K>, t: Tree<K>): seq<Node<K>>
    requires t.Fork?
  {
    Flat(Walk(t.right) + After(c))
  }

  /** The same for the list. */
  lemma {:induction false} FoundInList<K(!new)>(comp: (K, K) -> int, c: Context<K>, t: Tree<K>, key: K)
    requires TotalPreorder(comp) && t.Fork? && Sorted(comp, Walk(Plug(c, t))) && Splits(comp, c, key)
    requires comp(key, t.group.node.key) < 0 ==> t.left.Leaf?
    requires comp(key, t.group.node.key) > 0 ==> t.right.Leaf?
    ensures Flat(Walk(Plug(c, t))) == Front(c, t) + [t.group.node] + t.group.followers + Back(c, t)
    ensures forall n :: n in Front(c, t) ==> comp(key, n.key) > 0
    ensures forall n :: n in t.group.followers ==> comp(t.group.node.key, n.key) == 0
    ensures forall n :: n in Back(c, t) ==> comp(key, n.key) < 0
  {
    FoundInWalk(comp, c, t, key);
    var a, b := Before(c) + Walk(t.left), Walk(t.right) + After(c);
    hide Walk, Plug, Before, After, Splits, Flat, Sorted, TotalPreorder;
    FlatParts(a, t.group, b);
    SortedFollowers(comp, a, t.group, b);
    FlatBelow(comp, a, key);
    FlatAbove(comp, b, key);
  }

  lemma {:induction false} FlatParts<K>(a: seq<Group<K>>, g: Group<K>, b: seq<Group<K>>)
    ensures Flat(a + [g] + b) == Flat(a) + [g.node] + g.followers + Flat(b)
  {
    FlatConcat(a + [g], b);
    FlatConcat(a, [g]);
    assert Flat([g]) == [g.node] + g.followers;
  }

  lemma {:induction false} SortedFollowers<K(!new)>(comp: (K, K) -> int, a: seq<Group<K>>, g: Group<K>,
                                                    b: seq<Group<K>>)
    requires Sorted(comp, a + [g] + b)
    ensures forall x, f :: x in a && f in x.followers ==> comp(x.node.key, f.key) == 0
    ensures forall f :: f in g.followers ==> comp(g.node.key, f.key) == 0
    ensures forall x, f :: x in b && f in x.followers ==> comp(x.node.key, f.key) == 0
  {
    var s := a + [g] + b;
    assert g in s && (forall x :: x in a ==> x in s) && (forall x :: x in b ==> x in s);
  }

  /** The whole list is in key order. */
  ghost predicate InOrder<K(!new)>(comp: (K, K) -> int, s: seq<Node<K>>) {
    forall i, j :: 0 <= i < j < |s| ==> comp(s[i].key, s[j].key) <= 0
  }

  lemma {:induction false} ContentsSorted<K(!new)>(comp: (K, K) -> int, gs: seq<Group<K>>)
    requires TotalPreorder(comp) && Sorted(comp, gs)
    ensures InOrder(comp, Flat(gs))
  {
    if gs != [] {
      SortedTail(comp, gs);
      ContentsSorted(comp, gs[1..]);
      FlatAbove(comp, gs[1..], gs[0].node.key);
      TotalReflexive(comp, gs[0].node.key);
      HeadInOrder(comp, gs[0].node.key, [gs[0].node] + gs[0].followers, Flat(gs[1..]));
    }
  }

  lemma HeadInOrder<K(!new)>(comp: (K, K) -> int, key: K, h: seq<Node<K>>, r: seq<Node<K>>)
    requires TotalPreorder(comp) && InOrder(comp, r)
    requires forall n :: n in h ==> comp(key, n.key) == 0
    requires forall n :: n in r ==> comp(key, n.key) < 0
    ensures InOrder(comp, h + r)
  {
    var s := h + r;
    forall i, j | 0 <= i < j < |s| ensures comp(s[i].key, s[j].key) <= 0 {
      if i < |h| {
        assert s[i] in h && (s[j] in h || s[j] in r);
        Transitive(comp, s[i].key, key, s[j].key);
      }
    }
  }

  lemma TotalReflexive<K(!new)>(comp: (K, K) -> int, k: K)
    requires TotalPreorder(comp)
    ensures comp(k, k) == 0
  {
    assert comp(k, k) < 0 <==> comp(k, k) > 0;
  }

  lemma SameSide<K(!new)>(comp: (K, K) -> int, k: K, a: K, b: K)
    requires TotalPreorder(comp) && comp(a, b) == 0
    ensures comp(k, a) < 0 <==> comp(k, b) < 0
    ensures comp(k, a) > 0 <==> comp(k, b) > 0
  {
    assert comp(b, a) == 0;
    if comp(k, a) <= 0 {
      Transitive(comp, k, a, b);
    } else {
      Transitive(comp, b, a, k);
    }
  }

  /** Keys of a sorted list compare with a given key first above, then equal, then below. */
  lemma SidesInOrder<K(!new)>(comp: (K, K) -> int, s: seq<Node<K>>, key: K, i: nat)
    requires TotalPreorder(comp) && InOrder(comp, s) && i < |s|
    ensures comp(key, s[i].key) < 0 ==> forall j :: i < j < |s| ==> comp(key, s[j].key) < 0
    ensures comp(key, s[i].key) > 0 ==> forall j :: 0 <= j < i ==> comp(key, s[j].key) > 0
  {
    if comp(key, s[i].key) < 0 {
      forall j | i < j < |s| ensures comp(key, s[j].key) < 0 {
        Transitive(comp, key, s[i].key, s[j].key);
      }
    } else if comp(key, s[i].key) > 0 {
      forall j | 0 <= j < i ensures comp(key, s[j].key) > 0 {
        Transitive(comp, s[j].key, s[i].key, key);
      }
    }
  }

  /** How the neighbours of s[i] are found, and how the code sees that there is none. */
  lemma Neighbours<K>(head: Node<K>, s: seq<Node<K>>, i: nat)
    requires Ring(head, s) && i < |s|
    ensures head.next == s[i] <==> i == 0
    ensures head.prev == s[i] <==> i == |s| - 1
    ensures i > 0 ==> s[i].prev == s[i - 1]
    ensures i < |s| - 1 ==> s[i].next == s[i + 1]
  {
    assert head == At(head, s, 0) == At(head, s, |s| + 1);
    assert s[i] == At(head, s, i + 1);
    assert head.next == At(head, s, 1) == s[0];
    assert head.prev == At(head, s, |s|) == s[|s| - 1];
  }

  lemma {:induction false} SortedTail<K(!new)>(comp: (K, K) -> int, gs: seq<Group<K>>)
    requires TotalPreorder(comp) && Sorted(comp, gs) && gs != []
    ensures Sorted(comp, gs[1..])
    ensures forall g :: g in gs[1..] ==> comp(gs[0].node.key, g.node.key) < 0
    ensures forall g, f :: g in gs[1..] && f in g.followers ==> comp(g.node.key, f.key) == 0
    ensures forall f :: f in gs[0].followers ==> comp(gs[0].node.key, f.key) == 0
  {
    assert gs[0] in gs && forall g :: g in gs[1..] ==> g in gs;
  }

  lemma {:induction false} RootFacts<K(0,!new)>(tree: AvlTree<K>, key: K)
    requires Valid(tree)
    ensures tree.root == null <==> tree.tree == Leaf
    ensures tree.root == null <==> Contents(tree) == []
    ensures tree.tree.Fork? ==> tree.tree.group.node == tree.root && Shape(tree.tree, null)
    ensures Splits(tree.comp, Top, key) && TotalPreorder(tree.comp) && Sorted(tree.comp, Walk(tree.tree))
    ensures tree.nodes == Elems(Contents(tree))
  {
    if tree.tree.Fork? {
      FlatParts(Walk(tree.tree.left), tree.tree.group, Walk(tree.tree.right));
    }
  }

  lemma {:induction false} FewCalls<K>(t: Tree<K>, calls: nat)
    requires Avl(t) && calls <= Height(t)
    ensures |Walk(t)| >= Fib(calls + 2) - 1
  {
    HeightBound(t);
    FibMonotone(calls + 2, Height(t) + 2);
  }

  lemma {:induction false} FlagAt<K>(gs: seq<Group<K>>, g: Group<K>)
    requires Flags(gs) && g in gs
    ensures FlagsOf(g)
  {
    if g != gs[0] {
      FlagAt(gs[1..], g);
    }
  }

  /** The node at the end of a search in a valid tree. */
  lemma {:induction false} FoundNode<K(0,!new)>(tree: AvlTree<K>, key: K, c: Context<K>, t: Tree<K>)
    requires Valid(tree) && t.Fork? && Plug(c, t) == tree.tree && Splits(tree.comp, c, key)
    requires tree.comp(key, t.group.node.key) < 0 ==> t.left.Leaf?
    requires tree.comp(key, t.group.node.key) > 0 ==> t.right.Leaf?
    ensures t.group.node in Contents(tree) && !t.group.node.follower
    ensures tree.comp(key, t.group.node.key) != 0 ==> forall n :: n in Contents(tree) ==> tree.comp(key, n.key) != 0
  {
    hide Walk, Members, Flat, Height, Flags, Before, After, Avl, Ring, Distinct, Fib, Front, Back;
    var comp, n := tree.comp, t.group.node;
    FoundInList(comp, c, t, key);
    PlugWalk(c, t);
    assert t.group in Walk(t) by { NodeInWalk(t); }
    FlagAt(Walk(tree.tree), t.group);
    if comp(key, n.key) != 0 {
      forall f | f in t.group.followers ensures comp(key, f.key) != 0 {
        SameSide(comp, key, n.key, f.key);
      }
    }
  }

  lemma {:induction false} NodeInWalk<K>(t: Tree<K>)
    requires t.Fork?
    ensures t.group in Walk(t)
  {
  }

  /** avl_find: the tree node with the key, if there is one. */
  method Find<K(0,!new)>(tree: AvlTree<K>, key: K) returns (r: Node?<K>, ghost calls: nat)
    requires Valid(tree)
    ensures r == null <==> forall n :: n in Contents(tree) ==> tree.comp(key, n.key) != 0
    ensures r != null ==> r in Contents(tree) && !r.follower && tree.comp(key, r.key) == 0
    ensures |Walk(tree.tree)| >= Fib(calls + 2) - 1
  {
    RootFacts(tree, key);
    if tree.root == null {
      return null, 0;
    }
    hide Walk, Members, Flat, Height, Sorted, TotalPreorder, Flags, Splits, Before, After, Avl, Ring, Distinct, Fib;
    var node, diff;
    ghost var d, u;
    node, diff, d, u, calls := FindRec(tree.root, key, tree.comp, Top, tree.tree);
    FewCalls(tree.tree, calls);
    FoundNode(tree, key, d, u);
    r := if diff == 0 then node else null;
  }

  /** avl_find_lessequal: the last node of the list whose key is not above the given one. */
  method FindLessEqual<K(0,!new)>(tree: AvlTree<K>, key: K) returns (r: Node?<K>, ghost at: nat)
    requires Valid(tree)
    ensures r == null <==> forall n :: n in Contents(tree) ==> tree.comp(key, n.key) < 0
    ensures r != null ==>
      && at < |Contents(tree)| && Contents(tree)[at] == r && tree.comp(key, r.key) >= 0
      && forall j :: at < j < |Contents(tree)| ==> tree.comp(key, Contents(tree)[j].key) < 0
  {
    RootFacts(tree, key);
    if tree.root == null {
      return null, 0;
    }
    ContentsSorted(tree.comp, Walk(tree.tree));
    hide Walk, Members, Flat, Height, Sorted, TotalPreorder, Flags, Splits, Before, After, Avl, Ring, Distinct, Fib,
      InOrder;
    var node, diff;
    ghost var d, u, calls;
    node, diff, d, u, calls := FindRec(tree.root, key, tree.comp, Top, tree.tree);
    FoundNode(tree, key, d, u);
    r, at := LessEqualFrom(tree.head, node, diff, key, tree.comp, Contents(tree));
  }

  /** The two loops of avl_find_lessequal. */
  method LessEqualFrom<K(!new)>(head: Node<K>, start: Node<K>, diff0: int, key: K, comp: (K, K) -> int,
                                ghost s: seq<Node<K>>)
    returns (r: Node?<K>, ghost at: nat)
    requires Ring(head, s) && TotalPreorder(comp) && InOrder(comp, s)
    requires start in s && diff0 == comp(key, start.key)
    ensures r == null <==> forall n :: n in s ==> comp(key, n.key) < 0
    ensures r != null ==>
      && at < |s| && s[at] == r && comp(key, r.key) >= 0
      && forall j :: at < j < |s| ==> comp(key, s[j].key) < 0
  {
    hide Ring, Distinct, InOrder, TotalPreorder;
    var node, diff := start, diff0;
    ghost var i :| 0 <= i < |s| && s[i] == node;
    while diff < 0
      invariant Ring(head, s) && 0 <= i < |s| && s[i] == node && diff == comp(key, node.key)
      decreases i
    {
      Neighbours(head, s, i);
      SidesInOrder(comp, s, key, i);
      if head.next == node {
        return null, 0;
      }
      node := node.prev;
      i := i - 1;
      diff := comp(key, node.key);
    }
    var next := node;
    while diff >= 0
      invariant Ring(head, s) && 0 <= i < |s| && s[i] == next && diff == comp(key, next.key)
      invariant diff >= 0 || (i > 0 && s[i - 1] == node && comp(key, node.key) >= 0)
      decreases |s| - i, diff >= 0
    {
      node := next;
      Neighbours(head, s, i);
      if head.prev == node {
        return node, i;
      }
      next := node.next;
      i := i + 1;
      diff := comp(key, next.key);
    }
    SidesInOrder(comp, s, key, i);
    return node, i - 1;
  }

  /** avl_find_greaterequal: the first node of the list whose key is not below the given one. */
  method FindGreaterEqual<K(0,!new)>(tree: AvlTree<K>, key: K) returns (r: Node?<K>, ghost at: nat)
    requires Valid(tree)
    ensures r == null <==> forall n :: n in Contents(tree) ==> tree.comp(key, n.key) > 0
    ensures r != null ==>
      && at < |Contents(tree)| && Contents(tree)[at] == r && tree.comp(key, r.key) <= 0
      && forall j :: 0 <= j < at ==> tree.comp(key, Contents(tree)[j].key) > 0
  {
    RootFacts(tree, key);
    if tree.root == null {
      return null, 0;
    }
    ContentsSorted(tree.comp, Walk(tree.tree));
    hide Walk, Members, Flat, Height, Sorted, TotalPreorder, Flags, Splits, Before, After, Avl, Ring, Distinct, Fib,
      InOrder;
    var node, diff;
    ghost var d, u, calls;
    node, diff, d, u, calls := FindRec(tree.root, key, tree.comp, Top, tree.tree);
    FoundNode(tree, key, d, u);
    r, at := GreaterEqualFrom(tree.head, node, diff, key, tree.comp, Contents(tree));
  }

  /** The two loops of avl_find_greaterequal. */
  method GreaterEqualFrom<K(!new)>(head: Node<K>, start: Node<K>, diff0: int, key: K, comp: (K, K) -> int,
                                   ghost s: seq<Node<K>>)
    returns (r: Node?<K>, ghost at: nat)
    requires Ring(head, s) && TotalPreorder(comp) && InOrder(comp, s)
    requires start in s && diff0 == comp(key, start.key)
    ensures r == null <==> forall n :: n in s ==> comp(key, n.key) > 0
    ensures r != null ==>
      && at < |s| && s[at] == r && comp(key, r.key) <= 0
      && forall j :: 0 <= j < at ==> comp(key, s[j].key) > 0
  {
    hide Ring, Distinct, InOrder, TotalPreorder;
    var node, diff := start, diff0;
    ghost var i :| 0 <= i < |s| && s[i] == node;
    while diff > 0
      invariant Ring(head, s) && 0 <= i < |s| && s[i] == node && diff == comp(key, node.key)
      decreases |s| - i
    {
      Neighbours(head, s, i);
      SidesInOrder(comp, s, key, i);
      if head.prev == node {
        return null, 0;
      }
      node := node.next;
      i := i + 1;
      diff := comp(key, node.key);
    }
    var next := node;
    while diff <= 0
      invariant Ring(head, s) && 0 <= i < |s| && s[i] == next && diff == comp(key, next.key)
      invariant diff <= 0 || (i < |s| - 1 && s[i + 1] == node && comp(key, node.key) <= 0)
      decreases i, diff <= 0
    {
      node := next;
      Neighbours(head, s, i);
      if head.next == node {
        return node, i;
      }
      next := node.prev;
      i := i - 1;
      diff := comp(key, next.key);
    }
    SidesInOrder(comp, s, key, i);
    return node, i + 1;
  }

  // ---------- Inserting ----------

  lemma {:induction false} FlagsConcat<K>(a: seq<Group<K>>, b: seq<Group<K>>)
    ensures Flags(a + b) <==> Flags(a) && Flags(b)
  {
    if a == [] {
      assert a + b == b;
    } else {
      assert (a + b)[1..] == a[1..] + b;
      FlagsConcat(a[1..], b);
    }
  }

  lemma {:induction false} FlagsParts<K>(a: seq<Group<K>>, g: Group<K>, b: seq<Group<K>>)
    ensures Flags(a + [g] + b) <==> Flags(a) && FlagsOf(g) && Flags(b)
  {
    FlagsConcat(a + [g], b);
    FlagsConcat(a, [g]);
    assert Flags([g]) <==> FlagsOf(g);
  }

  lemma {:induction false} GoodInsert<K(!new)>(comp: (K, K) -> int, allowDups: bool, a: seq<Group<K>>,
                                               b: seq<Group<K>>, n: Node<K>)
    requires TotalPreorder(comp) && GoodWalk(comp, allowDups, a + b) && !n.follower
    requires forall g :: g in a ==> comp(n.key, g.node.key) > 0
    requires forall g :: g in b ==> comp(n.key, g.node.key) < 0
    ensures GoodWalk(comp, allowDups, a + [Group(n, [])] + b)
  {
    FlagsParts(a, Group(n, []), b);
    FlagsConcat(a, b);
    SortedInsert(comp, a, b, n);
  }

  lemma {:induction false} SortedInsert<K(!new)>(comp: (K, K) -> int, a: seq<Group<K>>, b: seq<Group<K>>, n: Node<K>)
    requires TotalPreorder(comp) && Sorted(comp, a + b)
    requires forall g :: g in a ==> comp(n.key, g.node.key) > 0
    requires forall g :: g in b ==> comp(n.key, g.node.key) < 0
    ensures Sorted(comp, a + [Group(n, [])] + b)
  {
    var x, old_, s := Group(n, []), a + b, a + [Group(n, [])] + b;
    forall g | g in s ensures g == x || g in old_ {
    }
    forall i, j | 0 <= i < j < |s| ensures comp(s[i].node.key, s[j].node.key) < 0 {
      if j < |a| {
        assert s[i] == old_[i] && s[j] == old_[j];
      } else if j == |a| {
        assert s[i] in a;
      } else if i == |a| {
        assert s[j] in b;
      } else {
        assert s[i] == old_[if i < |a| then i else i - 1] && s[j] == old_[j - 1];
      }
    }
  }

  lemma {:induction false} GoodGroup<K(!new)>(comp: (K, K) -> int, allowDups: bool, a: seq<Group<K>>, g: Group<K>,
                                              b: seq<Group<K>>, h: Group<K>)
    requires TotalPreorder(comp) && GoodWalk(comp, allowDups, a + [g] + b)
    requires comp(g.node.key, h.node.key) == 0 && FlagsOf(h)
    requires forall f :: f in h.followers ==> comp(g.node.key, f.key) == 0
    requires !allowDups ==> h.followers == []
    ensures GoodWalk(comp, allowDups, a + [h] + b)
  {
    FlagsParts(a, g, b);
    FlagsParts(a, h, b);
    SortedGroup(comp, a, g, b, h);
    forall x | x in a + [h] + b ensures x == h || x in a + [g] + b {
    }
  }

  lemma {:induction false} InsertedFacts<T>(s: seq<T>, i: nat, x: T)
    requires i <= |s|
    ensures Elems(Inserted(s, i, x)) == Elems(s) + {x}
    ensures CountOf(Inserted(s, i, x)) == (CountOf(s) + 1) % COUNT_LIMIT
  {
    var r := Inserted(s, i, x);
    assert r[i] == x;
    forall y | y in s ensures y in r {
      var j :| 0 <= j < |s| && s[j] == y;
      assert r[if j < i then j else j + 1] == y;
    }
  }

  /** _avl_insert_before and _avl_insert_after: new_ goes between prev and next in the list. */
  method LinkIn<K(0,!new)>(tree: AvlTree<K>, prev: Node<K>, next: Node<K>, new_: Node<K>, ghost s: seq<Node<K>>,
                           ghost i: nat)
    requires Ring(tree.head, s) && tree.nodes == Elems(s) && tree.count == CountOf(s)
    requires i <= |s| && prev == At(tree.head, s, i) && next == At(tree.head, s, i + 1)
    requires new_ != tree.head && new_ !in s
    modifies tree`count, tree`nodes, tree.head`next, tree.head`prev, tree.nodes`next, tree.nodes`prev, new_`next,
      new_`prev
    ensures var r := Inserted(s, i, new_);
      Ring(tree.head, r) && tree.nodes == Elems(r) == old(tree.nodes) + {new_} && tree.count == CountOf(r)
  {
    InsertedFacts(s, i, new_);
    ListAdd(prev, next, new_, tree.head, s, i);
    tree.count := (tree.count + 1) % COUNT_LIMIT;
    tree.nodes := tree.nodes + {new_};
  }

  lemma {:induction false} FlatInserted<K>(a: seq<Group<K>>, b: seq<Group<K>>, n: Node<K>)
    ensures Flat(a + b) == Flat(a) + Flat(b)
    ensures Flat(a + [Group(n, [])] + b) == Inserted(Flat(a + b), |Flat(a)|, n)
  {
    FlatParts(a, Group(n, []), b);
    FlatConcat(a, b);
  }

  /** A new key after all smaller and before all greater ones is in its slot. */
  lemma {:induction false} InsertFacts<K(!new)>(comp: (K, K) -> int, allowDups: bool, a: seq<Group<K>>,
                                                b: seq<Group<K>>, n: Node<K>)
    requires TotalPreorder(comp) && GoodWalk(comp, allowDups, a + b) && !n.follower
    requires forall g :: g in a ==> comp(n.key, g.node.key) > 0
    requires forall g :: g in b ==> comp(n.key, g.node.key) < 0
    ensures var r, s := a + [Group(n, [])] + b, Flat(a + b);
      && GoodWalk(comp, allowDups, r) && s == Flat(a) + Flat(b)
      && Flat(r) == Inserted(s, |Flat(a)|, n) && Slot(comp, Keys(s), n.key) == |Flat(a)|
  {
    GoodInsert(comp, allowDups, a, b, n);
    FlatInserted(a, b, n);
    FlatBelow(comp, a, n.key) by { assert forall g :: g in a ==> g in a + b; }
    assert b != [] ==> Flat(b)[0] == b[0].node && b[0] in b;
    SlotAfter(comp, Keys(Flat(a) + Flat(b)), n.key, |Flat(a)|);
  }

  lemma {:induction false} WalkWith<K>(c: Context<K>, t: Tree<K>, n: Node<K>)
    requires t.Fork?
    ensures t.left.Leaf? ==>
      Walk(Plug(c, WithLeft(t, n)))
        == (Before(c) + Walk(t.left)) + [Group(n, [])] + ([t.group] + (Walk(t.right) + After(c)))
    ensures t.right.Leaf? ==>
      Walk(Plug(c, WithRight(t, n)))
        == (Before(c) + Walk(t.left) + [t.group]) + [Group(n, [])] + (Walk(t.right) + After(c))
  {
    NewLeafFacts(n);
    LeafFacts<K>();
    if t.left.Leaf? {
      PlugWalk(c, WithLeft(t, n));
      assert Walk(WithLeft(t, n)) == [Group(n, [])] + [t.group] + Walk(t.right);
    }
    if t.right.Leaf? {
      PlugWalk(c, WithRight(t, n));
      assert Walk(WithRight(t, n)) == Walk(t.left) + [t.group] + [Group(n, [])];
    }
  }

  lemma {:induction false} InsertLeftFacts<K(!new)>(comp: (K, K) -> int, allowDups: bool, c: Context<K>, t: Tree<K>,
                                                    n: Node<K>)
    requires TotalPreorder(comp) && t.Fork? && t.left.Leaf? && GoodWalk(comp, allowDups, Walk(Plug(c, t)))
    requires Splits(comp, c, n.key) && comp(n.key, t.group.node.key) < 0 && !n.follower
    ensures var s, r, i := Flat(Walk(Plug(c, t))), Walk(Plug(c, WithLeft(t, n))), |Front(c, t)|;
      && i < |s| && s[i] == t.group.node
      && GoodWalk(comp, allowDups, r) && Flat(r) == Inserted(s, i, n) && Slot(comp, Keys(s), n.key) == i
  {
    hide Walk, Before, After, Plug, Flat, Flags, Sorted, TotalPreorder, Splits;
    var a, b := Before(c) + Walk(t.left), [t.group] + (Walk(t.right) + After(c));
    FoundInWalk(comp, c, t, n.key);
    WalkWith(c, t, n);
    assert Walk(Plug(c, t)) == a + b;
    InsertFacts(comp, allowDups, a, b, n);
    FlatParts(a, t.group, Walk(t.right) + After(c));
  }

  lemma {:induction false} InsertRightFacts<K(!new)>(comp: (K, K) -> int, allowDups: bool, c: Context<K>, t: Tree<K>,
                                                     n: Node<K>)
    requires TotalPreorder(comp) && t.Fork? && t.right.Leaf? && GoodWalk(comp, allowDups, Walk(Plug(c, t)))
    requires Splits(comp, c, n.key) && comp(n.key, t.group.node.key) > 0 && !n.follower
    ensures var s, r, i := Flat(Walk(Plug(c, t))), Walk(Plug(c, WithRight(t, n))), |Front(c, t)|;
      var j := i + 1 + |t.group.followers|;
      && j <= |s| && s[i] == t.group.node && s[i + 1..j] == t.group.followers
      && (j < |s| ==> !s[j].follower) && (forall k :: i < k < j ==> s[k].follower)
      && GoodWalk(comp, allowDups, r) && Flat(r) == Inserted(s, j, n) && Slot(comp, Keys(s), n.key) == j
  {
    hide Walk, Before, After, Plug, Sorted, TotalPreorder, Splits;
    var a, b := Before(c) + Walk(t.left) + [t.group], Walk(t.right) + After(c);
    FoundInWalk(comp, c, t, n.key);
    WalkWith(c, t, n);
    assert Walk(Plug(c, t)) == a + b;
    InsertFacts(comp, allowDups, a, b, n);
    FlatParts(Before(c) + Walk(t.left), t.group, b);
    FlatConcat(Before(c) + Walk(t.left), [t.group]);
    FlagsParts(Before(c) + Walk(t.left), t.group, b);
    assert b != [] ==> Flat(b)[0] == b[0].node && FlagsOf(b[0]);
  }

  lemma AtNode<K>(head: Node<K>, s: seq<Node<K>>, i: nat)
    requires Ring(head, s) && i < |s|
    ensures At(head, s, i + 1) == s[i] && At(head, s, i) == s[i].prev && At(head, s, i + 2) == s[i].next
  {
    assert s[i] == At(head, s, i + 1);
  }

  /** A place in a valid tree, and a node that is not in the tree. */
  lemma {:induction false} Prepare<K(0,!new)>(tree: AvlTree<K>, c: Context<K>, t: Tree<K>, n: Node<K>)
    requires Valid(tree) && tree.tree == Plug(c, t) && n !in tree.nodes
    ensures tree.Placed(c, t, Height(t), Outer(c, Height(t))) && Avl(t) && CAvl(c, Height(t))
    ensures n !in Members(t) && n !in CMembers(c) && n !in Contents(tree)
    ensures Contents(tree) == Flat(Walk(Plug(c, t)))
  {
    hide Walk, Flat, Height, Members, CMembers, CAvl, GoodWalk, Ring, Outer, TotalPreorder;
    tree.Unsettled(c, t);
  }

  /** new_ is in the list, where gs has it, but not yet in the tree. */
  ghost predicate Linked<K(0,!new)>(tree: AvlTree<K>, c: Context<K>, t: Tree<K>, n: Node<K>, gs: seq<Group<K>>)
    reads tree, tree.head, tree.nodes, n, Elems(Flat(gs))
    reads Members(t), CMembers(c)
  {
    && TotalPreorder(tree.comp)
    && tree.Placed(c, t, Height(t), Outer(c, Height(t))) && Avl(t) && CAvl(c, Height(t))
    && n in tree.nodes && n !in Members(t) && n !in CMembers(c)
    && tree.nodes == Elems(Flat(gs)) && Ring(tree.head, Flat(gs)) && tree.count == CountOf(Flat(gs))
    && GoodWalk(tree.comp, tree.allowDups, gs)
  }

  method LinkBefore<K(0,!new)>(tree: AvlTree<K>, node: Node<K>, new_: Node<K>, ghost c: Context<K>, ghost t: Tree<K>)
    requires Valid(tree) && tree.tree == Plug(c, t) && t.Fork? && t.left.Leaf? && t.group.node == node
    requires new_ !in tree.nodes && new_ != tree.head && Detached(new_) && new_.parent == node
    requires Splits(tree.comp, c, new_.key) && tree.comp(new_.key, node.key) < 0
    modifies tree`count, tree`nodes, tree.head`next, tree.head`prev, tree.nodes`next, tree.nodes`prev, new_`next,
      new_`prev
    ensures tree.nodes == old(tree.nodes) + {new_}
    ensures Linked(tree, c, t, new_, Walk(Plug(c, WithLeft(t, new_))))
    ensures var s := old(Contents(tree));
      Flat(Walk(Plug(c, WithLeft(t, new_)))) == Inserted(s, Slot(tree.comp, Keys(s), new_.key), new_)
  {
    hide Walk, Flat, Height, Members, CMembers, CAvl, GoodWalk, Ring, Outer, TotalPreorder, Splits, Front, Distinct,
      Inserted, Slot, Keys, CountOf, Proper, CProper, Shape;
    ghost var s, i := Contents(tree), |Front(c, t)|;
    Prepare(tree, c, t, new_);
    InsertLeftFacts(tree.comp, tree.allowDups, c, t, new_);
    AtNode(tree.head, s, i);
    LinkIn(tree, node.prev, node, new_, s, i);
  }

  /** new_ becomes the left child of node, which has none. */
  method InsertLeft<K(0,!new)>(tree: AvlTree<K>, node: Node<K>, new_: Node<K>, ghost c: Context<K>, ghost t: Tree<K>)
    requires Valid(tree) && tree.tree == Plug(c, t) && t.Fork? && t.left.Leaf? && t.group.node == node
    requires new_ !in tree.nodes && new_ != tree.head && Detached(new_) && new_.parent == node
    requires Splits(tree.comp, c, new_.key) && tree.comp(new_.key, node.key) < 0
    modifies tree`root, tree`turns, tree`count, tree`tree, tree`nodes, tree.head`next, tree.head`prev
    modifies tree.nodes`next, tree.nodes`prev, tree.nodes`left, tree.nodes`right, tree.nodes`parent, tree.nodes`balance
    modifies new_`next, new_`prev, new_`left, new_`right, new_`parent, new_`balance
    ensures Valid(tree)
    ensures var s := old(Contents(tree)); Contents(tree) == Inserted(s, Slot(tree.comp, Keys(s), new_.key), new_)
    ensures FewTurns(old(tree.turns), tree.turns)
  {
    hide Walk, Flat, Height, Members, CMembers, CAvl, GoodWalk, Ring, Outer, TotalPreorder, Splits, Front, Distinct,
      Inserted, Slot, Keys, CountOf, Proper, CProper, Shape;
    LinkBefore(tree, node, new_, c, t);
    ghost var v;
    v := tree.AttachLeft(node, new_, c, t);
    tree.tree := v;
  }

  /** _avl_find_last: the last node in the list of the group that starts with s[i]. */
  method FindLast<K(!new)>(head: Node<K>, start: Node<K>, ghost s: seq<Node<K>>, ghost i: nat, ghost j: nat)
    returns (last: Node<K>)
    requires Ring(head, s) && i < j <= |s| && s[i] == start
    requires forall k :: i < k < j ==> s[k].follower
    requires j < |s| ==> !s[j].follower
    ensures last == s[j - 1]
  {
    hide Ring, Distinct;
    ghost var k := i;
    last := start;
    Neighbours(head, s, k);
    while head.prev != last
      invariant Ring(head, s) && i <= k < j && last == s[k]
      invariant head.prev == last <==> k == |s| - 1
      decreases j - k
    {
      Neighbours(head, s, k);
      var next := last.next;
      if !next.follower {
        break;
      }
      last, k := next, k + 1;
      Neighbours(head, s, k);
    }
  }

  method LinkAfter<K(0,!new)>(tree: AvlTree<K>, node: Node<K>, new_: Node<K>, ghost c: Context<K>, ghost t: Tree<K>)
    requires Valid(tree) && tree.tree == Plug(c, t) && t.Fork? && t.right.Leaf? && t.group.node == node
    requires new_ !in tree.nodes && new_ != tree.head && Detached(new_) && new_.parent == node
    requires Splits(tree.comp, c, new_.key) && tree.comp(new_.key, node.key) > 0
    modifies tree`count, tree`nodes, tree.head`next, tree.head`prev, tree.nodes`next, tree.nodes`prev, new_`next,
      new_`prev
    ensures tree.nodes == old(tree.nodes) + {new_}
    ensures Linked(tree, c, t, new_, Walk(Plug(c, WithRight(t, new_))))
    ensures var s := old(Contents(tree));
      Flat(Walk(Plug(c, WithRight(t, new_)))) == Inserted(s, Slot(tree.comp, Keys(s), new_.key), new_)
  {
    hide Walk, Flat, Height, Members, CMembers, CAvl, GoodWalk, Ring, Outer, TotalPreorder, Splits, Front, Distinct,
      Inserted, Slot, Keys, CountOf, Proper, CProper, Shape;
    ghost var s, i := Contents(tree), |Front(c, t)|;
    ghost var j := i + 1 + |t.group.followers|;
    Prepare(tree, c, t, new_);
    InsertRightFacts(tree.comp, tree.allowDups, c, t, new_);
    var last := FindLast(tree.head, node, s, i, j);
    AtNode(tree.head, s, j - 1);
    LinkIn(tree, last, last.next, new_, s, j);
  }

  /** new_ becomes the right child of node, which has none. */
  method InsertRight<K(0,!new)>(tree: AvlTree<K>, node: Node<K>, new_: Node<K>, ghost c: Context<K>, ghost t: Tree<K>)
    requires Valid(tree) && tree.tree == Plug(c, t) && t.Fork? && t.right.Leaf? && t.group.node == node
    requires new_ !in tree.nodes && new_ != tree.head && Detached(new_) && new_.parent == node
    requires Splits(tree.comp, c, new_.key) && tree.comp(new_.key, node.key) > 0
    modifies tree`root, tree`turns, tree`count, tree`tree, tree`nodes, tree.head`next, tree.head`prev
    modifies tree.nodes`next, tree.nodes`prev, tree.nodes`left, tree.nodes`right, tree.nodes`parent, tree.nodes`balance
    modifies new_`next, new_`prev, new_`left, new_`right, new_`parent, new_`balance
    ensures Valid(tree)
    ensures var s := old(Contents(tree)); Contents(tree) == Inserted(s, Slot(tree.comp, Keys(s), new_.key), new_)
    ensures FewTurns(old(tree.turns), tree.turns)
  {
    hide Walk, Flat, Height, Members, CMembers, CAvl, GoodWalk, Ring, Outer, TotalPreorder, Splits, Front, Distinct,
      Inserted, Slot, Keys, CountOf, Proper, CProper, Shape;
    LinkAfter(tree, node, new_, c, t);
    ghost var v;
    v := tree.AttachRight(node, new_, c, t);
    tree.tree := v;
  }

  ghost function WithFollower<K>(t: Tree<K>, n: Node<K>): Tree<K>
    requires t.Fork?
  {
    Fork(t.left, Group(t.group.node, [n] + t.group.followers), t.right)
  }

  lemma {:induction false} InsertFollowerFacts<K(!new)>(comp: (K, K) -> int, c: Context<K>, t: Tree<K>, n: Node<K>)
    requires TotalPreorder(comp) && t.Fork? && GoodWalk(comp, true, Walk(Plug(c, t)))
    requires Splits(comp, c, n.key) && comp(n.key, t.group.node.key) == 0 && n.follower
    ensures var s, r, i := Flat(Walk(Plug(c, t))), Walk(Plug(c, WithFollower(t, n))), |Front(c, t)|;
      && i < |s| && s[i] == t.group.node
      && GoodWalk(comp, true, r) && Flat(r) == Inserted(s, i + 1, n) && Slot(comp, Keys(s), n.key) == i + 1
  {
    hide Walk, Before, After, Plug, Flat, TotalPreorder, Splits, Flags;
    var a, b := Before(c) + Walk(t.left), Walk(t.right) + After(c);
    var u := WithFollower(t, n);
    FoundInWalk(comp, c, t, n.key);
    FoundInList(comp, c, t, n.key);
    WalkFollower(c, t, n);
    FlagsParts(a, t.group, b);
    SortedFollowers(comp, a, t.group, b);
    TotalReflexive(comp, t.group.node.key);
    SameSide(comp, t.group.node.key, n.key, t.group.node.key);
    GoodGroup(comp, true, a, t.group, b, u.group);
    FlatParts(a, t.group, b);
    FlatParts(a, u.group, b);
    var s := Flat(Walk(Plug(c, t)));
    SlotAfter(comp, Keys(s), n.key, |Flat(a)|);
    var f, z := t.group.followers, Flat(b);
    assert Flat(a) + [t.group.node] + ([n] + f) + z == Inserted(Flat(a) + [t.group.node] + f + z, |Flat(a)| + 1, n);
  }

  lemma {:induction false} WalkFollower<K>(c: Context<K>, t: Tree<K>, n: Node<K>)
    requires t.Fork?
    ensures Walk(Plug(c, WithFollower(t, n)))
      == (Before(c) + Walk(t.left)) + [WithFollower(t, n).group] + (Walk(t.right) + After(c))
  {
    PlugWalk(c, WithFollower(t, n));
    Regroup(Before(c), Walk(t.left), [WithFollower(t, n).group], Walk(t.right), After(c));
  }

  /** Two trees that differ only in followers have the same shape. */
  lemma {:induction false} SamePlace<K(0,!new)>(tree: AvlTree<K>, c: Context<K>, t: Tree<K>, u: Tree<K>)
    requires tree.Placed(c, t, Height(t), Outer(c, Height(t))) && Avl(t) && CAvl(c, Height(t))
    requires t.Fork? && u.Fork? && u.left == t.left && u.right == t.right && u.group.node == t.group.node
    ensures tree.Placed(Top, Plug(c, u), Height(Plug(c, u)), 0) && Avl(Plug(c, u))
  {
    hide CMembers, CProper, CAvl, AvlTree.Around;
    ShapeFork(t, CRoot(c));
    ShapeFork(u, CRoot(c));
    tree.Settled(c, u);
  }

  /** new_ is put into the list directly behind the tree node with the same key. */
  method InsertFollower<K(0,!new)>(tree: AvlTree<K>, node: Node<K>, new_: Node<K>, ghost c: Context<K>,
                                   ghost t: Tree<K>)
    requires Valid(tree) && tree.allowDups && tree.tree == Plug(c, t) && t.Fork? && t.group.node == node
    requires new_ !in tree.nodes && new_ != tree.head && new_.follower
    requires Splits(tree.comp, c, new_.key) && tree.comp(new_.key, node.key) == 0
    modifies tree`count, tree`tree, tree`nodes, tree.head`next, tree.head`prev, tree.nodes`next, tree.nodes`prev,
      new_`next, new_`prev
    ensures Valid(tree)
    ensures var s := old(Contents(tree)); Contents(tree) == Inserted(s, Slot(tree.comp, Keys(s), new_.key), new_)
  {
    hide Walk, Flat, Height, Members, CMembers, CAvl, GoodWalk, Ring, Outer, TotalPreorder, Splits, Front, Distinct,
      Inserted, Slot, Keys, CountOf, Proper, CProper, Shape;
    ghost var s, i := Contents(tree), |Front(c, t)|;
    Prepare(tree, c, t, new_);
    InsertFollowerFacts(tree.comp, c, t, new_);
    AtNode(tree.head, s, i);
    LinkIn(tree, node, node.next, new_, s, i + 1);
    SamePlace(tree, c, t, WithFollower(t, new_));
    tree.tree := Plug(c, WithFollower(t, new_));
  }

  method InsertFirst<K(0,!new)>(tree: AvlTree<K>, new_: Node<K>)
    requires Valid(tree) && tree.root == null && new_ !in tree.nodes && new_ != tree.head && Detached(new_)
      && new_.parent == null
    modifies tree`root, tree`count, tree`tree, tree`nodes, tree.head`next, tree.head`prev, tree.nodes`next,
      tree.nodes`prev, new_`next, new_`prev
    ensures Valid(tree) && old(Contents(tree)) == []
    ensures Contents(tree) == Inserted([], Slot(tree.comp, Keys<K>([]), new_.key), new_)
  {
    RootFacts(tree, new_.key);
    AddHead(tree.head, new_, []);
    assert [new_] + [] == [new_];
    tree.root := new_;
    tree.count := 1;
    tree.tree, tree.nodes := NewLeaf(new_), {new_};
    NewLeafFacts(new_);
    assert Flat([Group(new_, [])]) == [new_];
  }

  method Reset<K>(new_: Node<K>)
    modifies new_`parent, new_`left, new_`right, new_`balance, new_`follower
    ensures Detached(new_) && new_.parent == null
  {
    new_.parent := null;
    new_.left := null;
    new_.right := null;
    new_.balance := 0;
    new_.follower := false;
  }

  /** The part of avl_insert behind the search. */
  method InsertAt<K(0,!new)>(tree: AvlTree<K>, node: Node<K>, diff: int, new_: Node<K>, ghost c: Context<K>,
                             ghost t: Tree<K>)
    requires Valid(tree) && tree.tree == Plug(c, t) && t.Fork? && t.group.node == node
    requires new_ !in tree.nodes && new_ != tree.head && Detached(new_)
    requires Splits(tree.comp, c, new_.key) && diff == tree.comp(new_.key, node.key)
    requires (diff < 0 ==> t.left.Leaf?) && (diff > 0 ==> t.right.Leaf?) && (diff == 0 ==> tree.allowDups)
    modifies tree`root, tree`turns, tree`count, tree`tree, tree`nodes, tree.head`next, tree.head`prev
    modifies tree.nodes`next, tree.nodes`prev, tree.nodes`left, tree.nodes`right, tree.nodes`parent, tree.nodes`balance
    modifies new_`next, new_`prev, new_`left, new_`right, new_`parent, new_`balance, new_`follower
    ensures Valid(tree)
    ensures var s := old(Contents(tree)); Contents(tree) == Inserted(s, Slot(tree.comp, Keys(s), new_.key), new_)
    ensures new_.follower <==> diff == 0
    ensures FewTurns(old(tree.turns), tree.turns)
  {
    hide Walk, Members, Flat, Height, TotalPreorder, Flags, Splits, Avl, Ring, Distinct, GoodWalk, Inserted, Slot, Keys;
    if diff == 0 {
      new_.follower := true;
      InsertFollower(tree, node, new_, c, t);
      return;
    }
    Balances(tree, c, t);
    new_.parent := node;
    if node.balance == 1 {
      InsertLeft(tree, node, new_, c, t);
      return;
    }
    if node.balance == -1 {
      InsertRight(tree, node, new_, c, t);
      return;
    }
    if diff < 0 {
      InsertLeft(tree, node, new_, c, t);
    } else {
      InsertRight(tree, node, new_, c, t);
    }
  }

  /** A node with an empty left subtree does not lean left, and the other way round. */
  lemma {:induction false} Balances<K(0,!new)>(tree: AvlTree<K>, c: Context<K>, t: Tree<K>)
    requires Valid(tree) && tree.tree == Plug(c, t) && t.Fork?
    ensures t.left.Leaf? ==> t.group.node.balance >= 0
    ensures t.right.Leaf? ==> t.group.node.balance <= 0
  {
    hide Walk, Flat, Members, CMembers, CAvl, GoodWalk, Ring, Outer, TotalPreorder, AvlTree.Around;
    tree.Unsettled(c, t);
    ShapeFork(t, CRoot(c));
  }

  /** avl_insert: 0, or -1 for a key that is taken in a tree without duplicates. A new key is put into its slot in
   *  the list; an equal one directly behind the tree node, in front of older followers. */
  method Insert<K(0,!new)>(tree: AvlTree<K>, new_: Node<K>) returns (result: int)
    requires Valid(tree) && new_ !in tree.nodes && new_ != tree.head
    modifies tree`root, tree`turns, tree`count, tree`tree, tree`nodes, tree.head`next, tree.head`prev
    modifies tree.nodes`next, tree.nodes`prev, tree.nodes`left, tree.nodes`right, tree.nodes`parent, tree.nodes`balance
    modifies new_`next, new_`prev, new_`left, new_`right, new_`parent, new_`balance, new_`follower
    ensures Valid(tree)
    ensures result == 0 || result == -1
    ensures result == -1 <==> !tree.allowDups && exists n :: n in old(Contents(tree)) && tree.comp(new_.key, n.key) == 0
    ensures result == -1 ==>
      unchanged(tree) && unchanged(tree.head) && forall n :: n in old(tree.nodes) ==> unchanged(n)
    ensures result == 0 ==>
      var s := old(Contents(tree)); Contents(tree) == Inserted(s, Slot(tree.comp, Keys(s), new_.key), new_)
    ensures result == 0 ==> (new_.follower <==> exists n :: n in old(Contents(tree)) && tree.comp(new_.key, n.key) == 0)
    ensures FewTurns(old(tree.turns), tree.turns)
  {
    hide Walk, Members, Flat, Height, TotalPreorder, Sorted, Splits, Shape, Contents, Inserted, Slot, Keys;
    Reset(new_);
    RootFacts(tree, new_.key);
    if tree.root == null {
      InsertFirst(tree, new_);
      return 0;
    }
    var node, diff;
    ghost var c, t, calls;
    node, diff, c, t, calls := FindRec(tree.root, new_.key, tree.comp, Top, tree.tree);
    FoundNode(tree, new_.key, c, t);
    if diff == 0 && !tree.allowDups {
      return -1;
    }
    InsertAt(tree, node, diff, new_, c, t);
    result := 0;
  }

  // ---------- Removing ----------

  /** The group that a node of the list is in. */
  lemma {:induction false} LocateAny<K>(c: Context<K>, t: Tree<K>, n: Node<K>) returns (d: Context<K>, u: Tree<K>)
    requires n in Flat(Walk(t))
    ensures u.Fork? && (n == u.group.node || n in u.group.followers) && Plug(d, u) == Plug(c, t)
    decreases t
  {
    FlatParts(Walk(t.left), t.group, Walk(t.right));
    if n in Flat(Walk(t.left)) {
      d, u := LocateAny(Frame(true, t.group, t.right, c), t.left, n);
    } else if n in Flat(Walk(t.right)) {
      d, u := LocateAny(Frame(false, t.group, t.left, c), t.right, n);
    } else {
      d, u := c, t;
    }
  }

  /** The list around a group, and where in it the group starts. */
  lemma {:induction false} AroundGroup<K>(c: Context<K>, t: Tree<K>)
    requires t.Fork?
    ensures Walk(Plug(c, t)) == (Before(c) + Walk(t.left)) + [t.group] + (Walk(t.right) + After(c))
    ensures Flat(Walk(Plug(c, t))) == Front(c, t) + [t.group.node] + t.group.followers + Back(c, t)
    ensures WithoutNode(c, t) == (Before(c) + Walk(t.left)) + (Walk(t.right) + After(c))
    ensures Flat(WithoutNode(c, t)) == Front(c, t) + Back(c, t)
  {
    hide Walk, Before, After, Plug, Flat;
    PlugWalk(c, t);
    ShapeWalk(t);
    Regroup(Before(c), Walk(t.left), [t.group], Walk(t.right), After(c));
    FlatParts(Before(c) + Walk(t.left), t.group, Walk(t.right) + After(c));
    assert WithoutNode(c, t) == (Before(c) + Walk(t.left)) + (Walk(t.right) + After(c));
    FlatConcat(Before(c) + Walk(t.left), Walk(t.right) + After(c));
  }

  lemma {:induction false} WalkRegrouped<K>(c: Context<K>, t: Tree<K>, g: Group<K>)
    requires t.Fork?
    ensures var u := Fork(t.left, g, t.right);
      && Walk(Plug(c, u)) == (Before(c) + Walk(t.left)) + [g] + (Walk(t.right) + After(c))
      && Flat(Walk(Plug(c, u))) == Front(c, t) + [g.node] + g.followers + Back(c, t)
  {
    AroundGroup(c, Fork(t.left, g, t.right));
  }

  lemma {:induction false} SortedGroup<K(!new)>(comp: (K, K) -> int, a: seq<Group<K>>, g: Group<K>, b: seq<Group<K>>,
                                                h: Group<K>)
    requires TotalPreorder(comp) && Sorted(comp, a + [g] + b)
    requires comp(g.node.key, h.node.key) == 0
    requires forall f :: f in h.followers ==> comp(g.node.key, f.key) == 0
    ensures Sorted(comp, a + [h] + b)
  {
    var s, old_ := a + [h] + b, a + [g] + b;
    forall x | x in s ensures x == h || x in old_ {
    }
    assert old_[|a|] == g;
    forall i, j | 0 <= i < j < |s| ensures comp(s[i].node.key, s[j].node.key) < 0 {
      assert comp(old_[i].node.key, old_[j].node.key) < 0;
      if i == |a| {
        Transitive(comp, h.node.key, g.node.key, s[j].node.key);
      } else if j == |a| {
        Transitive(comp, s[i].node.key, g.node.key, h.node.key);
      }
    }
    forall f | f in h.followers ensures comp(h.node.key, f.key) == 0 {
      Transitive(comp, h.node.key, g.node.key, f.key);
    }
  }

  lemma {:induction false} GoodDrop<K(!new)>(comp: (K, K) -> int, allowDups: bool, a: seq<Group<K>>, g: Group<K>,
                                             b: seq<Group<K>>)
    requires GoodWalk(comp, allowDups, a + [g] + b)
    ensures GoodWalk(comp, allowDups, a + b)
  {
    FlagsParts(a, g, b);
    FlagsConcat(a, b);
    var s, old_ := a + b, a + [g] + b;
    forall x | x in s ensures x in old_ {
    }
    forall i, j | 0 <= i < j < |s| ensures comp(s[i].node.key, s[j].node.key) < 0 {
      assert s[i] == old_[if i < |a| then i else i + 1] && s[j] == old_[if j < |a| then j else j + 1];
    }
  }

  /** v is the tree of all nodes of the list s except s[at], which is still in the list. */
  ghost predicate Rest<K(0,!new)>(tree: AvlTree<K>, v: Tree<K>, s: seq<Node<K>>, at: nat)
    requires at < |s|
    reads tree, tree.head, tree.nodes, Elems(s), Elems(Flat(Walk(v))), Members(v)
  {
    && TotalPreorder(tree.comp)
    && tree.Placed(Top, v, Height(v), 0) && Avl(v) && s[at] !in Members(v)
    && GoodWalk(tree.comp, tree.allowDups, Walk(v)) && Flat(Walk(v)) == Without(s, at)
    && Ring(tree.head, s) && tree.nodes == Elems(s) && tree.count == CountOf(s)
  }

  ghost function Regrouped<K>(t: Tree<K>, g: Group<K>): Tree<K>
    requires t.Fork?
  {
    Fork(t.left, g, t.right)
  }

  /** Taking a follower out of its group. */
  lemma {:induction false} UnfollowFacts<K(!new)>(comp: (K, K) -> int, allowDups: bool, c: Context<K>, t: Tree<K>,
                                                  k: nat)
    requires TotalPreorder(comp) && t.Fork? && GoodWalk(comp, allowDups, Walk(Plug(c, t))) && k < |t.group.followers|
    ensures var s, at, r := Flat(Walk(Plug(c, t))), |Front(c, t)| + 1 + k,
                            Walk(Plug(c, Regrouped(t, Group(t.group.node, Without(t.group.followers, k)))));
      && at < |s| && s[at] == t.group.followers[k]
      && GoodWalk(comp, allowDups, r) && Flat(r) == Without(s, at)
  {
    hide Walk, Before, After, Plug, Flat, TotalPreorder, Flags, Front, Back;
    var a, b := Before(c) + Walk(t.left), Walk(t.right) + After(c);
    var h := Group(t.group.node, Without(t.group.followers, k));
    AroundGroup(c, t);
    WalkRegrouped(c, t, h);
    FlagsParts(a, t.group, b);
    FlagsParts(a, h, b);
    SortedFollowers(comp, a, t.group, b);
    TotalReflexive(comp, t.group.node.key);
    SortedGroup(comp, a, t.group, b, h);
    assert t.group in a + [t.group] + b;
    assert forall x :: x in a + [h] + b ==> x == h || x in a + [t.group] + b;
    WithoutInner(Front(c, t) + [t.group.node], t.group.followers, Back(c, t), k);
  }

  lemma WithoutInner<T>(p: seq<T>, f: seq<T>, q: seq<T>, k: nat)
    requires k < |f|
    ensures p + Without(f, k) + q == Without(p + f + q, |p| + k)
    ensures (p + f + q)[|p| + k] == f[k]
  {
  }

  /** The first follower in the place of its tree node; its flag is still to be cleared. */
  lemma {:induction false} PromoteFacts<K(!new)>(comp: (K, K) -> int, c: Context<K>, t: Tree<K>)
    requires TotalPreorder(comp) && t.Fork? && Sorted(comp, Walk(Plug(c, t))) && t.group.followers != []
    ensures var s, at, f := Flat(Walk(Plug(c, t))), |Front(c, t)|, t.group.followers;
      var r := Walk(Plug(c, Regrouped(t, Group(f[0], f[1..]))));
      && at + 1 < |s| && s[at] == t.group.node && s[at + 1] == f[0]
      && Sorted(comp, r) && Flat(r) == Without(s, at)
  {
    hide Walk, Before, After, Plug, Flat, TotalPreorder, Flags, Front, Back;
    var a, b, f := Before(c) + Walk(t.left), Walk(t.right) + After(c), t.group.followers;
    var h := Group(f[0], f[1..]);
    AroundGroup(c, t);
    WalkRegrouped(c, t, h);
    SortedFollowers(comp, a, t.group, b);
    SortedGroup(comp, a, t.group, b, h);
    FirstOut(Front(c, t), t.group.node, f, Back(c, t));
  }

  lemma FirstOut<T>(p: seq<T>, n: T, f: seq<T>, q: seq<T>)
    requires f != []
    ensures p + [f[0]] + f[1..] + q == Without(p + [n] + f + q, |p|)
    ensures (p + [n] + f + q)[|p|] == n && (p + [n] + f + q)[|p| + 1] == f[0]
  {
    assert [f[0]] + f[1..] == f;
    assert p + [f[0]] + f[1..] + q == p + ([f[0]] + f[1..]) + q;
  }

  /** A tree node without followers leaves the walk. */
  lemma {:induction false} DropFacts<K(!new)>(comp: (K, K) -> int, allowDups: bool, c: Context<K>, t: Tree<K>)
    requires t.Fork? && GoodWalk(comp, allowDups, Walk(Plug(c, t))) && t.group.followers == []
    ensures var s, at := Flat(Walk(Plug(c, t))), |Front(c, t)|;
      && at < |s| && s[at] == t.group.node
      && GoodWalk(comp, allowDups, WithoutNode(c, t)) && Flat(WithoutNode(c, t)) == Without(s, at)
  {
    hide Walk, Before, After, Plug, Flat, Flags, Front, Back, Sorted, WithoutNode;
    AroundGroup(c, t);
    GoodDrop(comp, allowDups, Before(c) + Walk(t.left), t.group, Walk(t.right) + After(c));
    WithoutInner(Front(c, t), [t.group.node], Back(c, t), 0);
    assert Without([t.group.node], 0) == [];
    var p, q := Front(c, t), Back(c, t);
    assert p + [t.group.node] + [] + q == p + [t.group.node] + q;
    assert p + [] + q == p + q;
  }

  /** node, a follower, only has to leave the list. */
  lemma {:induction false} Unfollow<K(0,!new)>(tree: AvlTree<K>, c: Context<K>, t: Tree<K>, k: nat)
    requires Valid(tree) && tree.tree == Plug(c, t) && t.Fork? && k < |t.group.followers|
    ensures var v, s := Plug(c, Regrouped(t, Group(t.group.node, Without(t.group.followers, k)))), Contents(tree);
      |Front(c, t)| + 1 + k < |s| && s[|Front(c, t)| + 1 + k] == t.group.followers[k]
        && Rest(tree, v, s, |Front(c, t)| + 1 + k)
  {
    hide Walk, Flat, Height, Members, CMembers, CAvl, GoodWalk, Ring, TotalPreorder, Front, Distinct, Outer;
    var u := Regrouped(t, Group(t.group.node, Without(t.group.followers, k)));
    var at := |Front(c, t)| + 1 + k;
    UnfollowFacts(tree.comp, tree.allowDups, c, t, k);
    tree.Unsettled(c, t);
    SamePlace(tree, c, t, u);
    MembersInFlat(Plug(c, u));
    WithoutDistinct(tree.head, Contents(tree), at);
  }

  lemma {:induction false} WithoutDistinct<K>(head: Node<K>, s: seq<Node<K>>, at: nat)
    requires Ring(head, s) && at < |s|
    ensures s[at] !in Without(s, at)
    ensures Elems(Without(s, at)) == Elems(s) - {s[at]}
  {
    var r := Without(s, at);
    assert forall i :: 0 <= i < |r| ==> r[i] == s[if i < at then i else i + 1];
    forall y | y in s && y != s[at] ensures y in r {
      var j :| 0 <= j < |s| && s[j] == y;
      assert r[if j < at then j else j - 1] == y;
    }
  }

  /** Tree nodes are not followers, so a follower is not in the tree. */
  lemma {:induction false} FollowerOutside<K>(c: Context<K>, t: Tree<K>, n: Node<K>)
    requires t.Fork? && Flags(Walk(Plug(c, t))) && n in t.group.followers
    ensures n.follower && n !in Members(t) && n !in CMembers(c)
  {
    hide Walk, Flat, Members, CMembers, Plug, Flags;
    PlugWalk(c, t);
    NodeInWalk(t);
    FlagAt(Walk(Plug(c, t)), t.group);
    PlugProper(c, t);
    if n in Members(Plug(c, t)) {
      FlagAt(Walk(Plug(c, t)), GroupOf(Plug(c, t), n));
    }
  }

  lemma {:induction false} PromotePlace<K(0,!new)>(tree: AvlTree<K>, c: Context<K>, t: Tree<K>)
    requires Valid(tree) && tree.tree == Plug(c, t) && t.Fork? && t.group.followers != []
    ensures tree.Placed(c, t, Height(t), Outer(c, Height(t))) && Avl(t) && CAvl(c, Height(t))
    ensures var n := t.group.followers[0]; n in tree.nodes && n !in Members(t) && n !in CMembers(c)
    ensures Distinct(Contents(tree)) && tree.allowDups
  {
    hide Walk, Flat, Height, Members, CMembers, CAvl, TotalPreorder, Distinct, Outer, Sorted, Flags;
    tree.Unsettled(c, t);
    FollowerOutside(c, t, t.group.followers[0]);
    AroundGroup(c, t);
    assert t.group in Walk(tree.tree);
  }

  /** Clearing the flag of the first follower of g, which becomes the node of h, keeps the flags right. */
  method ClearFlag<K>(next: Node<K>, ghost a: seq<Group<K>>, ghost g: Group<K>, ghost b: seq<Group<K>>)
    requires Flags(a + [g] + b) && g.followers != [] && next == g.followers[0] && Distinct(Flat(a + [g] + b))
    modifies next`follower
    ensures Flags(a + [Group(next, g.followers[1..])] + b)
  {
    hide Flat, Flags;
    FlatParts(a, g, b);
    FlagsParts(a, g, b);
    ghost var p, f, q := Flat(a), g.followers, Flat(b);
    DistinctConcat(p + [g.node] + f, q);
    DistinctConcat(p + [g.node], f);
    DistinctConcat(p, [g.node]);
    assert next in Elems(f) && next in Elems(p + [g.node] + f);
    assert forall x :: x in p ==> x in Elems(p + [g.node]);
    assert next !in p && next !in q;
    assert forall i :: 0 < i < |f| ==> f[i] != f[0];
    next.follower := false;
    FlagsParts(a, Group(next, f[1..]), b);
  }

  /** The first follower of node takes its place in the tree. */
  method Promote<K(0,!new)>(tree: AvlTree<K>, node: Node<K>, next: Node<K>, ghost c: Context<K>, ghost t: Tree<K>)
    returns (ghost v: Tree<K>)
    requires Valid(tree) && tree.tree == Plug(c, t) && t.Fork? && t.group.node == node
    requires t.group.followers != [] && next == t.group.followers[0]
    modifies tree`root, tree.nodes`left, tree.nodes`right, tree.nodes`parent, tree.nodes`balance, next`follower
    ensures |Front(c, t)| < |Contents(tree)| && Contents(tree)[|Front(c, t)|] == node
      && Rest(tree, v, Contents(tree), |Front(c, t)|)
  {
    hide Walk, Flat, Height, Members, CMembers, CAvl, Ring, TotalPreorder, Front, Distinct, Outer, Sorted, Flags,
      Shape, Before, After;
    ghost var g := Group(next, t.group.followers[1..]);
    PromotePlace(tree, c, t);
    PromoteFacts(tree.comp, c, t);
    AroundGroup(c, t);
    WalkRegrouped(c, t, g);
    tree.Substitute(node, next, c, t, g);
    ClearFlag(next, Before(c) + Walk(t.left), t.group, Walk(t.right) + After(c));
    v := Plug(c, Regrouped(t, g));
    WithoutDistinct(tree.head, Contents(tree), |Front(c, t)|);
    MembersInFlat(v);
  }

  /** Which of the three ways of avl_remove applies. */
  lemma {:induction false} NextInGroup<K(0,!new)>(tree: AvlTree<K>, c: Context<K>, t: Tree<K>)
    requires Valid(tree) && tree.tree == Plug(c, t) && t.Fork?
    ensures var n, f := t.group.node, t.group.followers;
      && n in tree.nodes && !n.follower && (forall x :: x in f ==> x.follower)
      && (f != [] ==> tree.allowDups && tree.head.prev != n && n.next == f[0] && f[0] in tree.nodes)
      && (f == [] && tree.head.prev != n ==> n.next != null && !n.next.follower)
  {
    hide Walk, Flat, Height, Members, CMembers, TotalPreorder, Distinct, Sorted, Flags, Ring, Front, Back, Before,
      After;
    var s, i, f := Contents(tree), |Front(c, t)|, t.group.followers;
    AroundGroup(c, t);
    assert s[i] == t.group.node;
    AtNode(tree.head, s, i);
    Neighbours(tree.head, s, i);
    FlagAt(Walk(tree.tree), t.group);
    if f != [] {
      assert s[i + 1] == f[0];
    } else if i + 1 < |s| {
      BackNode(tree, c, t);
    }
  }

  lemma {:induction false} BackNode<K(0,!new)>(tree: AvlTree<K>, c: Context<K>, t: Tree<K>)
    requires Flags(Walk(tree.tree)) && tree.tree == Plug(c, t) && t.Fork? && Back(c, t) != []
    ensures !Back(c, t)[0].follower
  {
    AroundGroup(c, t);
    FlagsParts(Before(c) + Walk(t.left), t.group, Walk(t.right) + After(c));
  }

  /** _avl_remove */
  method Unlink<K(0,!new)>(tree: AvlTree<K>, node: Node<K>, ghost v: Tree<K>, ghost s: seq<Node<K>>, ghost at: nat)
    requires at < |s| && s[at] == node && Rest(tree, v, s, at)
    modifies tree`count, tree`tree, tree`nodes, tree.head`next, tree.head`prev, tree.nodes`next, tree.nodes`prev
    ensures Valid(tree) && Contents(tree) == Without(s, at) && tree.nodes == old(tree.nodes) - {node}
    ensures node.next == null && node.prev == null
  {
    hide Walk, Flat, Height, Members, TotalPreorder, Flags, Avl, Ring, Distinct, GoodWalk, Without, Shape, Proper;
    WithoutDistinct(tree.head, s, at);
    CountDown(s, at);
    ListRemove(node, tree.head, s, at);
    tree.count := (tree.count + COUNT_LIMIT - 1) % COUNT_LIMIT;
    tree.tree, tree.nodes := v, tree.nodes - {node};
  }

  lemma CountDown<T>(s: seq<T>, at: nat)
    requires at < |s|
    ensures CountOf(Without(s, at)) == (CountOf(s) + COUNT_LIMIT - 1) % COUNT_LIMIT
  {
  }

  /** A tree node without followers is taken out of the tree. */
  method RemoveNode<K(0,!new)>(tree: AvlTree<K>, node: Node<K>, ghost c: Context<K>, ghost t: Tree<K>)
    returns (ghost v: Tree<K>)
    requires Valid(tree) && tree.tree == Plug(c, t) && t.Fork? && t.group.node == node && t.group.followers == []
    modifies tree`root, tree`turns, tree.nodes`left, tree.nodes`right, tree.nodes`parent, tree.nodes`balance
    ensures |Front(c, t)| < |Contents(tree)| && Contents(tree)[|Front(c, t)|] == node
      && Rest(tree, v, Contents(tree), |Front(c, t)|)
  {
    hide Walk, Flat, Height, Members, CMembers, CAvl, Ring, TotalPreorder, Front, Distinct, Outer, Shape, Before,
      After, GoodWalk, WithoutNode;
    DropFacts(tree.comp, tree.allowDups, c, t);
    v := tree.RemoveWorker(node, c, t);
    WithoutDistinct(tree.head, Contents(tree), |Front(c, t)|);
    MembersInFlat(v);
  }

  /** avl_remove: the list loses exactly node. */
  method Remove<K(0,!new)>(tree: AvlTree<K>, node: Node<K>) returns (ghost at: nat)
    requires Valid(tree) && node in tree.nodes
    modifies tree`root, tree`turns, tree`count, tree`tree, tree`nodes, tree.head`next, tree.head`prev
    modifies tree.nodes`next, tree.nodes`prev, tree.nodes`left, tree.nodes`right, tree.nodes`parent,
      tree.nodes`balance, tree.nodes`follower
    ensures Valid(tree)
    ensures at < |old(Contents(tree))| && old(Contents(tree))[at] == node
    ensures Contents(tree) == Without(old(Contents(tree)), at) && tree.nodes == old(tree.nodes) - {node}
    ensures node.next == null && node.prev == null
  {
    hide Walk, Flat, Height, Members, TotalPreorder, Flags, Avl, Ring, Distinct, GoodWalk, Without, Shape, Proper,
      Front, Rest;
    ghost var c, t := LocateAny(Top, tree.tree, node);
    NextInGroup(tree, c, t);
    ghost var s, v := Contents(tree), tree.tree;
    if !node.follower {
      at := |Front(c, t)|;
      if tree.allowDups && tree.head.prev != node && node.next.follower {
        v := Promote(tree, node, node.next, c, t);
      } else {
        v := RemoveNode(tree, node, c, t);
      }
    } else {
      ghost var k :| 0 <= k < |t.group.followers| && t.group.followers[k] == node;
      at := |Front(c, t)| + 1 + k;
      v := Plug(c, Regrouped(t, Group(t.group.node, Without(t.group.followers, k))));
      Unfollow(tree, c, t, k);
    }
    Unlink(tree, node, v, s, at);
  }
}
