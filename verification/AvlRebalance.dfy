/** struct avl_tree and the rebalancing of common/avl.c: rotations, _post_insert, _avl_post_remove and
 *  _avl_remove_worker.
 */
module AvlRebalance {
  import opened Basics
  import opened OonfList
  import opened AvlShape

  /** The pointers and cached balances of the nodes of t, whose root hangs below p, are those of t. */
  ghost predicate Shape<K>(t: Tree<K>, p: Node?<K>)
    reads Members(t)`parent, Members(t)`left, Members(t)`right, Members(t)`balance
  {
    t.Fork? ==>
      && t.group.node.parent == p && t.group.node.left == Root(t.left) && t.group.node.right == Root(t.right)
      && t.group.node.balance as int == Height(t.right) - Height(t.left)
      && Shape(t.left, t.group.node) && Shape(t.right, t.group.node)
  }

  ghost function Below<K>(t: Tree<K>): set<Node<K>> {
    if t.Leaf? then {} else Members(t.left) + Members(t.right)
  }

  /** Shape without the parent pointer of the root: what stays true while a subtree is being moved. */
  ghost predicate Hangs<K>(t: Tree<K>)
    reads Members(t)`left, Members(t)`right, Members(t)`balance, Below(t)`parent
  {
    t.Fork? ==>
      && t.group.node.left == Root(t.left) && t.group.node.right == Root(t.right)
      && t.group.node.balance as int == Height(t.right) - Height(t.left)
      && Shape(t.left, t.group.node) && Shape(t.right, t.group.node)
  }

  lemma {:induction false} ShapeFork<K>(t: Tree<K>, p: Node?<K>)
    requires t.Fork?
    ensures var n := t.group.node; Shape(t, p) <==>
      && n.parent == p && n.left == Root(t.left) && n.right == Root(t.right)
      && n.balance as int == Height(t.right) - Height(t.left)
      && Shape(t.left, n) && Shape(t.right, n)
    ensures Members(t) == Members(t.left) + {t.group.node} + Members(t.right)
    ensures Height(t) == 1 + Max(Height(t.left), Height(t.right))
    ensures Proper(t) <==>
      && Proper(t.left) && Proper(t.right)
      && t.group.node !in Members(t.left) && t.group.node !in Members(t.right)
      && Members(t.left) !! Members(t.right)
  {
  }

  lemma {:induction false} ShapeHangs<K>(t: Tree<K>, p: Node?<K>)
    ensures t.Fork? ==> (Shape(t, p) <==> t.group.node.parent == p && Hangs(t))
    ensures t.Leaf? ==> Shape(t, p)
    ensures Proper(t) && t.Fork? ==> t.group.node in Members(t) && t.group.node !in Below(t)
    ensures Below(t) <= Members(t)
  {
  }

  lemma {:induction false} ShapeNewLeaf<K>(n: Node<K>, p: Node?<K>)
    ensures Shape(NewLeaf(n), p) <==> n.parent == p && n.left == null && n.right == null && n.balance == 0
  {
  }

  /** A rotation; every tree keeps the history of its rotations. */
  datatype Turn = LeftTurn | RightTurn

  /** No rotation, one single rotation or one double rotation. */
  ghost predicate FewTurns(before: seq<Turn>, after: seq<Turn>) {
    || after == before
    || after == before + [LeftTurn] || after == before + [RightTurn]
    || after == before + [LeftTurn, RightTurn] || after == before + [RightTurn, LeftTurn]
  }

  class AvlTree<K(0,!new)> {
    const head: Node<K>
    var root: Node?<K>
    var count: nat
    const allowDups: bool
    const comp: (K, K) -> int

    ghost var tree: Tree<K>
    ghost var nodes: set<Node<K>>
    ghost var turns: seq<Turn>

    /** avl_init */
    constructor (comp: (K, K) -> int, allowDups: bool)
      ensures this.comp == comp && this.allowDups == allowDups && fresh(head)
      ensures root == null && count == 0 && tree == Leaf && nodes == {}
      ensures Ring(head, [])
    {
      this.comp, this.allowDups := comp, allowDups;
      var k: K := *;
      var h := new Node(k);
      head := h;
      root, count := null, 0;
      tree, nodes, turns := Leaf, {}, [];
      new;
      InitHead(head);
    }

    /** The pointers around the hole are those of c, with the subtree at hole in it; the cached balances are
     *  right for a subtree of height h, except that above the innermost frame they are right for height k. */
    ghost predicate Around(c: Context<K>, hole: Node?<K>, h: nat, k: nat)
      reads this`root, CMembers(c)`parent, CMembers(c)`left, CMembers(c)`right, CMembers(c)`balance
      decreases c
    {
      if c.Top? then root == hole else
        var n := c.group.node;
        && n.parent == CRoot(c.up)
        && n.left == (if c.left then hole else Root(c.sibling))
        && n.right == (if c.left then Root(c.sibling) else hole)
        && n.balance as int == (if c.left then Height(c.sibling) - h else h - Height(c.sibling))
        && Shape(c.sibling, n) && Around(c.up, n, k, Outer(c.up, k))
    }

    lemma {:induction false} AroundFrame(c: Context<K>, hole: Node?<K>, h: nat, k: nat)
      requires c.Frame?
      ensures Around(c, hole, h, k) <==>
        var n := c.group.node;
        && n.parent == CRoot(c.up)
        && n.left == (if c.left then hole else Root(c.sibling))
        && n.right == (if c.left then Root(c.sibling) else hole)
        && n.balance as int == (if c.left then Height(c.sibling) - h else h - Height(c.sibling))
        && Shape(c.sibling, n) && Around(c.up, n, k, Outer(c.up, k))
      ensures CMembers(c) == {c.group.node} + Members(c.sibling) + CMembers(c.up)
      ensures CProper(c) <==>
        && Proper(c.sibling) && CProper(c.up)
        && c.group.node !in Members(c.sibling) && c.group.node !in CMembers(c.up)
        && Members(c.sibling) !! CMembers(c.up)
    {
    }

    /** The heap holds the tree Plug(c, t), except for the balances in c (see Around). */
    ghost predicate Placed(c: Context<K>, t: Tree<K>, h: nat, k: nat)
      reads this`root, this`nodes
      reads Members(t)`parent, Members(t)`left, Members(t)`right, Members(t)`balance
      reads CMembers(c)`parent, CMembers(c)`left, CMembers(c)`right, CMembers(c)`balance
    {
      Apart(c, t) && Members(t) + CMembers(c) <= nodes && Shape(t, CRoot(c)) && Around(c, Root(t), h, k)
    }

    /** Looking at the same tree from the parent of the hole, once the balance there is right. */
    lemma {:induction false} PlacedStep(c: Context<K>, t: Tree<K>, k: nat)
      requires c.Frame?
      ensures Placed(c, t, Height(t), k) <==> Placed(c.up, Step(c, t), k, Outer(c.up, k))
    {
      hide Members, Shape, Proper, Height, Around, CMembers, CProper, Outer;
      AroundFrame(c, Root(t), Height(t), k);
      ShapeFork(Step(c, t), CRoot(c.up));
    }

    lemma {:induction false} AtTop(t: Tree<K>, h: nat, k: nat)
      requires Placed(Top, t, h, k)
      ensures Placed(Top, t, Height(t), 0)
    {
    }

    /** The hole of a frame is not where its sibling is. */
    lemma {:induction false} HoleFacts(c: Context<K>, t: Tree<K>, h: nat, k: nat)
      requires Placed(c, t, h, k) && t.Fork?
      ensures t.group.node in Members(t) && t.group.node !in CMembers(c)
      ensures c.Frame? && !c.left ==> Root(c.sibling) != t.group.node
      ensures c.Frame? ==> (c.group.node.left == t.group.node <==> c.left)
    {
    }

    // ---------- Rotations ----------

    method SetChild(parent: Node?<K>, node: Node<K>, child: Node?<K>)
      modifies this`root
      modifies if parent == null then {} else {parent}`left
      modifies if parent == null then {} else {parent}`right
      ensures parent == null ==> root == child
      ensures parent != null ==> root == old(root)
      ensures parent != null && old(parent.left) == node ==> parent.left == child && parent.right == old(parent.right)
      ensures parent != null && old(parent.left) != node ==> parent.left == old(parent.left) && parent.right == child
    {
      if parent == null {
        root := child;
      } else if parent.left == node {
        parent.left := child;
      } else {
        parent.right := child;
      }
    }

    /** What hung in the hole of c is replaced by child. */
    method Rehang(parent: Node?<K>, node: Node<K>, child: Node?<K>, ghost c: Context<K>, ghost h: nat, ghost k: nat)
      requires CProper(c) && CMembers(c) <= nodes && Around(c, node, h, k) && parent == CRoot(c)
      requires c.Frame? && !c.left ==> Root(c.sibling) != node
      modifies this`root, CMembers(c)`left, CMembers(c)`right
      ensures Around(c, child, h, k)
    {
      if c.Frame? {
        AroundFrame(c, node, h, k);
      }
      hide Members, Shape, Proper, Height, CMembers, CProper;
      SetChild(parent, node, child);
      if c.Frame? {
        AroundFrame(c, child, h, k);
      }
    }

    method SwingRight(node: Node<K>, left: Node<K>, inner: Node?<K>, parent: Node?<K>)
      requires left.right == inner && node != left && inner != node && inner != left
      requires -2 <= node.balance <= 2 && -2 <= left.balance <= 2
      modifies node`left, node`parent, node`balance, left`right, left`parent, left`balance
      modifies if inner == null then {} else {inner}`parent
      ensures left.parent == parent && node.parent == left && node.left == inner && left.right == node
      ensures inner != null ==> inner.parent == node
      ensures node.balance as int == old(node.balance) as int + 1 - Min(old(left.balance) as int, 0)
      ensures left.balance as int == old(left.balance) as int + 1 + Max(node.balance as int, 0)
    {
      left.parent := parent;
      node.parent := left;
      node.left := left.right;
      left.right := node;
      if node.left != null {
        node.left.parent := node;
      }
      node.balance := node.balance + 1;
      if left.balance < 0 {
        node.balance := node.balance - left.balance;
      }
      left.balance := left.balance + 1;
      if node.balance > 0 {
        left.balance := left.balance + node.balance;
      }
    }

    method TurnRight(node: Node<K>, left: Node<K>, parent: Node?<K>, ghost t: Tree<K>)
      requires t.Fork? && t.left.Fork? && t.group.node == node && t.left.group.node == left
      requires Proper(t) && Shape(t, parent) && Members(t) <= nodes
      requires -2 <= node.balance <= 2 && -2 <= left.balance <= 2
      modifies Members(t)`parent, Members(t)`left, Members(t)`right, Members(t)`balance
      ensures Shape(RotatedRight(t), parent)
    {
      hide Members, Shape, Proper, Height, Hangs, Below;
      ghost var b := t.left.right;
      ShapeFork(t, parent);
      ShapeFork(t.left, node);
      ShapeHangs(b, left);
      SwingRight(node, left, left.right, parent);
      ShapeHangs(b, node);
      ShapeFork(RotatedRight(t).right, left);
      ShapeFork(RotatedRight(t), parent);
    }

    /** _avl_rotate_right */
    method RotateRight(node: Node<K>, ghost c: Context<K>, ghost t: Tree<K>, ghost h: nat, ghost k: nat)
      requires t.Fork? && t.left.Fork? && t.group.node == node && Placed(c, t, h, k)
      requires -2 <= node.balance <= 2 && -2 <= t.left.group.node.balance <= 2
      modifies this`root, this`turns, CMembers(c)`left, CMembers(c)`right
      modifies Members(t)`parent, Members(t)`left, Members(t)`right, Members(t)`balance
      ensures Placed(c, RotatedRight(t), h, k) && turns == old(turns) + [RightTurn]
      ensures Members(RotatedRight(t)) == Members(t) && Walk(RotatedRight(t)) == Walk(t)
    {
      hide Members, Shape, Proper, Height, Around, CMembers, CProper, Walk, Outer;
      RotatedRightFacts(t);
      ShapeFork(t, CRoot(c));
      HoleFacts(c, t, h, k);
      var left, parent := node.left, node.parent;
      Rehang(parent, node, left, c, h, k);
      TurnRight(node, left, parent, t);
      turns := turns + [RightTurn];
    }

    method SwingLeft(node: Node<K>, right: Node<K>, inner: Node?<K>, parent: Node?<K>)
      requires right.left == inner && node != right && inner != node && inner != right
      requires -2 <= node.balance <= 2 && -2 <= right.balance <= 2
      modifies node`right, node`parent, node`balance, right`left, right`parent, right`balance
      modifies if inner == null then {} else {inner}`parent
      ensures right.parent == parent && node.parent == right && node.right == inner && right.left == node
      ensures inner != null ==> inner.parent == node
      ensures node.balance as int == old(node.balance) as int - 1 - Max(old(right.balance) as int, 0)
      ensures right.balance as int == old(right.balance) as int - 1 + Min(node.balance as int, 0)
    {
      right.parent := parent;
      node.parent := right;
      node.right := right.left;
      right.left := node;
      if node.right != null {
        node.right.parent := node;
      }
      node.balance := node.balance - 1;
      if right.balance > 0 {
        node.balance := node.balance - right.balance;
      }
      right.balance := right.balance - 1;
      if node.balance < 0 {
        right.balance := right.balance + node.balance;
      }
    }

    method TurnLeft(node: Node<K>, right: Node<K>, parent: Node?<K>, ghost t: Tree<K>)
      requires t.Fork? && t.right.Fork? && t.group.node == node && t.right.group.node == right
      requires Proper(t) && Shape(t, parent) && Members(t) <= nodes
      requires -2 <= node.balance <= 2 && -2 <= right.balance <= 2
      modifies Members(t)`parent, Members(t)`right, Members(t)`left, Members(t)`balance
      ensures Shape(RotatedLeft(t), parent)
    {
      hide Members, Shape, Proper, Height, Hangs, Below;
      ghost var b := t.right.left;
      ShapeFork(t, parent);
      ShapeFork(t.right, node);
      ShapeHangs(b, right);
      SwingLeft(node, right, right.left, parent);
      ShapeHangs(b, node);
      ShapeFork(RotatedLeft(t).left, right);
      ShapeFork(RotatedLeft(t), parent);
    }

    /** _avl_rotate_left */
    method RotateLeft(node: Node<K>, ghost c: Context<K>, ghost t: Tree<K>, ghost h: nat, ghost k: nat)
      requires t.Fork? && t.right.Fork? && t.group.node == node && Placed(c, t, h, k)
      requires -2 <= node.balance <= 2 && -2 <= t.right.group.node.balance <= 2
      modifies this`root, this`turns, CMembers(c)`right, CMembers(c)`left
      modifies Members(t)`parent, Members(t)`right, Members(t)`left, Members(t)`balance
      ensures Placed(c, RotatedLeft(t), h, k) && turns == old(turns) + [LeftTurn]
      ensures Members(RotatedLeft(t)) == Members(t) && Walk(RotatedLeft(t)) == Walk(t)
    {
      hide Members, Shape, Proper, Height, Around, CMembers, CProper, Walk, Outer;
      RotatedLeftFacts(t);
      ShapeFork(t, CRoot(c));
      HoleFacts(c, t, h, k);
      var right, parent := node.right, node.parent;
      Rehang(parent, node, right, c, h, k);
      TurnLeft(node, right, parent, t);
      turns := turns + [LeftTurn];
    }

    /** node gets new_ as its left child. */
    method HangLeft(node: Node<K>, new_: Node<K>, balance: int8, ghost c: Context<K>, ghost t: Tree<K>)
      requires Placed(c, t, Height(t), Outer(c, Height(t))) && t.Fork? && t.left.Leaf? && t.group.node == node
      requires new_ in nodes && new_ !in Members(t) && new_ !in CMembers(c)
      requires new_.left == null && new_.right == null && new_.balance == 0 && new_.parent == node
      requires balance as int == Height(t.right) - 1
      modifies node`balance, node`left
      ensures node.balance == balance
      ensures var u := WithLeft(t, new_);
        Placed(c, u, Height(t), Outer(c, Height(t))) && Members(u) == Members(t) + {new_}
    {
      ghost var u := WithLeft(t, new_);
      NewLeafFacts(new_);
      ShapeNewLeaf(new_, node);
      LeafFacts<K>();
      hide Members, Proper, Shape, Height, CMembers, CProper, Around;
      ShapeFork(t, CRoot(c));
      node.balance := balance;
      node.left := new_;
      ShapeFork(u, CRoot(c));
    }

    /** node gets new_ as its right child. */
    method HangRight(node: Node<K>, new_: Node<K>, balance: int8, ghost c: Context<K>, ghost t: Tree<K>)
      requires Placed(c, t, Height(t), Outer(c, Height(t))) && t.Fork? && t.right.Leaf? && t.group.node == node
      requires new_ in nodes && new_ !in Members(t) && new_ !in CMembers(c)
      requires new_.left == null && new_.right == null && new_.balance == 0 && new_.parent == node
      requires balance as int == 1 - Height(t.left)
      modifies node`balance, node`right
      ensures node.balance == balance
      ensures var u := WithRight(t, new_);
        Placed(c, u, Height(t), Outer(c, Height(t))) && Members(u) == Members(t) + {new_}
    {
      ghost var u := WithRight(t, new_);
      NewLeafFacts(new_);
      ShapeNewLeaf(new_, node);
      LeafFacts<K>();
      hide Members, Proper, Shape, Height, CMembers, CProper, Around;
      ShapeFork(t, CRoot(c));
      node.balance := balance;
      node.right := new_;
      ShapeFork(u, CRoot(c));
    }

    // ---------- After an insert ----------

    /** parent->balance changes by delta: the balance of the innermost frame becomes right for t. */
    method Adjust(parent: Node<K>, delta: int8, ghost c: Context<K>, ghost t: Tree<K>, ghost h: nat)
      requires c.Frame? && c.group.node == parent && Placed(c, t, h, Outer(c, h))
      requires delta == -1 || delta == 1
      requires -1 <= Height(c.sibling) - h <= 1
      requires delta as int == if c.left then h - Height(t) else Height(t) - h
      modifies parent`balance
      ensures var k := Outer(c, h); Placed(c.up, Step(c, t), k, Outer(c.up, k))
      ensures parent.balance as int == if c.left then Height(c.sibling) - Height(t) else Height(t) - Height(c.sibling)
    {
      hide Members, Shape, Proper, Height, Around, CMembers, CProper;
      AroundFrame(c, Root(t), h, Outer(c, h));
      parent.balance := parent.balance + delta;
      AroundFrame(c, Root(t), Height(t), Outer(c, h));
      PlacedStep(c, t, Outer(c, h));
    }

    /** Once subtree and context agree on the height, all is in balance up to the root. */
    lemma {:induction false} Settled(c: Context<K>, t: Tree<K>)
      requires Placed(c, t, Height(t), Outer(c, Height(t))) && Avl(t) && CAvl(c, Height(t))
      ensures Placed(Top, Plug(c, t), Height(Plug(c, t)), 0) && Avl(Plug(c, t))
      decreases c
    {
      hide Members, Proper, Shape, CMembers, CProper, Walk;
      if c.Frame? {
        PlacedStep(c, t, Outer(c, Height(t)));
        Settled(c.up, Step(c, t));
      }
    }

    /** _post_insert: the subtree of node has grown from height h. The rest is rebalanced with at most one
     *  single or one double rotation. */
    method PostInsert(node: Node<K>, ghost c: Context<K>, ghost t: Tree<K>, ghost h: nat)
      returns (ghost u: Tree<K>)
      requires Placed(c, t, h, Outer(c, h)) && t.Fork? && t.group.node == node
      requires Height(t) == h + 1 && Avl(t) && CAvl(c, h) && node.balance != 0
      modifies this`root, this`turns, CMembers(c)`left, CMembers(c)`right, CMembers(c)`parent, CMembers(c)`balance
      modifies Members(t)`parent, Members(t)`left, Members(t)`right, Members(t)`balance
      ensures Placed(Top, u, Height(u), 0) && Avl(u)
      ensures Walk(u) == Walk(Plug(c, t)) && Members(u) == Members(Plug(c, t))
      ensures FewTurns(old(turns), turns)
      decreases c, 1
    {
      hide Members, Proper, Height, CMembers, CProper, Walk, CAvl;
      var parent := node.parent;
      ShapeFork(t, CRoot(c));
      if parent == null {
        return t;
      }
      HoleFacts(c, t, h, Outer(c, h));
      if node == parent.left {
        u := GrownLeft(node, parent, c, t, h);
      } else {
        u := GrownRight(node, parent, c, t, h);
      }
    }

    method GrownLeft(node: Node<K>, parent: Node<K>, ghost c: Context<K>, ghost t: Tree<K>, ghost h: nat)
      returns (ghost u: Tree<K>)
      requires c.Frame? && c.left && c.group.node == parent
      requires Placed(c, t, h, Outer(c, h)) && t.Fork? && t.group.node == node
      requires Height(t) == h + 1 && Avl(t) && CAvl(c, h) && node.balance != 0
      modifies this`root, this`turns, CMembers(c)`left, CMembers(c)`right, CMembers(c)`parent, CMembers(c)`balance
      modifies Members(t)`parent, Members(t)`left, Members(t)`right, Members(t)`balance
      ensures Placed(Top, u, Height(u), 0) && Avl(u)
      ensures Walk(u) == Walk(Plug(c, t)) && Members(u) == Members(Plug(c, t))
      ensures FewTurns(old(turns), turns)
      decreases c, 0
    {
      hide Members, Shape, Proper, Around, CMembers, CProper, Walk;
      ghost var k, s := Outer(c, h), Step(c, t);
      AroundFrame(c, Root(t), h, k);
      ShapeFork(s, CRoot(c.up));
      Adjust(parent, -1, c, t, h);
      if parent.balance == 0 {
        Settled(c.up, s);
        return Plug(c.up, s);
      }
      if parent.balance == -1 {
        u := PostInsert(parent, c.up, s, k);
        return;
      }
      ShapeFork(s, CRoot(c.up));
      ShapeFork(t, parent);
      PlacedStep(c, t, k);
      if node.balance == -1 {
        RotateRight(parent, c.up, s, k, Outer(c.up, k));
        SingleRight(s);
        Settled(c.up, RotatedRight(s));
        PlugSame(c.up, s, RotatedRight(s));
        return Plug(c.up, RotatedRight(s));
      }
      DoubleTurnRight(node, parent, c, t, k);
      return Plug(c.up, RotatedRight(Step(c, RotatedLeft(t))));
    }

    /** The two rotations that make a tree of an outer subtree two higher, its inner child being the higher. */
    method DoubleTurnRight(node: Node<K>, parent: Node<K>, ghost c: Context<K>, ghost t: Tree<K>, ghost k: nat)
      requires c.Frame? && c.left && c.group.node == parent && t.Fork? && t.group.node == node
      requires Placed(c, t, Height(t), k) && Avl(t) && Avl(c.sibling)
      requires Height(t) == Height(c.sibling) + 2 && Height(t.left) < Height(t.right)
      requires k == Height(t) && CAvl(c.up, k)
      modifies this`root, this`turns, CMembers(c)`left, CMembers(c)`right, CMembers(c)`parent, CMembers(c)`balance
      modifies Members(t)`parent, Members(t)`left, Members(t)`right, Members(t)`balance
      ensures var u := Plug(c.up, RotatedRight(Step(c, RotatedLeft(t))));
        && Placed(Top, u, Height(u), 0) && Avl(u)
        && Walk(u) == Walk(Plug(c, t)) && Members(u) == Members(Plug(c, t))
      ensures turns == old(turns) + [LeftTurn, RightTurn]
    {
      ghost var s, l, s2 := Step(c, t), RotatedLeft(t), Step(c, RotatedLeft(t));
      hide Members, Shape, Proper, Around, CMembers, CProper, Walk, Height, CAvl;
      AroundFrame(c, Root(t), Height(t), k);
      ShapeFork(s, CRoot(c.up));
      ShapeFork(t, parent);
      ShapeFork(t.right, node);
      DoubleRight(s);
      RotateLeft(node, c, t, Height(t), k);
      PlacedStep(c, l, k);
      ShapeFork(s2, CRoot(c.up));
      ShapeFork(l, parent);
      ShapeFork(l.left, l.group.node);
      RotateRight(node.parent.parent, c.up, s2, k, Outer(c.up, k));
      Settled(c.up, RotatedRight(s2));
      StepSame(c, t, l);
      PlugSame(c.up, s, RotatedRight(s2));
    }

    method GrownRight(node: Node<K>, parent: Node<K>, ghost c: Context<K>, ghost t: Tree<K>, ghost h: nat)
      returns (ghost u: Tree<K>)
      requires c.Frame? && !c.left && c.group.node == parent
      requires Placed(c, t, h, Outer(c, h)) && t.Fork? && t.group.node == node
      requires Height(t) == h + 1 && Avl(t) && CAvl(c, h) && node.balance != 0
      modifies this`root, this`turns, CMembers(c)`left, CMembers(c)`right, CMembers(c)`parent, CMembers(c)`balance
      modifies Members(t)`parent, Members(t)`left, Members(t)`right, Members(t)`balance
      ensures Placed(Top, u, Height(u), 0) && Avl(u)
      ensures Walk(u) == Walk(Plug(c, t)) && Members(u) == Members(Plug(c, t))
      ensures FewTurns(old(turns), turns)
      decreases c, 0
    {
      hide Members, Shape, Proper, Around, CMembers, CProper, Walk;
      ghost var k, s := Outer(c, h), Step(c, t);
      AroundFrame(c, Root(t), h, k);
      ShapeFork(s, CRoot(c.up));
      Adjust(parent, 1, c, t, h);
      if parent.balance == 0 {
        Settled(c.up, s);
        return Plug(c.up, s);
      }
      if parent.balance == 1 {
        u := PostInsert(parent, c.up, s, k);
        return;
      }
      ShapeFork(s, CRoot(c.up));
      ShapeFork(t, parent);
      PlacedStep(c, t, k);
      if node.balance == 1 {
        RotateLeft(parent, c.up, s, k, Outer(c.up, k));
        SingleLeft(s);
        Settled(c.up, RotatedLeft(s));
        PlugSame(c.up, s, RotatedLeft(s));
        return Plug(c.up, RotatedLeft(s));
      }
      DoubleTurnLeft(node, parent, c, t, k);
      return Plug(c.up, RotatedLeft(Step(c, RotatedRight(t))));
    }

    /** The two rotations that make a tree of an outer subtree two higher, its inner child being the higher. */
    method DoubleTurnLeft(node: Node<K>, parent: Node<K>, ghost c: Context<K>, ghost t: Tree<K>, ghost k: nat)
      requires c.Frame? && !c.left && c.group.node == parent && t.Fork? && t.group.node == node
      requires Placed(c, t, Height(t), k) && Avl(t) && Avl(c.sibling)
      requires Height(t) == Height(c.sibling) + 2 && Height(t.right) < Height(t.left)
      requires k == Height(t) && CAvl(c.up, k)
      modifies this`root, this`turns, CMembers(c)`left, CMembers(c)`right, CMembers(c)`parent, CMembers(c)`balance
      modifies Members(t)`parent, Members(t)`left, Members(t)`right, Members(t)`balance
      ensures var u := Plug(c.up, RotatedLeft(Step(c, RotatedRight(t))));
        && Placed(Top, u, Height(u), 0) && Avl(u)
        && Walk(u) == Walk(Plug(c, t)) && Members(u) == Members(Plug(c, t))
      ensures turns == old(turns) + [RightTurn, LeftTurn]
    {
      ghost var s, l, s2 := Step(c, t), RotatedRight(t), Step(c, RotatedRight(t));
      hide Members, Shape, Proper, Around, CMembers, CProper, Walk, Height, CAvl;
      AroundFrame(c, Root(t), Height(t), k);
      ShapeFork(s, CRoot(c.up));
      ShapeFork(t, parent);
      ShapeFork(t.left, node);
      DoubleLeft(s);
      RotateRight(node, c, t, Height(t), k);
      PlacedStep(c, l, k);
      ShapeFork(s2, CRoot(c.up));
      ShapeFork(l, parent);
      ShapeFork(l.right, l.group.node);
      RotateLeft(node.parent.parent, c.up, s2, k, Outer(c.up, k));
      Settled(c.up, RotatedLeft(s2));
      StepSame(c, t, l);
      PlugSame(c.up, s, RotatedLeft(s2));
    }

    method AttachLeft(node: Node<K>, new_: Node<K>, ghost c: Context<K>, ghost t: Tree<K>)
      returns (ghost u: Tree<K>)
      requires Placed(c, t, Height(t), Outer(c, Height(t))) && Avl(t) && CAvl(c, Height(t))
      requires t.Fork? && t.left.Leaf? && t.group.node == node
      requires new_ in nodes && new_ !in Members(t) && new_ !in CMembers(c)
      requires new_.left == null && new_.right == null && new_.balance == 0 && new_.parent == node
      modifies this`root, this`turns, CMembers(c)`left, CMembers(c)`right, CMembers(c)`parent, CMembers(c)`balance
      modifies Members(t)`parent, Members(t)`left, Members(t)`right, Members(t)`balance
      modifies new_`parent, new_`left, new_`right, new_`balance
      ensures Placed(Top, u, Height(u), 0) && Avl(u) && Walk(u) == Walk(Plug(c, WithLeft(t, new_)))
      ensures FewTurns(old(turns), turns)
    {
      hide Members, Proper, Shape, Height, CMembers, CProper, Around, Walk, CAvl, Avl;
      WithHeights(t, new_);
      LeafFacts<K>();
      ShapeFork(t, CRoot(c));
      if node.balance == 1 {
        HangLeft(node, new_, 0, c, t);
        Settled(c, WithLeft(t, new_));
        u := Plug(c, WithLeft(t, new_));
      } else {
        HangLeft(node, new_, -1, c, t);
        u := PostInsert(node, c, WithLeft(t, new_), Height(t));
      }
    }

    method AttachRight(node: Node<K>, new_: Node<K>, ghost c: Context<K>, ghost t: Tree<K>)
      returns (ghost u: Tree<K>)
      requires Placed(c, t, Height(t), Outer(c, Height(t))) && Avl(t) && CAvl(c, Height(t))
      requires t.Fork? && t.right.Leaf? && t.group.node == node
      requires new_ in nodes && new_ !in Members(t) && new_ !in CMembers(c)
      requires new_.left == null && new_.right == null && new_.balance == 0 && new_.parent == node
      modifies this`root, this`turns, CMembers(c)`left, CMembers(c)`right, CMembers(c)`parent, CMembers(c)`balance
      modifies Members(t)`parent, Members(t)`left, Members(t)`right, Members(t)`balance
      modifies new_`parent, new_`left, new_`right, new_`balance
      ensures Placed(Top, u, Height(u), 0) && Avl(u) && Walk(u) == Walk(Plug(c, WithRight(t, new_)))
      ensures FewTurns(old(turns), turns)
    {
      hide Members, Proper, Shape, Height, CMembers, CProper, Around, Walk, CAvl, Avl;
      WithHeights(t, new_);
      LeafFacts<K>();
      ShapeFork(t, CRoot(c));
      if node.balance == -1 {
        HangRight(node, new_, 0, c, t);
        Settled(c, WithRight(t, new_));
        u := Plug(c, WithRight(t, new_));
      } else {
        HangRight(node, new_, 1, c, t);
        u := PostInsert(node, c, WithRight(t, new_), Height(t));
      }
    }

    // ---------- After a removal ----------

    /** _avl_post_remove: the subtree of node has lost height: it was h before. The removal of a leaf in
     *  _avl_remove_worker continues in the same way from the parent of the leaf. */
    method PostRemove(node: Node<K>, ghost c: Context<K>, ghost t: Tree<K>, ghost h: nat) returns (ghost u: Tree<K>)
      requires t.Fork? && t.group.node == node
      requires Placed(c, t, h, Outer(c, h)) && h == Height(t) + 1 && Avl(t) && CAvl(c, h)
      modifies this`root, this`turns, CMembers(c)`left, CMembers(c)`right, CMembers(c)`parent, CMembers(c)`balance
      modifies Members(t)`parent, Members(t)`left, Members(t)`right, Members(t)`balance
      ensures Placed(Top, u, Height(u), 0) && Avl(u)
      ensures Walk(u) == Walk(Plug(c, t)) && Members(u) == Members(Plug(c, t))
      decreases c, 3
    {
      hide Members, Proper, Height, CMembers, CProper, Walk, CAvl;
      var parent := node.parent;
      ShapeFork(t, CRoot(c));
      if parent == null {
        return t;
      }
      HoleFacts(c, t, h, Outer(c, h));
      if node == parent.left {
        u := ShrunkLeft(parent, c, t, h);
      } else {
        u := ShrunkRight(parent, c, t, h);
      }
    }

    /** The left child of parent has lost height: it was h before. */
    method ShrunkLeft(parent: Node<K>, ghost c: Context<K>, ghost t: Tree<K>, ghost h: nat) returns (ghost u: Tree<K>)
      requires c.Frame? && c.left && c.group.node == parent
      requires Placed(c, t, h, Outer(c, h)) && h == Height(t) + 1 && Avl(t) && CAvl(c, h)
      modifies this`root, this`turns, CMembers(c)`left, CMembers(c)`right, CMembers(c)`parent, CMembers(c)`balance
      modifies Members(t)`parent, Members(t)`left, Members(t)`right, Members(t)`balance
      ensures Placed(Top, u, Height(u), 0) && Avl(u)
      ensures Walk(u) == Walk(Plug(c, t)) && Members(u) == Members(Plug(c, t))
      decreases c, 2
    {
      hide Members, Shape, Proper, Around, CMembers, CProper, Walk, Height, CAvl;
      ghost var k, s := Outer(c, h), Step(c, t);
      CAvlFrame(c, h);
      AroundFrame(c, Root(t), h, k);
      ShapeFork(s, CRoot(c.up));
      Adjust(parent, 1, c, t, h);
      if parent.balance == 0 {
        u := PostRemove(parent, c.up, s, k);
        return;
      }
      if parent.balance == 1 {
        Settled(c.up, s);
        return Plug(c.up, s);
      }
      u := RaiseLeft(parent, c, t, k);
    }

    /** The left subtree of parent is two lower than the right one. */
    method RaiseLeft(parent: Node<K>, ghost c: Context<K>, ghost t: Tree<K>, ghost k: nat) returns (ghost u: Tree<K>)
      requires c.Frame? && c.left && c.group.node == parent
      requires Placed(c.up, Step(c, t), k, Outer(c.up, k)) && Avl(t) && Avl(c.sibling)
      requires Height(c.sibling) == Height(t) + 2 && k == Height(Step(c, t)) && CAvl(c.up, k)
      modifies this`root, this`turns, CMembers(c)`left, CMembers(c)`right, CMembers(c)`parent, CMembers(c)`balance
      modifies Members(t)`parent, Members(t)`left, Members(t)`right, Members(t)`balance
      ensures Placed(Top, u, Height(u), 0) && Avl(u)
      ensures Walk(u) == Walk(Plug(c, t)) && Members(u) == Members(Plug(c, t))
      decreases c, 1
    {
      ghost var s := Step(c, t);
      hide Members, Shape, Proper, Around, CMembers, CProper, Walk, Height, CAvl;
      AroundFrame(c, Root(t), Height(t), k);
      ShapeFork(s, CRoot(c.up));
      ShapeFork(s.right, parent);
      if parent.right.balance == 0 {
        RotateLeft(parent, c.up, s, k, Outer(c.up, k));
        SingleLeft(s);
        Settled(c.up, RotatedLeft(s));
        PlugSame(c.up, s, RotatedLeft(s));
        return Plug(c.up, RotatedLeft(s));
      }
      if parent.right.balance == 1 {
        RotateLeft(parent, c.up, s, k, Outer(c.up, k));
        SingleLeft(s);
        ShapeFork(RotatedLeft(s), CRoot(c.up));
        ShapeFork(RotatedLeft(s).left, RotatedLeft(s).group.node);
        PlugSame(c.up, s, RotatedLeft(s));
        u := PostRemove(parent.parent, c.up, RotatedLeft(s), k);
        return;
      }
      u := DoubleRaiseLeft(parent, c, t, k);
    }

    method DoubleRaiseLeft(parent: Node<K>, ghost c: Context<K>, ghost t: Tree<K>, ghost k: nat)
      returns (ghost u: Tree<K>)
      requires c.Frame? && c.left && c.group.node == parent
      requires Placed(c.up, Step(c, t), k, Outer(c.up, k)) && Avl(t) && Avl(c.sibling)
      requires Height(c.sibling) == Height(t) + 2 && Height(c.sibling.right) < Height(c.sibling.left)
      requires k == Height(Step(c, t)) && CAvl(c.up, k)
      modifies this`root, this`turns, CMembers(c)`left, CMembers(c)`right, CMembers(c)`parent, CMembers(c)`balance
      modifies Members(t)`parent, Members(t)`left, Members(t)`right, Members(t)`balance
      ensures Placed(Top, u, Height(u), 0) && Avl(u)
      ensures Walk(u) == Walk(Plug(c, t)) && Members(u) == Members(Plug(c, t))
      decreases c, 0
    {
      ghost var s, d := Step(c, t), Frame(false, c.group, t, c.up);
      ghost var r := RotatedRight(c.sibling);
      ghost var s2 := Step(d, r);
      hide Members, Shape, Proper, Around, CMembers, CProper, Walk, Height, CAvl;
      AroundFrame(c, Root(t), Height(t), k);
      ShapeFork(s, CRoot(c.up));
      ShapeFork(s.right, parent);
      ShapeFork(s.right.left, s.right.group.node);
      DoubleLeft(s);
      PlacedStep(d, c.sibling, k);
      AroundFrame(d, Root(c.sibling), Height(c.sibling), k);
      RotateRight(parent.right, d, c.sibling, Height(c.sibling), k);
      PlacedStep(d, r, k);
      ShapeFork(s2, CRoot(c.up));
      ShapeFork(r, parent);
      RotateLeft(parent, c.up, s2, k, Outer(c.up, k));
      ghost var l := RotatedLeft(s2);
      ShapeFork(l, CRoot(c.up));
      ShapeFork(l.left, l.group.node);
      StepSame(d, c.sibling, r);
      PlugSame(c.up, s, l);
      u := PostRemove(parent.parent, c.up, l, k);
    }

    /** The right child of parent has lost height: it was h before. */
    method ShrunkRight(parent: Node<K>, ghost c: Context<K>, ghost t: Tree<K>, ghost h: nat) returns (ghost u: Tree<K>)
      requires c.Frame? && !c.left && c.group.node == parent
      requires Placed(c, t, h, Outer(c, h)) && h == Height(t) + 1 && Avl(t) && CAvl(c, h)
      modifies this`root, this`turns, CMembers(c)`left, CMembers(c)`right, CMembers(c)`parent, CMembers(c)`balance
      modifies Members(t)`parent, Members(t)`left, Members(t)`right, Members(t)`balance
      ensures Placed(Top, u, Height(u), 0) && Avl(u)
      ensures Walk(u) == Walk(Plug(c, t)) && Members(u) == Members(Plug(c, t))
      decreases c, 2
    {
      hide Members, Shape, Proper, Around, CMembers, CProper, Walk, Height, CAvl;
      ghost var k, s := Outer(c, h), Step(c, t);
      CAvlFrame(c, h);
      AroundFrame(c, Root(t), h, k);
      ShapeFork(s, CRoot(c.up));
      Adjust(parent, -1, c, t, h);
      if parent.balance == 0 {
        u := PostRemove(parent, c.up, s, k);
        return;
      }
      if parent.balance == -1 {
        Settled(c.up, s);
        return Plug(c.up, s);
      }
      u := RaiseRight(parent, c, t, k);
    }

    /** The right subtree of parent is two lower than the left one. */
    method RaiseRight(parent: Node<K>, ghost c: Context<K>, ghost t: Tree<K>, ghost k: nat) returns (ghost u: Tree<K>)
      requires c.Frame? && !c.left && c.group.node == parent
      requires Placed(c.up, Step(c, t), k, Outer(c.up, k)) && Avl(t) && Avl(c.sibling)
      requires Height(c.sibling) == Height(t) + 2 && k == Height(Step(c, t)) && CAvl(c.up, k)
      modifies this`root, this`turns, CMembers(c)`left, CMembers(c)`right, CMembers(c)`parent, CMembers(c)`balance
      modifies Members(t)`parent, Members(t)`left, Members(t)`right, Members(t)`balance
      ensures Placed(Top, u, Height(u), 0) && Avl(u)
      ensures Walk(u) == Walk(Plug(c, t)) && Members(u) == Members(Plug(c, t))
      decreases c, 1
    {
      ghost var s := Step(c, t);
      hide Members, Shape, Proper, Around, CMembers, CProper, Walk, Height, CAvl;
      AroundFrame(c, Root(t), Height(t), k);
      ShapeFork(s, CRoot(c.up));
      ShapeFork(s.left, parent);
      if parent.left.balance == 0 {
        RotateRight(parent, c.up, s, k, Outer(c.up, k));
        SingleRight(s);
        Settled(c.up, RotatedRight(s));
        PlugSame(c.up, s, RotatedRight(s));
        return Plug(c.up, RotatedRight(s));
      }
      if parent.left.balance == -1 {
        RotateRight(parent, c.up, s, k, Outer(c.up, k));
        SingleRight(s);
        ShapeFork(RotatedRight(s), CRoot(c.up));
        ShapeFork(RotatedRight(s).right, RotatedRight(s).group.node);
        PlugSame(c.up, s, RotatedRight(s));
        u := PostRemove(parent.parent, c.up, RotatedRight(s), k);
        return;
      }
      u := DoubleRaiseRight(parent, c, t, k);
    }

    method DoubleRaiseRight(parent: Node<K>, ghost c: Context<K>, ghost t: Tree<K>, ghost k: nat)
      returns (ghost u: Tree<K>)
      requires c.Frame? && !c.left && c.group.node == parent
      requires Placed(c.up, Step(c, t), k, Outer(c.up, k)) && Avl(t) && Avl(c.sibling)
      requires Height(c.sibling) == Height(t) + 2 && Height(c.sibling.left) < Height(c.sibling.right)
      requires k == Height(Step(c, t)) && CAvl(c.up, k)
      modifies this`root, this`turns, CMembers(c)`left, CMembers(c)`right, CMembers(c)`parent, CMembers(c)`balance
      modifies Members(t)`parent, Members(t)`left, Members(t)`right, Members(t)`balance
      ensures Placed(Top, u, Height(u), 0) && Avl(u)
      ensures Walk(u) == Walk(Plug(c, t)) && Members(u) == Members(Plug(c, t))
      decreases c, 0
    {
      ghost var s, d := Step(c, t), Frame(true, c.group, t, c.up);
      ghost var r := RotatedLeft(c.sibling);
      ghost var s2 := Step(d, r);
      hide Members, Shape, Proper, Around, CMembers, CProper, Walk, Height, CAvl;
      AroundFrame(c, Root(t), Height(t), k);
      ShapeFork(s, CRoot(c.up));
      ShapeFork(s.left, parent);
      ShapeFork(s.left.right, s.left.group.node);
      DoubleRight(s);
      PlacedStep(d, c.sibling, k);
      AroundFrame(d, Root(c.sibling), Height(c.sibling), k);
      RotateLeft(parent.left, d, c.sibling, Height(c.sibling), k);
      PlacedStep(d, r, k);
      ShapeFork(s2, CRoot(c.up));
      ShapeFork(r, parent);
      RotateRight(parent, c.up, s2, k, Outer(c.up, k));
      ghost var l := RotatedRight(s2);
      ShapeFork(l, CRoot(c.up));
      ShapeFork(l.right, l.group.node);
      StepSame(d, c.sibling, r);
      PlugSame(c.up, s, l);
      u := PostRemove(parent.parent, c.up, l, k);
    }

    // ---------- Removal of a tree node ----------

    /** The opposite of Settled. */
    lemma {:induction false} Unsettled(c: Context<K>, t: Tree<K>)
      requires Placed(Top, Plug(c, t), Height(Plug(c, t)), 0) && Avl(Plug(c, t))
      ensures Placed(c, t, Height(t), Outer(c, Height(t))) && Avl(t) && CAvl(c, Height(t))
      decreases c
    {
      hide Members, Proper, Shape, CMembers, CProper, Walk;
      if c.Frame? {
        Unsettled(c.up, Step(c, t));
        PlacedStep(c, t, Outer(c, Height(t)));
      }
    }

    /** _avl_local_min, with the place of the node that it finds. */
    method LocalMin(start: Node<K>, ghost c: Context<K>, ghost t: Tree<K>)
      returns (node: Node<K>, ghost d: Context<K>, ghost u: Tree<K>)
      requires Shape(t, CRoot(c)) && t.Fork? && t.group.node == start
      ensures u.Fork? && u.left.Leaf? && u.group.node == node && node.left == null
      ensures Plug(d, u) == Plug(c, t) && Before(d) == Before(c) && Height(u) <= Height(t)
    {
      node, d, u := start, c, t;
      while node.left != null
        invariant u.Fork? && u.group.node == node && Shape(u, CRoot(d))
        invariant Plug(d, u) == Plug(c, t) && Before(d) == Before(c) && Height(u) <= Height(t)
        decreases u
      {
        node, d, u := node.left, Frame(true, u.group, u.right, d), u.left;
      }
    }

    method Adopt(node: Node<K>, next: Node<K>)
      requires next != node && next != node.left && next != node.right
      modifies next`parent, next`left, next`right, next`balance
      modifies if node.left == null then {} else {node.left}`parent
      modifies if node.right == null then {} else {node.right}`parent
      ensures next.parent == old(node.parent) && next.left == node.left && next.right == node.right
      ensures next.balance == node.balance
      ensures node.left != null ==> node.left.parent == next
      ensures node.right != null ==> node.right.parent == next
    {
      next.balance := node.balance;
      next.parent := node.parent;
      next.left := node.left;
      next.right := node.right;
      if next.left != null {
        next.left.parent := next;
      }
      if next.right != null {
        next.right.parent := next;
      }
    }

    method TakeRoot(node: Node<K>, next: Node<K>, parent: Node?<K>, ghost t: Tree<K>, ghost g: Group<K>)
      requires t.Fork? && t.group.node == node && Proper(t) && Shape(t, parent) && Members(t) <= nodes
      requires g.node == next && next !in Members(t)
      modifies Members(t)`parent, next`parent, next`left, next`right, next`balance
      ensures Shape(Fork(t.left, g, t.right), parent)
    {
      hide Members, Shape, Proper, Height, Below, Hangs;
      ShapeFork(t, parent);
      ShapeHangs(t.left, node);
      ShapeHangs(t.right, node);
      Adopt(node, next);
      ShapeHangs(t.left, next);
      ShapeHangs(t.right, next);
      ShapeFork(Fork(t.left, g, t.right), parent);
    }

    /** What min in a removal and a first follower do to take over the place of a tree node. */
    method TakePlace(node: Node<K>, next: Node<K>, ghost c: Context<K>, ghost t: Tree<K>, ghost g: Group<K>)
      requires Placed(c, t, Height(t), Outer(c, Height(t))) && t.Fork? && t.group.node == node
      requires g.node == next && next in nodes && next !in Members(t) && next !in CMembers(c)
      modifies this`root, CMembers(c)`left, CMembers(c)`right, Members(t)`parent
      modifies next`parent, next`left, next`right, next`balance
      ensures var u := Fork(t.left, g, t.right);
        Placed(c, u, Height(u), Outer(c, Height(u))) && Members(u) == Members(t.left) + {next} + Members(t.right)
    {
      ghost var u := Fork(t.left, g, t.right);
      hide Members, Shape, Proper, Height, Around, CMembers, CProper;
      ShapeFork(t, CRoot(c));
      ShapeFork(u, CRoot(c));
      HoleFacts(c, t, Height(t), Outer(c, Height(t)));
      var parent := node.parent;
      Rehang(parent, node, next, c, Height(t), Outer(c, Height(t)));
      TakeRoot(node, next, parent, t, g);
    }

    method Substitute(node: Node<K>, next: Node<K>, ghost c: Context<K>, ghost t: Tree<K>, ghost g: Group<K>)
      requires Placed(c, t, Height(t), Outer(c, Height(t))) && Avl(t) && CAvl(c, Height(t))
      requires t.Fork? && t.group.node == node
      requires g.node == next && next in nodes && next !in Members(t) && next !in CMembers(c)
      modifies this`root, CMembers(c)`left, CMembers(c)`right, Members(t)`parent
      modifies next`parent, next`left, next`right, next`balance
      ensures var v := Plug(c, Fork(t.left, g, t.right)); Placed(Top, v, Height(v), 0) && Avl(v)
    {
      hide Members, Shape, Proper, Height, Around, CMembers, CProper, CAvl;
      TakePlace(node, next, c, t, g);
      ShapeFork(t, CRoot(c));
      ShapeFork(Fork(t.left, g, t.right), CRoot(c));
      Settled(c, Fork(t.left, g, t.right));
    }

    /** _avl_remove_worker: node leaves the tree; its own fields are left as they are. */
    method RemoveWorker(node: Node<K>, ghost c: Context<K>, ghost t: Tree<K>) returns (ghost u: Tree<K>)
      requires Placed(Top, Plug(c, t), Height(Plug(c, t)), 0) && Avl(Plug(c, t)) && t.Fork? && t.group.node == node
      modifies this`root, this`turns
      modifies nodes`left, nodes`right, nodes`parent, nodes`balance
      ensures Placed(Top, u, Height(u), 0) && Avl(u)
      ensures Walk(u) == WithoutNode(c, t)
      ensures Members(u) == OtherMembers(c, t)
      decreases Height(t)
    {
      hide Members, Proper, Shape, Around, CMembers, CProper, CAvl, Walk, WithoutNode, OtherMembers, Plug, Height, Avl;
      Unsettled(c, t);
      GoneWith(c, t);
      ShapeFork(t, CRoot(c));
      if node.left == null && node.right == null {
        u := RemoveLeaf(node, c, t);
      } else if node.left == null {
        u := RemoveHalf(node, node.right, c, t, t.right);
      } else if node.right == null {
        u := RemoveHalf(node, node.left, c, t, t.left);
      } else {
        u := RemoveFull(node, c, t);
      }
    }

    method RemoveLeaf(node: Node<K>, ghost c: Context<K>, ghost t: Tree<K>) returns (ghost u: Tree<K>)
      requires Placed(c, t, Height(t), Outer(c, Height(t))) && Avl(t) && CAvl(c, Height(t))
      requires t.Fork? && t.left.Leaf? && t.right.Leaf? && t.group.node == node
      modifies this`root, this`turns, CMembers(c)`left, CMembers(c)`right, CMembers(c)`parent, CMembers(c)`balance
      ensures Placed(Top, u, Height(u), 0) && Avl(u)
      ensures Walk(u) == Walk(Plug(c, Leaf)) && Members(u) == Members(Plug(c, Leaf))
    {
      var parent := node.parent;
      if parent == null {
        root := null;
        return Leaf;
      }
      HoleFacts(c, t, 1, Outer(c, 1));
      var onLeft := parent.left == node;
      Rehang(parent, node, null, c, 1, Outer(c, 1));
      if onLeft {
        u := ShrunkLeft(parent, c, Leaf, 1);
      } else {
        u := ShrunkRight(parent, c, Leaf, 1);
      }
    }

    /** A node with one child is replaced by that child. */
    method RemoveHalf(node: Node<K>, child: Node<K>, ghost c: Context<K>, ghost t: Tree<K>, ghost s: Tree<K>)
      returns (ghost u: Tree<K>)
      requires Placed(c, t, Height(t), Outer(c, Height(t))) && Avl(t) && CAvl(c, Height(t))
      requires t.Fork? && t.group.node == node && s.Fork? && s.group.node == child
      requires (t.left.Leaf? && s == t.right) || (t.right.Leaf? && s == t.left)
      modifies this`root, this`turns, CMembers(c)`left, CMembers(c)`right, CMembers(c)`parent, CMembers(c)`balance
      modifies Members(s)`parent, Members(s)`left, Members(s)`right, Members(s)`balance
      ensures Placed(Top, u, Height(u), 0) && Avl(u)
      ensures Walk(u) == Walk(Plug(c, s)) && Members(u) == Members(Plug(c, s))
    {
      hide Members, Proper, Shape, Around, CMembers, CProper, CAvl, Below, Hangs, Walk, Height, Outer;
      ghost var h := Height(t);
      LeafFacts<K>();
      ShapeFork(t, CRoot(c));
      HoleFacts(c, t, h, Outer(c, h));
      ShapeHangs(s, node);
      var parent := node.parent;
      Rehang(parent, node, child, c, h, Outer(c, h));
      child.parent := parent;
      ShapeHangs(s, parent);
      if parent == null {
        AtTop(s, h, Outer(c, h));
        return s;
      }
      u := PostRemove(child, c, s, h);
    }

    /** A node with two children is replaced by the least node of its right subtree, after that was removed. */
    method RemoveFull(node: Node<K>, ghost c: Context<K>, ghost t: Tree<K>) returns (ghost u: Tree<K>)
      requires Placed(Top, Plug(c, t), Height(Plug(c, t)), 0) && Avl(Plug(c, t))
      requires Placed(c, t, Height(t), Outer(c, Height(t)))
      requires t.Fork? && t.group.node == node && t.left.Fork? && t.right.Fork?
      modifies this`root, this`turns
      modifies nodes`left, nodes`right, nodes`parent, nodes`balance
      ensures Placed(Top, u, Height(u), 0) && Avl(u)
      ensures Walk(u) == WithoutNode(c, t)
      ensures Members(u) == OtherMembers(c, t)
      decreases Height(t), 0
    {
      hide Members, Proper, Shape, Around, CMembers, CProper, CAvl, Walk, WithoutNode, OtherMembers, Height;
      ghost var r := Frame(false, t.group, t.left, c);
      var min;
      ghost var d, m;
      ShapeFork(t, CRoot(c));
      PlugProper(c, t);
      min, d, m := LocalMin(node.right, r, t.right);
      ghost var v := RemoveWorker(min, d, m);
      ghost var e, w := MinRemoved(c, t, d, m, v);
      Unsettled(e, w);
      Substitute(node, min, e, w, m.group);
      u := Plug(e, Fork(w.left, m.group, w.right));
    }
  }
}
