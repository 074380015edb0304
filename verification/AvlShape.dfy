/** The abstract tree behind an avl_tree: which node sits where, without the heap.
 *
 * A group is a tree node with its followers, the nodes of equal key that are only in the list. A context is
 * a tree with one subtree missing, so Plug(c, t) is the whole tree while the code works at subtree t.
 */
module AvlShape {
  import opened Basics
  import opened OonfList

  datatype Group<K> = Group(node: Node<K>, followers: seq<Node<K>>)

  datatype Tree<K> = Leaf | Fork(left: Tree<K>, group: Group<K>, right: Tree<K>)

  /** Frame: the hole is the left (or right) child of the node of group, whose other child is sibling. */
  datatype Context<K> = Top | Frame(left: bool, group: Group<K>, sibling: Tree<K>, up: Context<K>)

  ghost function Max(a: int, b: int): int {
    if a < b then b else a
  }

  ghost function Min(a: int, b: int): int {
    if a < b then a else b
  }

  ghost function Height<K>(t: Tree<K>): nat {
    match t
    case Leaf => 0
    case Fork(l, _, r) => 1 + Max(Height(l), Height(r))
  }

  /** Every node has subtrees whose heights differ by at most one. */
  ghost predicate Avl<K>(t: Tree<K>) {
    t.Fork? ==> -1 <= Height(t.right) - Height(t.left) <= 1 && Avl(t.left) && Avl(t.right)
  }

  ghost function Root<K>(t: Tree<K>): Node?<K> {
    if t.Leaf? then null else t.group.node
  }

  /** The nodes linked into the tree; followers are not among them. */
  ghost function Members<K>(t: Tree<K>): set<Node<K>> {
    match t
    case Leaf => {}
    case Fork(l, g, r) => Members(l) + {g.node} + Members(r)
  }

  lemma {:induction false} MembersFork<K>(t: Tree<K>)
    requires t.Fork?
    ensures Members(t) == Members(t.left) + {t.group.node} + Members(t.right)
  {
  }

  /** The in-order walk. */
  ghost function Walk<K>(t: Tree<K>): seq<Group<K>> {
    match t
    case Leaf => []
    case Fork(l, g, r) => Walk(l) + [g] + Walk(r)
  }

  /** The nodes of a walk, each tree node directly followed by its followers. */
  ghost function Flat<K>(gs: seq<Group<K>>): seq<Node<K>> {
    if gs == [] then [] else [gs[0].node] + gs[0].followers + Flat(gs[1..])
  }

  lemma {:induction false} ShapeWalk<K>(t: Tree<K>)
    requires t.Fork?
    ensures Walk(t) == Walk(t.left) + [t.group] + Walk(t.right)
  {
  }

  ghost predicate Proper<K>(t: Tree<K>) {
    t.Fork? ==>
      && Proper(t.left) && Proper(t.right)
      && t.group.node !in Members(t.left) && t.group.node !in Members(t.right)
      && Members(t.left) !! Members(t.right)
  }

  ghost function NewLeaf<K>(n: Node<K>): Tree<K> {
    Fork(Leaf, Group(n, []), Leaf)
  }

  lemma {:induction false} NewLeafFacts<K>(n: Node<K>)
    ensures var t := NewLeaf(n); Members(t) == {n} && Height(t) == 1 && Proper(t) && Avl(t) && Walk(t) == [Group(n, [])]
  {
  }

  lemma {:induction false} LeafFacts<K>()
    ensures Members<K>(Leaf) == {} && Height<K>(Leaf) == 0 && Walk<K>(Leaf) == []
  {
  }

  ghost function WithLeft<K>(t: Tree<K>, n: Node<K>): Tree<K>
    requires t.Fork?
  {
    Fork(NewLeaf(n), t.group, t.right)
  }

  ghost function WithRight<K>(t: Tree<K>, n: Node<K>): Tree<K>
    requires t.Fork?
  {
    Fork(t.left, t.group, NewLeaf(n))
  }

  lemma {:induction false} WithHeights<K>(t: Tree<K>, n: Node<K>)
    requires t.Fork? && Avl(t)
    ensures t.left.Leaf? ==> Avl(WithLeft(t, n)) && Height(t) == 1 + Height(t.right) <= 2 && Height(WithLeft(t, n)) == 2
    ensures t.right.Leaf? ==>
      Avl(WithRight(t, n)) && Height(t) == 1 + Height(t.left) <= 2 && Height(WithRight(t, n)) == 2
  {
  }

  // ---------- Contexts ----------

  /** The tree one step up: t in the innermost frame of c. */
  ghost function Step<K>(c: Context<K>, t: Tree<K>): Tree<K>
    requires c.Frame?
  {
    if c.left then Fork(t, c.group, c.sibling) else Fork(c.sibling, c.group, t)
  }

  ghost function Plug<K>(c: Context<K>, t: Tree<K>): Tree<K>
    decreases c
  {
    if c.Top? then t else Plug(c.up, Step(c, t))
  }

  ghost function CRoot<K>(c: Context<K>): Node?<K> {
    if c.Top? then null else c.group.node
  }

  ghost function CMembers<K>(c: Context<K>): set<Node<K>> {
    if c.Top? then {} else {c.group.node} + Members(c.sibling) + CMembers(c.up)
  }

  ghost function Before<K>(c: Context<K>): seq<Group<K>> {
    if c.Top? then [] else if c.left then Before(c.up) else Before(c.up) + Walk(c.sibling) + [c.group]
  }

  ghost function After<K>(c: Context<K>): seq<Group<K>> {
    if c.Top? then [] else if c.left then [c.group] + Walk(c.sibling) + After(c.up) else After(c.up)
  }

  /** The height one step up from a subtree of height h. */
  ghost function Outer<K>(c: Context<K>, h: nat): nat {
    if c.Top? then 0 else 1 + Max(h, Height(c.sibling))
  }

  ghost predicate CProper<K>(c: Context<K>) {
    c.Frame? ==>
      && Proper(c.sibling) && CProper(c.up)
      && c.group.node !in Members(c.sibling) && c.group.node !in CMembers(c.up)
      && Members(c.sibling) !! CMembers(c.up)
  }

  ghost predicate Apart<K>(c: Context<K>, t: Tree<K>) {
    Proper(t) && CProper(c) && Members(t) !! CMembers(c)
  }

  /** The context is balanced around a subtree of height h. */
  ghost predicate CAvl<K>(c: Context<K>, h: nat) {
    c.Frame? ==>
      -1 <= Height(c.sibling) - h <= 1 && Avl(c.sibling) && CAvl(c.up, 1 + Max(h, Height(c.sibling)))
  }

  lemma {:induction false} CAvlFrame<K>(c: Context<K>, h: nat)
    requires c.Frame? && CAvl(c, h)
    ensures -1 <= Height(c.sibling) - h <= 1 && Avl(c.sibling) && CAvl(c.up, Outer(c, h))
  {
  }

  lemma Regroup<T>(a: seq<T>, b: seq<T>, c: seq<T>, d: seq<T>, e: seq<T>)
    ensures a + (b + c + d) + e == a + b + (c + d + e) == a + b + c + d + e
  {
  }

  lemma {:induction false} PlugWalk<K>(c: Context<K>, t: Tree<K>)
    ensures Walk(Plug(c, t)) == Before(c) + Walk(t) + After(c)
    decreases c
  {
    if c.Frame? {
      PlugWalk(c.up, Step(c, t));
      if c.left {
        Regroup(Before(c.up), Walk(t), [c.group], Walk(c.sibling), After(c.up));
      } else {
        Regroup(Before(c.up), Walk(c.sibling), [c.group], Walk(t), After(c.up));
      }
    }
  }

  lemma {:induction false} PlugProper<K>(c: Context<K>, t: Tree<K>)
    ensures Members(Plug(c, t)) == CMembers(c) + Members(t)
    ensures Proper(Plug(c, t)) <==> Apart(c, t)
    decreases c
  {
    if c.Frame? {
      PlugProper(c.up, Step(c, t));
    }
  }

  lemma {:induction false} PlugAvl<K>(c: Context<K>, t: Tree<K>)
    ensures Avl(Plug(c, t)) <==> Avl(t) && CAvl(c, Height(t))
    decreases c
  {
    if c.Frame? {
      PlugAvl(c.up, Step(c, t));
    }
  }

  lemma PlugSame<K>(c: Context<K>, t: Tree<K>, u: Tree<K>)
    requires Walk(t) == Walk(u) && Members(t) == Members(u)
    ensures Walk(Plug(c, t)) == Walk(Plug(c, u)) && Members(Plug(c, t)) == Members(Plug(c, u))
  {
    PlugWalk(c, t);
    PlugWalk(c, u);
    PlugProper(c, t);
    PlugProper(c, u);
  }

  lemma {:induction false} StepSame<K>(c: Context<K>, t: Tree<K>, u: Tree<K>)
    requires c.Frame? && Walk(t) == Walk(u) && Members(t) == Members(u)
    ensures Walk(Step(c, t)) == Walk(Step(c, u)) && Members(Step(c, t)) == Members(Step(c, u))
  {
  }

  /** What is left when the node of t goes: its only child takes its place. */
  ghost function WithoutNode<K>(c: Context<K>, t: Tree<K>): seq<Group<K>>
    requires t.Fork?
  {
    Before(c) + Walk(t.left) + Walk(t.right) + After(c)
  }

  ghost function OtherMembers<K>(c: Context<K>, t: Tree<K>): set<Node<K>>
    requires t.Fork?
  {
    CMembers(c) + Members(t.left) + Members(t.right)
  }

  lemma {:induction false} GoneWith<K>(c: Context<K>, t: Tree<K>)
    requires t.Fork?
    ensures t.left.Leaf? ==>
      WithoutNode(c, t) == Walk(Plug(c, t.right)) && OtherMembers(c, t) == Members(Plug(c, t.right))
    ensures t.right.Leaf? ==>
      WithoutNode(c, t) == Walk(Plug(c, t.left)) && OtherMembers(c, t) == Members(Plug(c, t.left))
  {
    hide Before, After, Plug, Members, CMembers, Proper, CProper;
    LeafFacts<K>();
    if t.left.Leaf? {
      PlugWalk(c, t.right);
      PlugProper(c, t.right);
      assert Before(c) + [] + Walk(t.right) + After(c) == Before(c) + Walk(t.right) + After(c);
    }
    if t.right.Leaf? {
      PlugWalk(c, t.left);
      PlugProper(c, t.left);
      assert Before(c) + Walk(t.left) + [] + After(c) == Before(c) + Walk(t.left) + After(c);
    }
  }

  // ---------- Rotations ----------

  ghost function RotatedRight<K>(t: Tree<K>): Tree<K>
    requires t.Fork? && t.left.Fork?
  {
    Fork(t.left.left, t.left.group, Fork(t.left.right, t.group, t.right))
  }

  ghost function RotatedLeft<K>(t: Tree<K>): Tree<K>
    requires t.Fork? && t.right.Fork?
  {
    Fork(Fork(t.left, t.group, t.right.left), t.right.group, t.right.right)
  }

  lemma {:induction false} RotatedRightFacts<K>(t: Tree<K>)
    requires t.Fork? && t.left.Fork? && Proper(t)
    ensures Proper(RotatedRight(t)) && Members(RotatedRight(t)) == Members(t) && Walk(RotatedRight(t)) == Walk(t)
  {
    Regroup(Walk(t.left.left), [t.left.group], Walk(t.left.right), [t.group], Walk(t.right));
  }

  lemma {:induction false} RotatedLeftFacts<K>(t: Tree<K>)
    requires t.Fork? && t.right.Fork? && Proper(t)
    ensures Proper(RotatedLeft(t)) && Members(RotatedLeft(t)) == Members(t) && Walk(RotatedLeft(t)) == Walk(t)
  {
    Regroup(Walk(t.left), [t.group], Walk(t.right.left), [t.right.group], Walk(t.right.right));
  }

  lemma {:induction false} SingleRight<K>(s: Tree<K>)
    requires s.Fork? && Avl(s.left) && Avl(s.right) && Height(s.left) == Height(s.right) + 2
    requires Height(s.left.left) >= Height(s.left.right)
    ensures Avl(RotatedRight(s))
    ensures Height(RotatedRight(s)) == if Height(s.left.left) == Height(s.left.right) then Height(s) else Height(s) - 1
  {
  }

  lemma {:induction false} SingleLeft<K>(s: Tree<K>)
    requires s.Fork? && Avl(s.left) && Avl(s.right) && Height(s.right) == Height(s.left) + 2
    requires Height(s.right.right) >= Height(s.right.left)
    ensures Avl(RotatedLeft(s))
    ensures Height(RotatedLeft(s)) == if Height(s.right.left) == Height(s.right.right) then Height(s) else Height(s) - 1
  {
  }

  lemma {:induction false} DoubleRight<K>(s: Tree<K>)
    requires s.Fork? && Avl(s.left) && Avl(s.right) && Height(s.left) == Height(s.right) + 2
    requires Height(s.left.left) < Height(s.left.right)
    ensures s.left.right.Fork?
    ensures var l := RotatedLeft(s.left); var r := RotatedRight(Fork(l, s.group, s.right));
      && Height(l) == Height(s.left) && Avl(r) && Height(r) == Height(s) - 1
      && -2 <= Height(l.right) - Height(l.left) <= 0
  {
  }

  lemma {:induction false} DoubleLeft<K>(s: Tree<K>)
    requires s.Fork? && Avl(s.left) && Avl(s.right) && Height(s.right) == Height(s.left) + 2
    requires Height(s.right.right) < Height(s.right.left)
    ensures s.right.left.Fork?
    ensures var r := RotatedRight(s.right); var l := RotatedLeft(Fork(s.left, s.group, r));
      && Height(r) == Height(s.right) && Avl(l) && Height(l) == Height(s) - 1
      && 0 <= Height(r.right) - Height(r.left) <= 2
  {
  }

  // ---------- Walks and their nodes ----------

  lemma {:induction false} FlatConcat<K>(a: seq<Group<K>>, b: seq<Group<K>>)
    ensures Flat(a + b) == Flat(a) + Flat(b)
  {
    if a == [] {
      assert a + b == b;
    } else {
      assert (a + b)[1..] == a[1..] + b;
      FlatConcat(a[1..], b);
    }
  }

  lemma {:induction false} FlatMember<K>(gs: seq<Group<K>>, g: Group<K>)
    requires g in gs
    ensures g.node in Flat(gs)
    ensures forall f :: f in g.followers ==> f in Flat(gs)
  {
    if g != gs[0] {
      FlatMember(gs[1..], g);
    }
  }

  ghost function GroupOf<K>(t: Tree<K>, n: Node<K>): (g: Group<K>)
    requires n in Members(t)
    ensures g in Walk(t) && g.node == n
  {
    if n == t.group.node then t.group
    else if n in Members(t.left) then GroupOf(t.left, n)
    else GroupOf(t.right, n)
  }

  lemma {:induction false} MemberOf<K>(t: Tree<K>, g: Group<K>)
    requires g in Walk(t)
    ensures g.node in Members(t)
  {
    if g in Walk(t.left) {
      MemberOf(t.left, g);
    } else if g in Walk(t.right) {
      MemberOf(t.right, g);
    }
  }

  /** Distinct nodes in the list give a tree without sharing. */
  lemma {:induction false} DistinctProper<K>(t: Tree<K>)
    requires Distinct(Flat(Walk(t)))
    ensures Proper(t)
  {
    if t.Fork? {
      var l, m, r := Flat(Walk(t.left)), Flat([t.group]), Flat(Walk(t.right));
      FlatConcat(Walk(t.left) + [t.group], Walk(t.right));
      FlatConcat(Walk(t.left), [t.group]);
      DistinctConcat(l + m, r);
      DistinctConcat(l, m);
      DistinctProper(t.left);
      DistinctProper(t.right);
      MembersInFlat(t.left);
      MembersInFlat(t.right);
      assert t.group.node in Elems(m);
    }
  }

  lemma MembersInFlat<K>(t: Tree<K>)
    ensures Members(t) <= Elems(Flat(Walk(t)))
  {
    forall n | n in Members(t) ensures n in Flat(Walk(t)) {
      FlatMember(Walk(t), GroupOf(t, n));
    }
  }

  ghost predicate DistinctNodes<K>(gs: seq<Group<K>>) {
    forall i, j :: 0 <= i < j < |gs| ==> gs[i].node != gs[j].node
  }

  lemma {:induction false} ProperDistinct<K>(t: Tree<K>)
    requires Proper(t)
    ensures DistinctNodes(Walk(t))
  {
    if t.Fork? {
      ProperDistinct(t.left);
      ProperDistinct(t.right);
      forall g | g in Walk(t.left) ensures g.node in Members(t.left) {
        MemberOf(t.left, g);
      }
      forall g | g in Walk(t.right) ensures g.node in Members(t.right) {
        MemberOf(t.right, g);
      }
    }
  }

  /** A node stands at one place of a walk only. */
  lemma UniqueSplit<K>(a: seq<Group<K>>, x: Group<K>, b: seq<Group<K>>, c: seq<Group<K>>, y: Group<K>, d: seq<Group<K>>)
    requires a + [x] + b == c + [y] + d && x.node == y.node && DistinctNodes(a + [x] + b)
    ensures a == c && x == y && b == d
  {
    var s := a + [x] + b;
    assert s[|a|] == x && s[|c|] == y;
    assert s[..|a|] == a && s[..|c|] == c && s[|a| + 1..] == b && s[|c| + 1..] == d;
  }

  /** Where in t the node n is. */
  lemma {:induction false} Locate<K>(c: Context<K>, t: Tree<K>, n: Node<K>) returns (d: Context<K>, u: Tree<K>)
    requires n in Members(t)
    ensures u.Fork? && u.group.node == n && Plug(d, u) == Plug(c, t)
    decreases t
  {
    if n == t.group.node {
      return c, t;
    } else if n in Members(t.left) {
      d, u := Locate(Frame(true, t.group, t.right, c), t.left, n);
    } else {
      d, u := Locate(Frame(false, t.group, t.left, c), t.right, n);
    }
  }

  /** Where node stands once the least node of its right subtree is gone, and what takes its place. */
  lemma MinRemoved<K>(c: Context<K>, t: Tree<K>, d: Context<K>, m: Tree<K>, v: Tree<K>)
    returns (e: Context<K>, w: Tree<K>)
    requires t.Fork? && Proper(Plug(c, t))
    requires m.Fork? && m.left.Leaf? && Plug(d, m) == Plug(c, t)
    requires Before(d) == Before(c) + Walk(t.left) + [t.group]
    requires Proper(v) && Walk(v) == WithoutNode(d, m)
    requires Members(v) == OtherMembers(d, m)
    ensures w.Fork? && w.group.node == t.group.node && Plug(e, w) == v
    ensures Members(v) == CMembers(e) + Members(w)
    ensures m.group.node !in Members(v) && m.group.node in Members(Plug(c, t))
    ensures Height(Fork(w.left, m.group, w.right)) == Height(w)
    ensures var u := Plug(e, Fork(w.left, m.group, w.right));
      && Walk(u) == WithoutNode(c, t)
      && Members(u) == OtherMembers(c, t)
  {
    assert t.group in Walk(v);
    MemberOf(v, t.group);
    e, w := Locate(Top, v, t.group.node);
    MinWalk(c, t, d, m, e, w);
    PlugProper(e, w);
    AroundNode(d, m);
    MinMembers(c, t, d, m, e, w);
  }

  /** In the list, what follows the removed node is joined to what precedes it. */
  lemma SwapInWalk<K>(a: seq<Group<K>>, g: Group<K>, rest: seq<Group<K>>, min: Group<K>,
                      p: seq<Group<K>>, l: seq<Group<K>>, x: Group<K>, r: seq<Group<K>>, q: seq<Group<K>>)
    requires p + (l + [x] + r) + q == a + [g] + rest && x.node == g.node && DistinctNodes(a + [g] + rest)
    ensures p + (l + [min] + r) + q == a + ([min] + rest)
  {
    Regroup(p, l, [x], r, q);
    assert p + (l + [x] + r) + q == (p + l) + [x] + (r + q);
    UniqueSplit(a, g, rest, p + l, x, r + q);
    Regroup(p, l, [min], r, q);
    assert p + (l + [min] + r) + q == (p + l) + [min] + (r + q);
  }

  lemma SameRest<T>(p: seq<T>, l: seq<T>, g: T, r: seq<T>, q: seq<T>, z: seq<T>)
    requires p + (l + [g] + r) + q == p + l + [g] + z
    ensures r + q == z
  {
    var s := p + l + [g];
    assert p + (l + [g] + r) + q == s + (r + q);
    assert (s + (r + q))[|s|..] == r + q;
    assert (s + z)[|s|..] == z;
  }

  /** The walks in MinWalk, piece by piece: b is the walk up to the removed node, z what follows the least one. */
  lemma MinPieces<K>(p: seq<Group<K>>, l: seq<Group<K>>, g: Group<K>, r: seq<Group<K>>, q: seq<Group<K>>,
                     b: seq<Group<K>>, min: Group<K>, m: seq<Group<K>>, z: seq<Group<K>>,
                     e: seq<Group<K>>, wl: seq<Group<K>>, x: Group<K>, wr: seq<Group<K>>, f: seq<Group<K>>)
    requires b == p + l + [g]
    requires p + (l + [g] + r) + q == b + ([] + [min] + m) + z
    requires e + (wl + [x] + wr) + f == b + [] + m + z && x.node == g.node
    requires DistinctNodes(b + [] + m + z)
    ensures e + (wl + [min] + wr) + f == p + l + r + q
  {
    var a, rest := p + l, m + z;
    assert b + ([] + [min] + m) + z == b + ([min] + rest);
    SameRest(p, l, g, r, q, [min] + rest);
    assert b + [] + m + z == a + [g] + rest;
    SwapInWalk(a, g, rest, min, e, wl, x, wr, f);
    assert p + l + r + q == a + (r + q);
  }

  lemma {:induction false} MinWalk<K>(c: Context<K>, t: Tree<K>, d: Context<K>, m: Tree<K>, e: Context<K>, w: Tree<K>)
    requires t.Fork? && m.Fork? && m.left.Leaf? && w.Fork? && w.group.node == t.group.node
    requires Plug(d, m) == Plug(c, t)
    requires Before(d) == Before(c) + Walk(t.left) + [t.group]
    requires Proper(Plug(e, w)) && Walk(Plug(e, w)) == Before(d) + Walk(m.left) + Walk(m.right) + After(d)
    ensures Walk(Plug(e, Fork(w.left, m.group, w.right))) == Before(c) + Walk(t.left) + Walk(t.right) + After(c)
  {
    PlugWalk(c, t);
    PlugWalk(d, m);
    PlugWalk(e, w);
    PlugWalk(e, Fork(w.left, m.group, w.right));
    ProperDistinct(Plug(e, w));
    hide Before, After, Plug, Proper;
    MinPieces(Before(c), Walk(t.left), t.group, Walk(t.right), After(c),
              Before(d), m.group, Walk(m.right), After(d),
              Before(e), Walk(w.left), w.group, Walk(w.right), After(e));
  }

  lemma {:induction false} MinMembers<K>(c: Context<K>, t: Tree<K>, d: Context<K>, m: Tree<K>, e: Context<K>,
                                         w: Tree<K>)
    requires t.Fork? && m.Fork? && m.left.Leaf? && w.Fork? && w.group.node == t.group.node
    requires Plug(d, m) == Plug(c, t) && Proper(Plug(c, t)) && Proper(Plug(e, w))
    requires Members(Plug(e, w)) == CMembers(d) + Members(m.left) + Members(m.right)
    ensures Members(Plug(e, Fork(w.left, m.group, w.right))) == CMembers(c) + Members(t.left) + Members(t.right)
    ensures m.group.node !in Members(Plug(e, w))
  {
    hide Members, CMembers, Plug, Proper, CProper;
    var u := Fork(w.left, m.group, w.right);
    LeafFacts<K>();
    AroundNode(c, t);
    AroundNode(d, m);
    AroundNode(e, w);
    PlugProper(e, u);
    MembersFork(u);
    assert Members(Plug(e, u)) == Members(Plug(e, w)) - {t.group.node} + {m.group.node};
  }

  lemma {:induction false} AroundNode<K>(c: Context<K>, t: Tree<K>)
    requires t.Fork? && Proper(Plug(c, t))
    ensures CMembers(c) + Members(t.left) + Members(t.right) == Members(Plug(c, t)) - {t.group.node}
    ensures t.group.node in Members(Plug(c, t))
  {
    PlugProper(c, t);
  }

  // ---------- Height ----------

  ghost function Fib(n: nat): nat {
    if n < 2 then n else Fib(n - 1) + Fib(n - 2)
  }

  lemma {:induction false} FibMonotone(m: nat, n: nat)
    requires m <= n
    ensures Fib(m) <= Fib(n)
  {
    if m < n {
      FibMonotone(m, n - 1);
    }
  }

  /** A balanced tree of height h holds at least Fib(h + 2) - 1 tree nodes. */
  lemma {:induction false} HeightBound<K>(t: Tree<K>)
    requires Avl(t)
    ensures |Walk(t)| >= Fib(Height(t) + 2) - 1
  {
    hide Walk;
    LeafFacts<K>();
    if t.Fork? {
      ShapeWalk(t);
      HeightBound(t.left);
      HeightBound(t.right);
      var h := Height(t);
      FibMonotone(h, Height(t.left) + 2);
      FibMonotone(h, Height(t.right) + 2);
      assert Fib(h + 2) == Fib(h + 1) + Fib(h);
    }
  }

  // ---------- Order ----------

  /** A comparator is any total preorder, given by the sign of its result. */
  ghost predicate TotalPreorder<K(!new)>(comp: (K, K) -> int) {
    && (forall a, b :: comp(a, b) < 0 <==> comp(b, a) > 0)
    && (forall a, b, c :: comp(a, b) <= 0 && comp(b, c) <= 0 ==> comp(a, c) <= 0)
  }

  lemma Transitive<K(!new)>(comp: (K, K) -> int, a: K, b: K, c: K)
    requires TotalPreorder(comp) && comp(a, b) <= 0 && comp(b, c) <= 0
    ensures comp(a, c) <= 0
    ensures comp(a, b) < 0 || comp(b, c) < 0 ==> comp(a, c) < 0
    ensures comp(a, b) == 0 && comp(b, c) == 0 ==> comp(a, c) == 0
  {
    assert comp(b, a) <= 0 && comp(a, c) == 0 ==> comp(c, a) <= 0 && comp(c, b) <= 0;
  }

  /** Tree nodes in strictly ascending order, followers with the key of their tree node. */
  ghost predicate Sorted<K(!new)>(comp: (K, K) -> int, gs: seq<Group<K>>) {
    && (forall i, j :: 0 <= i < j < |gs| ==> comp(gs[i].node.key, gs[j].node.key) < 0)
    && (forall g, f :: g in gs && f in g.followers ==> comp(g.node.key, f.key) == 0)
  }

  /** The keys before the hole of c are below key, those after it above. */
  ghost predicate Splits<K(!new)>(comp: (K, K) -> int, c: Context<K>, key: K) {
    && (forall g :: g in Before(c) ==> comp(key, g.node.key) > 0)
    && (forall g :: g in After(c) ==> comp(key, g.node.key) < 0)
  }

  lemma SortedPart<K(!new)>(comp: (K, K) -> int, a: seq<Group<K>>, l: seq<Group<K>>, g: Group<K>, r: seq<Group<K>>,
                            b: seq<Group<K>>)
    requires Sorted(comp, a + (l + [g] + r) + b)
    ensures forall x :: x in l ==> comp(x.node.key, g.node.key) < 0
    ensures forall x :: x in r ==> comp(g.node.key, x.node.key) < 0
  {
    var s, i := a + (l + [g] + r) + b, |a| + |l|;
    assert s[i] == g;
    forall x | x in r ensures comp(g.node.key, x.node.key) < 0 {
      var j :| 0 <= j < |r| && r[j] == x;
      assert s[i + 1 + j] == x;
    }
    forall x | x in l ensures comp(x.node.key, g.node.key) < 0 {
      var j :| 0 <= j < |l| && l[j] == x;
      assert s[|a| + j] == x;
    }
  }

  /** Going down on the side of key keeps it between the walks on both sides. */
  lemma {:induction false} SearchStep<K(!new)>(comp: (K, K) -> int, c: Context<K>, t: Tree<K>, key: K)
    requires TotalPreorder(comp) && t.Fork? && Sorted(comp, Walk(Plug(c, t))) && Splits(comp, c, key)
    ensures comp(key, t.group.node.key) < 0 ==> Splits(comp, Frame(true, t.group, t.right, c), key)
    ensures comp(key, t.group.node.key) > 0 ==> Splits(comp, Frame(false, t.group, t.left, c), key)
  {
    PlugWalk(c, t);
    SortedPart(comp, Before(c), Walk(t.left), t.group, Walk(t.right), After(c));
    var n := t.group.node;
    if comp(key, n.key) < 0 {
      forall g | g in Walk(t.right) ensures comp(key, g.node.key) < 0 {
        Transitive(comp, key, n.key, g.node.key);
      }
    } else if comp(key, n.key) > 0 {
      forall g | g in Walk(t.left) ensures comp(key, g.node.key) > 0 {
        Transitive(comp, g.node.key, n.key, key);
      }
    }
  }

  ghost function Keys<K>(s: seq<Node<K>>): (r: seq<K>)
    ensures |r| == |s| && forall i :: 0 <= i < |s| ==> r[i] == s[i].key
  {
    seq(|s|, i requires 0 <= i < |s| => s[i].key)
  }

  /** Where a list in key order takes a new key: directly behind the first equal one, else in its place. */
  ghost function Slot<K>(comp: (K, K) -> int, s: seq<K>, key: K): (i: nat)
    ensures i <= |s|
  {
    if s == [] || comp(key, s[0]) < 0 then 0
    else if comp(key, s[0]) == 0 then 1
    else 1 + Slot(comp, s[1..], key)
  }

  lemma {:induction false} SlotAfter<K>(comp: (K, K) -> int, s: seq<K>, key: K, i: nat)
    requires i <= |s| && forall j :: 0 <= j < i ==> comp(key, s[j]) > 0
    ensures i == |s| || comp(key, s[i]) < 0 ==> Slot(comp, s, key) == i
    ensures i < |s| && comp(key, s[i]) == 0 ==> Slot(comp, s, key) == i + 1
  {
    if i > 0 {
      SlotAfter(comp, s[1..], key, i - 1);
    }
  }
}
