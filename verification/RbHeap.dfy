/**
 How coloured trees lie in memory, as seen in a snapshot of the node fields, and what single updates of the snapshot
 do to the tree that it holds.  A snapshot maps nodes to cells, so that a lemma can compare memory before and after
 a method; `At` says that a snapshot holds a given tree, looked at from a given position.
 */
module RbHeap {
  import opened RbTheory

  datatype Cell = Cell(left: RbNode?, right: RbNode?, parent: RbNode?, red: bool)

  type Heap = map<RbNode, Cell>

  ghost function View(s: set<RbNode>): (h: Heap)
    reads s
    ensures h.Keys == s
  {
    map n | n in s :: Cell(n.rbLeft, n.rbRight, n.rbParent, n.red)
  }

  /** The child and parent links and the colours are those of `t` hanging below `p`. */
  ghost predicate Linked(h: Heap, t: Tree, p: RbNode?) {
    match t
    case Leaf => true
    case Node(l, n, c, r) =>
      n in h && h[n] == Cell(RootOf(l), RootOf(r), p, c) && Linked(h, l, n) && Linked(h, r, n)
  }

  /** The same for the surrounding of a hole whose place `hole` takes; `root` is the root pointer. */
  ghost predicate LinkedPath(h: Heap, root: RbNode?, z: Path, hole: RbNode?) {
    match z
    case Top => root == hole
    case InLeft(up, n, c, s) =>
      n in h && h[n] == Cell(hole, RootOf(s), ParentOf(up), c) && Linked(h, s, n) && LinkedPath(h, root, up, n)
    case InRight(up, n, c, s) =>
      n in h && h[n] == Cell(RootOf(s), hole, ParentOf(up), c) && Linked(h, s, n) && LinkedPath(h, root, up, n)
  }

  /** The memory holds exactly `Plug(z, t)`, looked at from the root of `t`. */
  ghost predicate At(h: Heap, root: RbNode?, z: Path, t: Tree) {
    && Linked(h, t, ParentOf(z)) && LinkedPath(h, root, z, RootOf(t))
    && Distinct(t) && DistinctPath(z) && Nodes(t) !! PathNodes(z)
    && h.Keys == Nodes(t) + PathNodes(z)
  }

  ghost predicate Same(h: Heap, h': Heap, s: set<RbNode>) {
    forall n :: n in s && n in h ==> n in h' && h'[n] == h[n]
  }

  lemma {:induction false} LinkedFrame(h: Heap, h': Heap, t: Tree, p: RbNode?)
    requires Linked(h, t, p) && Same(h, h', Nodes(t))
    ensures Linked(h', t, p)
  {
    if t.Node? {
      LinkedFrame(h, h', t.left, t.node);
      LinkedFrame(h, h', t.right, t.node);
    }
  }

  lemma {:induction false} LinkedPathFrame(h: Heap, h': Heap, root: RbNode?, z: Path, hole: RbNode?)
    requires LinkedPath(h, root, z, hole) && Same(h, h', PathNodes(z))
    ensures LinkedPath(h', root, z, hole)
  {
    if !z.Top? {
      LinkedFrame(h, h', z.sibling, z.node);
      LinkedPathFrame(h, h', root, z.up, z.node);
    }
  }

  /** Only the parent link of the root of `t` changes. */
  lemma Reparent(h: Heap, h': Heap, t: Tree, p: RbNode?, p': RbNode?)
    requires Linked(h, t, p) && Distinct(t)
    requires t.Node? ==> t.node in h' && h'[t.node] == h[t.node].(parent := p')
    requires t.Node? ==> Same(h, h', Nodes(t) - {t.node})
    ensures Linked(h', t, p')
  {
    if t.Node? {
      LinkedFrame(h, h', t.left, t.node);
      LinkedFrame(h, h', t.right, t.node);
    }
  }

  /** What the parent (or the root pointer) must look like for `y` to stand where `x` stood. */
  ghost predicate Rehung(h: Heap, h': Heap, root: RbNode?, root': RbNode?, z: Path, y: RbNode?) {
    match z
    case Top => root' == y
    case InLeft(_, n, _, _) => root' == root && n in h && n in h' && h'[n] == h[n].(left := y)
    case InRight(_, n, _, _) => root' == root && n in h && n in h' && h'[n] == h[n].(right := y)
  }

  lemma RehangPath(h: Heap, h': Heap, root: RbNode?, root': RbNode?, z: Path, x: RbNode?, y: RbNode?)
    requires LinkedPath(h, root, z, x) && DistinctPath(z)
    requires Rehung(h, h', root, root', z, y)
    requires !z.Top? ==> Same(h, h', PathNodes(z) - {z.node})
    ensures LinkedPath(h', root', z, y)
  {
    if !z.Top? {
      LinkedFrame(h, h', z.sibling, z.node);
      LinkedPathFrame(h, h', root, z.up, z.node);
    }
  }

  /** Plugging is only another way to look at the same memory. */
  lemma {:induction false} PlugAt(h: Heap, root: RbNode?, z: Path, t: Tree)
    ensures At(h, root, z, t) <==> At(h, root, Top, Plug(z, t))
  {
    match z
    case Top =>
    case InLeft(up, n, c, s) => UpLeft(h, root, up, n, c, s, t); PlugAt(h, root, up, Node(t, n, c, s));
    case InRight(up, n, c, s) => UpRight(h, root, up, n, c, s, t); PlugAt(h, root, up, Node(s, n, c, t));
  }

  lemma UpLeft(h: Heap, root: RbNode?, up: Path, n: RbNode, c: bool, s: Tree, t: Tree)
    ensures At(h, root, InLeft(up, n, c, s), t) <==> At(h, root, up, Node(t, n, c, s))
  {
  }

  lemma UpRight(h: Heap, root: RbNode?, up: Path, n: RbNode, c: bool, s: Tree, t: Tree)
    ensures At(h, root, InRight(up, n, c, s), t) <==> At(h, root, up, Node(s, n, c, t))
  {
  }

  // ---------- rotations ----------

  // A left rotation turns Node(a, x, c, Node(b, y, d, e)) into Node(Node(a, x, c, b), y, d, e);
  // a right rotation is its inverse.

  lemma RotatedNodes(a: Tree, x: RbNode, c: bool, b: Tree, y: RbNode, d: bool, e: Tree)
    ensures Nodes(Node(a, x, c, Node(b, y, d, e))) == Nodes(Node(Node(a, x, c, b), y, d, e))
    ensures Distinct(Node(a, x, c, Node(b, y, d, e))) <==> Distinct(Node(Node(a, x, c, b), y, d, e))
  {
    assert Nodes(Node(b, y, d, e)) == Nodes(b) + {y} + Nodes(e);
    assert Nodes(Node(a, x, c, b)) == Nodes(a) + {x} + Nodes(b);
  }

  /** The inner subtree `b` changes its parent from `p` to `q`; all else below the rotation stays. */
  ghost predicate InnerMoved(h: Heap, h': Heap, a: Tree, b: Tree, e: Tree, q: RbNode) {
    && Same(h, h', Nodes(a)) && Same(h, h', Nodes(e))
    && (b.Node? ==>
          Same(h, h', Nodes(b) - {b.node}) && b.node in h && b.node in h' && h'[b.node] == h[b.node].(parent := q))
  }

  lemma RotateLeftLinked(h: Heap, h': Heap, a: Tree, x: RbNode, c: bool, b: Tree, y: RbNode, d: bool, e: Tree,
                         p: RbNode?)
    requires Linked(h, Node(a, x, c, Node(b, y, d, e)), p) && Distinct(b)
    requires x in h' && h'[x] == Cell(RootOf(a), RootOf(b), y, c)
    requires y in h' && h'[y] == Cell(x, RootOf(e), p, d)
    requires InnerMoved(h, h', a, b, e, x)
    ensures Linked(h', Node(Node(a, x, c, b), y, d, e), p)
  {
    assert Linked(h, Node(b, y, d, e), x);
    LinkedFrame(h, h', a, x);
    LinkedFrame(h, h', e, y);
    Reparent(h, h', b, y, x);
    assert Linked(h', Node(a, x, c, b), y);
  }

  lemma RotateRightLinked(h: Heap, h': Heap, a: Tree, x: RbNode, c: bool, b: Tree, y: RbNode, d: bool, e: Tree,
                          p: RbNode?)
    requires Linked(h, Node(Node(a, x, c, b), y, d, e), p) && Distinct(b)
    requires x in h' && h'[x] == Cell(RootOf(a), y, p, c)
    requires y in h' && h'[y] == Cell(RootOf(b), RootOf(e), x, d)
    requires InnerMoved(h, h', a, b, e, y)
    ensures Linked(h', Node(a, x, c, Node(b, y, d, e)), p)
  {
    assert Linked(h, Node(a, x, c, b), y);
    LinkedFrame(h, h', a, x);
    LinkedFrame(h, h', e, y);
    Reparent(h, h', b, x, y);
    assert Linked(h', Node(b, y, d, e), x);
  }

  /** The nodes that a rotation writes to are different nodes of the tree, or missing. */
  ghost predicate Separate(x: RbNode, y: RbNode, b: RbNode?, p: RbNode?, s: set<RbNode>) {
    && x in s && y in s && x != y && b != x && b != y && p != x && p != y
    && (b != null ==> b in s && b != p) && (p != null ==> p in s)
  }

  /** The parent of the hole is a node apart from those below the hole, and it points to the hole on one side only. */
  lemma ParentNode(h: Heap, root: RbNode?, z: Path, hole: RbNode, below: set<RbNode>)
    requires LinkedPath(h, root, z, hole) && DistinctPath(z) && PathNodes(z) !! below && hole in below
    ensures ParentOf(z) !in below
    ensures match z
      case Top => root == hole
      case InLeft(_, p, _, _) => p in h && h[p].left == hole && h[p].right != hole
      case InRight(_, p, _, _) => p in h && h[p].right == hole && h[p].left != hole
  {
    if !z.Top? {
      assert z.node in PathNodes(z) && Nodes(z.sibling) <= PathNodes(z);
      assert RootOf(z.sibling) != hole;
    }
  }

  /** All cells but those of the named nodes stay. */
  ghost predicate SameBut(h: Heap, h': Heap, x: RbNode, y: RbNode, b: RbNode?, p: RbNode?) {
    h'.Keys == h.Keys && forall n :: n in h && n != x && n != y && n != b && n != p ==> h'[n] == h[n]
  }

  /** The regions around a rotation are disjoint and make up the whole memory. */
  ghost predicate Regions(h: Heap, z: Path, a: Tree, x: RbNode, b: Tree, y: RbNode, e: Tree) {
    && h.Keys == Nodes(a) + {x} + Nodes(b) + {y} + Nodes(e) + PathNodes(z)
    && PathNodes(z) !! (Nodes(a) + {x} + Nodes(b) + {y} + Nodes(e)) && x != y
    && x !in Nodes(a) + Nodes(b) + Nodes(e) && y !in Nodes(a) + Nodes(b) + Nodes(e)
    && Nodes(b) !! Nodes(a) && Nodes(b) !! Nodes(e)
  }

  lemma RotationNodes(h: Heap, z: Path, a: Tree, x: RbNode, b: Tree, y: RbNode, e: Tree)
    requires Regions(h, z, a, x, b, y, e)
    ensures Separate(x, y, RootOf(b), ParentOf(z), h.Keys)
  {
    assert !z.Top? ==> z.node in PathNodes(z);
    assert b.Node? ==> b.node in Nodes(b);
  }

  lemma RotationFrame(h: Heap, h': Heap, z: Path, a: Tree, x: RbNode, b: Tree, y: RbNode, e: Tree)
    requires Regions(h, z, a, x, b, y, e) && SameBut(h, h', x, y, RootOf(b), ParentOf(z))
    ensures Same(h, h', Nodes(a)) && Same(h, h', Nodes(e))
    ensures b.Node? ==> Same(h, h', Nodes(b) - {b.node})
    ensures !z.Top? ==> Same(h, h', PathNodes(z) - {z.node})
  {
    assert !z.Top? ==> z.node in PathNodes(z);
    assert b.Node? ==> b.node in Nodes(b);
  }

  /** The places that the rotation between `x` and `y` touches. */
  lemma AroundLeftRotation(h: Heap, root: RbNode?, z: Path, a: Tree, x: RbNode, c: bool, b: Tree, y: RbNode, d: bool,
                           e: Tree)
    requires At(h, root, z, Node(a, x, c, Node(b, y, d, e)))
    ensures x in h && y in h && h[x] == Cell(RootOf(a), y, ParentOf(z), c) && h[y] == Cell(RootOf(b), RootOf(e), x, d)
    ensures b.Node? ==> b.node in h && h[b.node].parent == y
    ensures Regions(h, z, a, x, b, y, e)
  {
    var u := Node(b, y, d, e);
    assert Linked(h, u, x) && Distinct(u) && Nodes(u) == Nodes(b) + {y} + Nodes(e);
    assert Linked(h, b, y);
  }

  lemma AroundRightRotation(h: Heap, root: RbNode?, z: Path, a: Tree, x: RbNode, c: bool, b: Tree, y: RbNode, d: bool,
                            e: Tree)
    requires At(h, root, z, Node(Node(a, x, c, b), y, d, e))
    ensures x in h && y in h && h[x] == Cell(RootOf(a), RootOf(b), y, c) && h[y] == Cell(x, RootOf(e), ParentOf(z), d)
    ensures b.Node? ==> b.node in h && h[b.node].parent == x
    ensures Regions(h, z, a, x, b, y, e)
  {
    var u := Node(a, x, c, b);
    assert Linked(h, u, y) && Distinct(u) && Nodes(u) == Nodes(a) + {x} + Nodes(b);
    assert Linked(h, b, x);
  }

  lemma RotateLeftAt(h: Heap, h': Heap, root: RbNode?, root': RbNode?, z: Path,
                     a: Tree, x: RbNode, c: bool, b: Tree, y: RbNode, d: bool, e: Tree)
    requires At(h, root, z, Node(a, x, c, Node(b, y, d, e))) && h'.Keys == h.Keys
    requires x in h && h'[x] == Cell(RootOf(a), RootOf(b), y, c)
    requires y in h && h'[y] == Cell(x, RootOf(e), ParentOf(z), d)
    requires InnerMoved(h, h', a, b, e, x)
    requires Rehung(h, h', root, root', z, y) && (!z.Top? ==> Same(h, h', PathNodes(z) - {z.node}))
    ensures At(h', root', z, Node(Node(a, x, c, b), y, d, e))
  {
    RotatedNodes(a, x, c, b, y, d, e);
    assert Distinct(Node(b, y, d, e));
    RotateLeftLinked(h, h', a, x, c, b, y, d, e, ParentOf(z));
    RehangPath(h, h', root, root', z, x, y);
  }

  lemma RotateRightAt(h: Heap, h': Heap, root: RbNode?, root': RbNode?, z: Path,
                      a: Tree, x: RbNode, c: bool, b: Tree, y: RbNode, d: bool, e: Tree)
    requires At(h, root, z, Node(Node(a, x, c, b), y, d, e)) && h'.Keys == h.Keys
    requires x in h && h'[x] == Cell(RootOf(a), y, ParentOf(z), c)
    requires y in h && h'[y] == Cell(RootOf(b), RootOf(e), x, d)
    requires InnerMoved(h, h', a, b, e, y)
    requires Rehung(h, h', root, root', z, x) && (!z.Top? ==> Same(h, h', PathNodes(z) - {z.node}))
    ensures At(h', root', z, Node(a, x, c, Node(b, y, d, e)))
  {
    RotatedNodes(a, x, c, b, y, d, e);
    assert Distinct(Node(a, x, c, b));
    RotateRightLinked(h, h', a, x, c, b, y, d, e, ParentOf(z));
    RehangPath(h, h', root, root', z, y, x);
  }

  lemma HoleAt(h: Heap, root: RbNode?, z: Path)
    requires At(h, root, z, Leaf)
    ensures match z
      case Top => true
      case InLeft(_, p, _, _) => p in h && h[p].left == null
      case InRight(_, p, _, _) => p in h && h[p].right == null
  {
  }

  lemma LinkAt(h: Heap, h': Heap, root: RbNode?, root': RbNode?, z: Path, n: RbNode)
    requires At(h, root, z, Leaf) && n !in h && h'.Keys == h.Keys + {n}
    requires h'[n] == Cell(null, null, ParentOf(z), true)
    requires Rehung(h, h', root, root', z, n)
    requires forall m :: m in h && m != ParentOf(z) ==> h'[m] == h[m]
    ensures At(h', root', z, Node(Leaf, n, true, Leaf))
  {
    assert !z.Top? ==> z.node in PathNodes(z);
    RehangPath(h, h', root, root', z, null, n);
  }

  lemma {:induction false} RootNotNull(h: Heap, root: RbNode?, z: Path, hole: RbNode?)
    requires LinkedPath(h, root, z, hole) && !z.Top?
    ensures root != null
  {
    if !z.up.Top? {
      RootNotNull(h, root, z.up, z.node);
    }
  }

  lemma {:induction false} RootApart(h: Heap, root: RbNode?, z: Path, hole: RbNode?, n: RbNode)
    requires LinkedPath(h, root, z, hole) && !z.Top? && n !in PathNodes(z)
    ensures root != n
  {
    if !z.up.Top? {
      RootApart(h, root, z.up, z.node, n);
    }
  }

  lemma RecolorAt(h: Heap, h': Heap, root: RbNode?, z: Path, t: Tree, red: bool)
    requires t.Node? && At(h, root, z, t) && h' == h[t.node := h[t.node].(red := red)]
    ensures At(h', root, z, t.(red := red))
  {
    LinkedFrame(h, h', t.left, t.node);
    LinkedFrame(h, h', t.right, t.node);
    LinkedPathFrame(h, h', root, z, t.node);
  }
}
