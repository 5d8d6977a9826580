/** Taking a node out of a tree in memory, and putting another node in its place. */
module RbSplice {
  import opened RbTheory
  import opened RbHeap
  import opened Sequences

  /** Parent links are inverse to child links, and only the root has none. */
  ghost predicate Inverse(h: Heap, root: RbNode?) {
    && (root != null ==> root in h && h[root].parent == null)
    && (forall n :: n in h && h[n].left != null ==> h[n].left in h && h[h[n].left].parent == n)
    && (forall n :: n in h && h[n].right != null ==> h[n].right in h && h[h[n].right].parent == n)
    && (forall n :: n in h && h[n].left != null ==> h[n].left != h[n].right)
    && (forall n :: n in h && h[n].parent == null ==> root == n)
    && (forall n :: n in h && h[n].parent != null ==>
          h[n].parent in h && (h[h[n].parent].left == n || h[h[n].parent].right == n))
  }

  lemma {:induction false} LinkedCell(h: Heap, t: Tree, p: RbNode?, n: RbNode)
    requires Linked(h, t, p) && Distinct(t) && n in Nodes(t)
    ensures n in h
    ensures h[n].left != null ==>
              h[n].left in Nodes(t) && h[n].left in h && h[h[n].left].parent == n && h[n].left != h[n].right
    ensures h[n].right != null ==> h[n].right in Nodes(t) && h[n].right in h && h[h[n].right].parent == n
    ensures n == t.node ==> h[n].parent == p
    ensures n != t.node ==>
              h[n].parent != null && h[n].parent in Nodes(t) && h[n].parent in h &&
              (h[h[n].parent].left == n || h[h[n].parent].right == n)
  {
    if n in Nodes(t.left) {
      LinkedCell(h, t.left, t.node, n);
    } else if n in Nodes(t.right) {
      LinkedCell(h, t.right, t.node, n);
    }
  }

  lemma InverseLinks(h: Heap, root: RbNode?, t: Tree)
    requires At(h, root, Top, t)
    ensures Inverse(h, root)
  {
    forall n | n in h
      ensures h[n].left != null ==> h[n].left in h && h[h[n].left].parent == n && h[n].left != h[n].right
      ensures h[n].right != null ==> h[n].right in h && h[h[n].right].parent == n
      ensures h[n].parent == null ==> root == n
      ensures h[n].parent != null ==> h[n].parent in h && (h[h[n].parent].left == n || h[h[n].parent].right == n)
    {
      LinkedCell(h, t, null, n);
    }
  }

  /** Only its parent points down to `x`, and only its children point up to it. */
  ghost predicate PointedAt(h: Heap, x: RbNode) {
    && x in h
    && (forall n :: n in h && (h[n].left == x || h[n].right == x) ==> h[x].parent == n)
    && (forall n :: n in h && h[n].left == x ==> h[n].right != x)
    && (forall n :: n in h && h[n].parent == x ==> h[x].left == n || h[x].right == n)
  }

  lemma InversePointers(h: Heap, root: RbNode?, x: RbNode)
    requires Inverse(h, root) && x in h
    ensures PointedAt(h, x)
  {
  }

  // ---------- bypassing a node with at most one child ----------

  /** Pointers down to `x` lead to `c`, pointers up to `x` lead to `p`. */
  ghost function Bypassed(cell: Cell, x: RbNode, c: RbNode?, p: RbNode?): Cell {
    Cell(if cell.left == x then c else cell.left,
         if cell.right == x then c else cell.right,
         if cell.parent == x then p else cell.parent,
         cell.red)
  }

  ghost predicate Bypass(h: Heap, h': Heap, x: RbNode, c: RbNode?, p: RbNode?) {
    h'.Keys == h.Keys - {x} && forall n :: n in h && n != x ==> h'[n] == Bypassed(h[n], x, c, p)
  }

  /** The fields that the tail of `rb_erase` writes. */
  ghost predicate Unlinked(h: Heap, h': Heap, x: RbNode, c: RbNode?) {
    && x in h && h'.Keys == h.Keys - {x}
    && var p := h[x].parent;
    && (c != null ==> c in h' && h'[c] == h[c].(parent := p))
    && (p != null ==> p in h' && h'[p] == if h[p].left == x then h[p].(left := c) else h[p].(right := c))
    && forall n :: n in h && n != x && n != c && n != p ==> h'[n] == h[n]
  }

  lemma UnlinkBypasses(h: Heap, h': Heap, x: RbNode, c: RbNode?)
    requires PointedAt(h, x) && Unlinked(h, h', x, c)
    requires if h[x].left == null then c == h[x].right else h[x].right == null && c == h[x].left
    requires x != c && x != h[x].parent && (c != null ==> h[c].parent == x && c != h[x].parent)
    requires c != null ==> h[c].left != x && h[c].right != x
    requires h[x].parent != null ==>
               h[h[x].parent].parent != x && (h[h[x].parent].left == x || h[h[x].parent].right == x)
    ensures Bypass(h, h', x, c, h[x].parent)
  {
    forall n | n in h && n != x
      ensures h'[n] == Bypassed(h[n], x, c, h[x].parent)
    {
      if n != c && n != h[x].parent {
        assert h[n].left != x && h[n].right != x && h[n].parent != x;
      }
    }
  }

  lemma {:induction false} BypassLinked(h: Heap, h': Heap, t: Tree, q: RbNode?, x: RbNode, c: RbNode?, p: RbNode?)
    requires Linked(h, t, q) && x !in Nodes(t) && Bypass(h, h', x, c, p) && q != x
    ensures Linked(h', t, q)
  {
    if t.Node? {
      assert RootOf(t.left) != x && RootOf(t.right) != x;
      BypassLinked(h, h', t.left, t.node, x, c, p);
      BypassLinked(h, h', t.right, t.node, x, c, p);
    }
  }

  /** The remaining child of a node that lacks the other one. */
  ghost function OnlyChild(t: Tree): Tree
    requires t.Node?
  {
    if t.left.Leaf? then t.right else t.left
  }

  lemma BypassChild(h: Heap, h': Heap, t: Tree, p: RbNode?)
    requires t.Node? && (t.left.Leaf? || t.right.Leaf?) && Linked(h, t, p) && Distinct(t)
    requires Bypass(h, h', t.node, RootOf(OnlyChild(t)), p)
    ensures Linked(h', OnlyChild(t), p)
  {
    var c := OnlyChild(t);
    if c.Node? {
      assert Linked(h, c, t.node);
      assert RootOf(c.left) != t.node && RootOf(c.right) != t.node;
      BypassLinked(h, h', c.left, c.node, t.node, c.node, p);
      BypassLinked(h, h', c.right, c.node, t.node, c.node, p);
    }
  }

  lemma {:induction false} BypassPath(h: Heap, h': Heap, root: RbNode?, root': RbNode?, z: Path, hole: RbNode,
                                      x: RbNode, c: RbNode?, p: RbNode?)
    requires LinkedPath(h, root, z, hole) && DistinctPath(z) && hole !in PathNodes(z) && x !in PathNodes(z)
    requires Bypass(h, h', x, c, p) && root' == if root == x then c else root
    ensures LinkedPath(h', root', z, if hole == x then c else hole)
  {
    if !z.Top? {
      assert ParentOf(z.up) != x && RootOf(z.sibling) != x;
      BypassLinked(h, h', z.sibling, z.node, x, c, p);
      BypassPath(h, h', root, root', z.up, z.node, x, c, p);
    }
  }

  /** Bypassing the root of `t`, which lacks a child, leaves its only child in its place. */
  lemma BypassAt(h: Heap, h': Heap, root: RbNode?, root': RbNode?, z: Path, t: Tree)
    requires At(h, root, z, t) && t.Node? && (t.left.Leaf? || t.right.Leaf?)
    requires Bypass(h, h', t.node, RootOf(OnlyChild(t)), ParentOf(z))
    requires root' == if root == t.node then RootOf(OnlyChild(t)) else root
    ensures At(h', root', z, OnlyChild(t))
  {
    BypassChild(h, h', t, ParentOf(z));
    BypassPath(h, h', root, root', z, t.node, t.node, RootOf(OnlyChild(t)), ParentOf(z));
  }

  // ---------- another node in the place of a node ----------

  ghost function Renamed(n: RbNode?, x: RbNode, y: RbNode): RbNode? {
    if n == x then y else n
  }

  ghost function RenamedCell(cell: Cell, x: RbNode, y: RbNode): Cell {
    Cell(Renamed(cell.left, x, y), Renamed(cell.right, x, y), Renamed(cell.parent, x, y), cell.red)
  }

  ghost predicate Rename(h: Heap, h': Heap, x: RbNode, y: RbNode) {
    && x in h && y !in h && h'.Keys == h.Keys - {x} + {y}
    && h'[y] == RenamedCell(h[x], x, y)
    && forall n :: n in h && n != x ==> h'[n] == RenamedCell(h[n], x, y)
  }

  /** `x` has two children and `y`, which has no left child, lies below its right one; the touched nodes are apart. */
  ghost predicate TwoPlaces(h: Heap, x: RbNode, y: RbNode) {
    && x in h && y in h && x != y && h[y].left == null
    && var a, b, q, c, p := h[x].left, h[x].right, h[x].parent, h[y].right, h[y].parent;
    && a != null && a in h && b != null && b in h && p != null && p in h
    && (q != null ==> q in h) && (c != null ==> c in h)
    && a !in {x, y, b, q, c, p} && b !in {x, q, c} && p !in {y, q, c}
    && q !in {x, y} && (c != null ==> c !in {x, y, q}) && (b == y <==> p == x)
    && (if p == x then h[p].right == y else h[p].left == y && h[p].right != y)
    && h[a].parent == x && h[b].parent == x && (c != null ==> h[c].parent == y)
    && (q != null ==> (h[q].left == x <==> h[q].right != x))
  }

  /** The fields that the two-child part of `rb_erase` writes. */
  ghost predicate PlaceTaken(h: Heap, h': Heap, x: RbNode, y: RbNode)
    requires TwoPlaces(h, x, y)
  {
    && h'.Keys == h.Keys - {x}
    && var a, b, q, c, p := h[x].left, h[x].right, h[x].parent, h[y].right, h[y].parent;
    && h'[y] == Cell(a, if p == x then c else b, q, h[x].red)
    && h'[a] == h[a].(parent := y)
    && (q != null ==> h'[q] == if h[q].left == x then h[q].(left := y) else h[q].(right := y))
    && (p != x && c != null ==> h'[c] == h[c].(parent := p))
    && (p != x ==> h'[b] == if b == p then h[b].(left := c, parent := y) else h[b].(parent := y))
    && (p != x && p != b ==> h'[p] == h[p].(left := c))
    && (p == x && c != null ==> h'[c] == h[c])
    && forall n :: n in h && n !in {x, y, a, b, q, c, p} ==> h'[n] == h[n]
  }

  ghost function Redirected(h: Heap, x: RbNode, y: RbNode): Heap
    requires x in h && (h[x].parent != null ==> h[x].parent in h)
  {
    var q := h[x].parent;
    if q == null then h else h[q := if h[q].left == x then h[q].(left := y) else h[q].(right := y)]
  }

  ghost function PlaceLeft(h: Heap, y: RbNode, p: RbNode): Heap
    requires y in h && p in h && (h[y].right != null ==> h[y].right in h)
  {
    var c := h[y].right;
    var g := if c == null then h else h[c := h[c].(parent := p)];
    g[p := g[p].(left := c)]
  }

  ghost function RightAdopted(h: Heap, x: RbNode, y: RbNode): Heap
    requires x in h && y in h && h[x].right != null && h[x].right in h
  {
    var g := h[y := h[y].(right := h[x].right)];
    g[h[x].right := g[h[x].right].(parent := y)]
  }

  ghost predicate Adopted(h: Heap, h': Heap, x: RbNode, y: RbNode) {
    && x in h && y in h && x != y && h'.Keys == h.Keys - {x}
    && var a := h[x].left;
    && a != null && a in h' && a != y
    && h'[y] == Cell(a, h[y].right, h[x].parent, h[x].red) && h'[a] == h[a].(parent := y)
    && forall n :: n in h && n !in {x, y, a} ==> h'[n] == h[n]
  }

  /** `y` has been put where `x` was pointed at, and has given up its old place. */
  ghost function Departed(h: Heap, x: RbNode, y: RbNode): (g: Heap)
    requires TwoPlaces(h, x, y)
    ensures g.Keys == h.Keys && g[x].left == h[x].left
  {
    var r, p := Redirected(h, x, y), h[y].parent;
    if p == x then r else RightAdopted(PlaceLeft(r, y, p), x, y)
  }

  /** The three parts of the replacement in `rb_erase` add up. */
  lemma PlaceTakenInSteps(h: Heap, h': Heap, x: RbNode, y: RbNode)
    requires TwoPlaces(h, x, y) && Adopted(Departed(h, x, y), h', x, y)
    ensures PlaceTaken(h, h', x, y)
  {
  }

  /** The memory after `y` is bypassed. */
  ghost function BypassedHeap(h: Heap, y: RbNode): Heap
    requires y in h
  {
    map n | n in h && n != y :: Bypassed(h[n], y, h[y].right, h[y].parent)
  }

  lemma TakingPlaceAt(h: Heap, h': Heap, x: RbNode, y: RbNode, n: RbNode)
    requires PointedAt(h, x) && PointedAt(h, y) && TwoPlaces(h, x, y) && PlaceTaken(h, h', x, y)
    requires n in h && n != x && n != y
    ensures h'[n] == RenamedCell(Bypassed(h[n], y, h[y].right, h[y].parent), x, y)
  {
    assert (h[n].left == y || h[n].right == y) ==> n == h[y].parent;
    assert (h[n].left == x || h[n].right == x) ==> n == h[x].parent;
    assert h[n].parent == x ==> n == h[x].left || n == h[x].right;
    assert h[n].parent == y ==> n == h[y].right;
    if n == h[x].left {
    } else if n == h[x].parent {
    } else if n == h[y].right {
    } else if n == h[x].right {
    } else if n == h[y].parent {
    }
  }

  lemma TakingPlaceRenames(h: Heap, h': Heap, x: RbNode, y: RbNode)
    requires PointedAt(h, x) && PointedAt(h, y) && TwoPlaces(h, x, y) && PlaceTaken(h, h', x, y)
    ensures Rename(BypassedHeap(h, y), h', x, y)
  {
    var g := BypassedHeap(h, y);
    forall n | n in g && n != x
      ensures h'[n] == RenamedCell(g[n], x, y)
    {
      TakingPlaceAt(h, h', x, y, n);
    }
  }

  ghost function Subst(t: Tree, x: RbNode, y: RbNode): Tree {
    match t
    case Leaf => Leaf
    case Node(l, n, c, r) => Node(Subst(l, x, y), if n == x then y else n, c, Subst(r, x, y))
  }

  ghost function SubstPath(z: Path, x: RbNode, y: RbNode): Path {
    match z
    case Top => Top
    case InLeft(up, n, c, s) => InLeft(SubstPath(up, x, y), if n == x then y else n, c, Subst(s, x, y))
    case InRight(up, n, c, s) => InRight(SubstPath(up, x, y), if n == x then y else n, c, Subst(s, x, y))
  }

  lemma {:induction false} SubstNodes(t: Tree, x: RbNode, y: RbNode)
    requires y !in Nodes(t) && Distinct(t)
    ensures Nodes(Subst(t, x, y)) == if x in Nodes(t) then Nodes(t) - {x} + {y} else Nodes(t)
    ensures Distinct(Subst(t, x, y))
  {
    if t.Node? {
      SubstNodes(t.left, x, y);
      SubstNodes(t.right, x, y);
    }
  }

  lemma {:induction false} RenameLinked(h: Heap, h': Heap, t: Tree, p: RbNode?, x: RbNode, y: RbNode)
    requires Linked(h, t, p) && Rename(h, h', x, y)
    ensures Linked(h', Subst(t, x, y), Renamed(p, x, y))
  {
    if t.Node? {
      RenameLinked(h, h', t.left, t.node, x, y);
      RenameLinked(h, h', t.right, t.node, x, y);
    }
  }

  lemma RenameAt(h: Heap, h': Heap, root: RbNode?, t: Tree, x: RbNode, y: RbNode)
    requires At(h, root, Top, t) && Rename(h, h', x, y)
    ensures At(h', Renamed(root, x, y), Top, Subst(t, x, y))
  {
    RenameLinked(h, h', t, null, x, y);
    SubstNodes(t, x, y);
  }

  lemma {:induction false} SubstIdle(t: Tree, x: RbNode, y: RbNode)
    requires x !in Nodes(t)
    ensures Subst(t, x, y) == t
  {
    if t.Node? {
      SubstIdle(t.left, x, y);
      SubstIdle(t.right, x, y);
    }
  }

  lemma {:induction false} SubstPlug(z: Path, t: Tree, x: RbNode, y: RbNode)
    ensures Subst(Plug(z, t), x, y) == Plug(SubstPath(z, x, y), Subst(t, x, y))
  {
    if !z.Top? {
      SubstPlug(z.up, FamilyAt(z, t), x, y);
    }
  }

  lemma {:induction false} SubstRB(t: Tree, k: int, x: RbNode, y: RbNode)
    requires RB(t, k)
    ensures RB(Subst(t, x, y), k)
  {
    if t.Node? {
      SubstRB(t.left, if t.red then k else k - 1, x, y);
      SubstRB(t.right, if t.red then k else k - 1, x, y);
    }
  }

  lemma {:induction false} SubstRBPath(z: Path, k: int, x: RbNode, y: RbNode)
    requires RBPath(z, k)
    ensures RBPath(SubstPath(z, x, y), k)
  {
    if !z.Top? {
      SubstRB(z.sibling, k, x, y);
      SubstRBPath(z.up, if z.red then k else k + 1, x, y);
    }
  }

  ghost function RenamedSeq(s: seq<RbNode>, x: RbNode, y: RbNode): seq<RbNode> {
    seq(|s|, i requires 0 <= i < |s| => if s[i] == x then y else s[i])
  }

  lemma {:induction false} SubstInorder(t: Tree, x: RbNode, y: RbNode)
    ensures Inorder(Subst(t, x, y)) == RenamedSeq(Inorder(t), x, y)
  {
    if t.Node? {
      SubstInorder(t.left, x, y);
      SubstInorder(t.right, x, y);
    }
  }

  lemma {:induction false} InorderDistinct(t: Tree)
    requires Distinct(t)
    ensures NoDuplicates(Inorder(t))
  {
    if t.Node? {
      InorderDistinct(t.left);
      InorderDistinct(t.right);
      InorderMembers(t.left);
      InorderMembers(t.right);
      var a, b := Inorder(t.left), Inorder(t.right);
      assert forall i :: 0 <= i < |Inorder(t)| ==>
        Inorder(t)[i] == if i < |a| then a[i] else if i == |a| then t.node else b[i - |a| - 1];
    }
  }

  // ---------- the successor of a node with two children ----------

  /** `(q, f)` is a position on the left spine of the right child of the node at `(z, t)`. */
  ghost predicate OnSpine(z: Path, t: Tree, q: Path, f: Tree) {
    && t.Node? && t.right.Node? && f.Node? && !q.Top? && Plug(q, f) == Plug(z, t)
    && Nodes(f) <= Nodes(t.right) && t.node in PathNodes(q)
    && (if q.node == t.node then q == InRight(z, t.node, t.red, t.left) && f == t.right
        else q.InLeft? && q.node in Nodes(t.right) && t.right.node in PathNodes(q))
    && Before(q) == Before(z) + Inorder(t.left) + [t.node]
  }

  lemma SpineStart(z: Path, t: Tree)
    requires t.Node? && t.right.Node?
    ensures OnSpine(z, t, InRight(z, t.node, t.red, t.left), t.right)
  {
  }

  lemma SpineStep(z: Path, t: Tree, q: Path, f: Tree)
    requires OnSpine(z, t, q, f) && f.left.Node? && Distinct(t)
    ensures OnSpine(z, t, InLeft(q, f.node, f.red, f.right), f.left)
  {
    assert f.node in Nodes(f);
  }

  lemma SpinePlaces(h: Heap, root: RbNode?, z: Path, t: Tree, q: Path, f: Tree)
    requires At(h, root, z, t) && At(h, root, q, f) && OnSpine(z, t, q, f) && t.left.Node? && f.left.Leaf?
    requires h[t.node] == Cell(t.left.node, t.right.node, ParentOf(z), t.red)
    requires h[f.node] == Cell(null, RootOf(f.right), q.node, f.red)
    ensures TwoPlaces(h, t.node, f.node)
  {
    assert Linked(h, t.left, t.node) && Linked(h, t.right, t.node) && Linked(h, f.right, f.node);
    assert t.left.node in Nodes(t.left) && t.right.node in Nodes(t.right);
    assert f.node in Nodes(f) && q.node in PathNodes(q);
    assert f.right.Node? ==> f.right.node in Nodes(f);
    assert !z.Top? ==> z.node in PathNodes(z);
    ParentNode(h, root, q, f.node, Nodes(f));
    ParentNode(h, root, z, t.node, Nodes(t));
  }

  lemma TakingPlaceAtTree(h: Heap, h': Heap, root: RbNode?, root': RbNode?, q: Path, f: Tree, x: RbNode)
    requires At(h, root, q, f) && f.Node? && f.left.Leaf? && !q.Top? && root != f.node && x in PathNodes(q)
    requires h[f.node].right == RootOf(f.right) && h[f.node].parent == q.node
    requires Rename(BypassedHeap(h, f.node), h', x, f.node) && root' == Renamed(root, x, f.node)
    ensures At(h', root', SubstPath(q, x, f.node), f.right)
  {
    var g, y, c := BypassedHeap(h, f.node), f.node, f.right;
    BypassAt(h, g, root, root, q, f);
    PlugAt(g, root, q, c);
    RenameAt(g, h', root, Plug(q, c), x, y);
    SubstPlug(q, c, x, y);
    assert Nodes(f) == Nodes(c) + {y};
    SubstIdle(c, x, y);
    PlugAt(h', root', SubstPath(q, x, y), c);
  }

  lemma RemoveMiddle(a: seq<RbNode>, x: RbNode, b: seq<RbNode>)
    ensures (a + [x] + b)[|a|] == x && Without(a + [x] + b, |a|) == a + b
  {
  }

  lemma Regroup(b: seq<RbNode>, l: seq<RbNode>, x: RbNode, r: seq<RbNode>, a: seq<RbNode>)
    ensures b + (l + [x] + r) + a == (b + l) + [x] + (r + a)
  {
  }

  lemma RegroupPair(b: seq<RbNode>, l: seq<RbNode>, r: seq<RbNode>, a: seq<RbNode>)
    ensures b + (l + r) + a == (b + l) + (r + a)
  {
  }

  lemma RegroupFront(p: seq<RbNode>, y: RbNode, r: seq<RbNode>, a: seq<RbNode>)
    ensures p + ([y] + r) + a == p + ([y] + (r + a)) && p + r + a == p + (r + a)
  {
  }

  lemma RenameMiddle(a: seq<RbNode>, x: RbNode, b: seq<RbNode>, y: RbNode)
    requires forall i :: 0 <= i < |a| ==> a[i] != x
    requires forall i :: 0 <= i < |b| ==> b[i] != x
    ensures RenamedSeq(a + [x] + b, x, y) == a + [y] + b
  {
  }

  lemma DistinctAround(a: seq<RbNode>, x: RbNode, b: seq<RbNode>, s: seq<RbNode>)
    requires s == a + [x] + b && NoDuplicates(s)
    ensures forall i :: 0 <= i < |a| ==> a[i] != x
    ensures forall i :: 0 <= i < |b| ==> b[i] != x
  {
    forall i | 0 <= i < |a| ensures a[i] != x { assert s[i] == a[i] && s[|a|] == x; }
    forall i | 0 <= i < |b| ensures b[i] != x { assert s[|a| + 1 + i] == b[i] && s[|a|] == x; }
  }

  /** `s` is `o` without its element `n`, which stands at `i`. */
  ghost predicate Lacks(s: seq<RbNode>, o: seq<RbNode>, n: RbNode, i: nat) {
    i < |o| && o[i] == n && s == Without(o, i)
  }

  /** With the successor in the place of its predecessor, the order lacks just the predecessor. */
  lemma TakingPlaceOrder(z: Path, t: Tree, q: Path, f: Tree)
    requires OnSpine(z, t, q, f) && f.left.Leaf? && Distinct(Plug(q, f))
    ensures Lacks(Inorder(Plug(SubstPath(q, t.node, f.node), f.right)), Inorder(Plug(z, t)), t.node,
        |Before(z)| + |Inorder(t.left)|)
  {
    hide Lacks, RenamedSeq, Subst, SubstPath, Inorder, After, Plug, NoDuplicates;
    var x, y, c := t.node, f.node, f.right;
    var a, b := Before(z) + Inorder(t.left), Inorder(c) + After(q);
    TakingPlaceInorder(q, f, a, x);
    InorderDistinct(Plug(q, f));
    RenamedLacks(a, x, y, b, Inorder(Plug(q, f)));
    NotAmong(c, b, x);
    SubstInorder(Plug(q, c), x, y);
    SubstPlug(q, c, x, y);
    SubstIdle(c, x, y);
  }

  lemma RenamedLacks(a: seq<RbNode>, x: RbNode, y: RbNode, b: seq<RbNode>, o: seq<RbNode>)
    requires o == a + [x] + ([y] + b) && NoDuplicates(o)
    ensures Lacks(RenamedSeq(a + [x] + b, x, y), o, x, |a|)
    ensures forall i :: 0 <= i < |b| ==> b[i] != x
  {
    DistinctAround(a, x, [y] + b, o);
    TailFree(b, x, y);
    RenameMiddle(a, x, b, y);
    RemoveMiddle(a, x, [y] + b);
    RegroupOne(a, y, b);
  }

  lemma TailFree(b: seq<RbNode>, x: RbNode, y: RbNode)
    requires forall i :: 0 <= i < |[y] + b| ==> ([y] + b)[i] != x
    ensures forall i :: 0 <= i < |b| ==> b[i] != x
  {
    assert forall i :: 0 <= i < |b| ==> b[i] == ([y] + b)[i + 1];
  }

  lemma RegroupOne(a: seq<RbNode>, y: RbNode, b: seq<RbNode>)
    ensures a + ([y] + b) == a + [y] + b
  {
  }

  lemma TakingPlaceInorder(q: Path, f: Tree, a: seq<RbNode>, x: RbNode)
    requires f.Node? && f.left.Leaf? && Before(q) == a + [x]
    ensures Inorder(Plug(q, f)) == a + [x] + ([f.node] + (Inorder(f.right) + After(q)))
    ensures Inorder(Plug(q, f.right)) == a + [x] + (Inorder(f.right) + After(q))
  {
    PlugInorder(q, f);
    PlugInorder(q, f.right);
    var r := Inorder(f.right);
    assert Inorder(f.left) + [f.node] + r == [f.node] + r;
    RegroupFront(a + [x], f.node, r, After(q));
  }

  lemma NotAmong(c: Tree, b: seq<RbNode>, x: RbNode)
    requires Inorder(c) <= b && forall i :: 0 <= i < |b| ==> b[i] != x
    ensures x !in Nodes(c)
  {
    InorderMembers(c);
  }

  lemma UnlinkOrder(z: Path, t: Tree)
    requires t.Node? && (t.left.Leaf? || t.right.Leaf?)
    ensures Lacks(Inorder(Plug(z, OnlyChild(t))), Inorder(Plug(z, t)), t.node, |Before(z)| + |Inorder(t.left)|)
  {
    hide Lacks, Without, Inorder, Before, After, Plug, OnlyChild;
    InorderNode(t);
    PlugInorder(z, t);
    PlugInorder(z, OnlyChild(t));
    OnlyChildOrder(t);
    UnlinkedLacks(Before(z), Inorder(t.left), t.node, Inorder(t.right), After(z));
  }

  lemma InorderNode(t: Tree)
    requires t.Node?
    ensures Inorder(t) == Inorder(t.left) + [t.node] + Inorder(t.right)
  {
  }

  lemma OnlyChildOrder(t: Tree)
    requires t.Node? && (t.left.Leaf? || t.right.Leaf?)
    ensures Inorder(OnlyChild(t)) == Inorder(t.left) + Inorder(t.right)
  {
  }

  lemma UnlinkedLacks(b: seq<RbNode>, l: seq<RbNode>, x: RbNode, r: seq<RbNode>, a: seq<RbNode>)
    ensures Lacks(b + (l + r) + a, b + (l + [x] + r) + a, x, |b| + |l|)
  {
    Regroup(b, l, x, r, a);
    RemoveMiddle(b + l, x, r + a);
    RegroupPair(b, l, r, a);
  }

  // ---------- what the erasing methods know of the nodes around ----------

  lemma UnlinkFields(h: Heap, root: RbNode?, z: Path, t: Tree)
    requires At(h, root, z, t) && t.Node? && (t.left.Leaf? || t.right.Leaf?)
    ensures var x, c, p := t.node, RootOf(OnlyChild(t)), ParentOf(z);
      && PointedAt(h, x) && h[x] == Cell(RootOf(t.left), RootOf(t.right), p, t.red)
      && x != c && x != p && (root == x <==> p == null)
      && (c != null ==> c in h && h[c].parent == x && c != p && h[c].left != x && h[c].right != x)
      && (p != null ==> p in h && h[p].parent != x && (h[p].left == x || h[p].right == x))
  {
    PlugAt(h, root, z, t);
    InverseLinks(h, root, Plug(z, t));
    InversePointers(h, root, t.node);
    var c := OnlyChild(t);
    if c.Node? {
      assert Linked(h, c, t.node) && Distinct(c) && c.node in Nodes(c);
      assert RootOf(c.left) != t.node && RootOf(c.right) != t.node;
    }
    ParentNode(h, root, z, t.node, Nodes(t));
    if !z.Top? {
      assert z.node in PathNodes(z) && ParentOf(z.up) != t.node;
      RootApart(h, root, z, t.node, t.node);
    }
  }

  lemma InnerTaken(h: Heap, h': Heap, root: RbNode?, root': RbNode?, z: Path, t: Tree, q: Path, f: Tree)
    requires At(h, root, z, t) && At(h, root, q, f) && OnSpine(z, t, q, f) && t.left.Node? && f.left.Leaf?
    requires h[t.node].parent == ParentOf(z) && h[f.node].right == RootOf(f.right) && h[f.node].parent == q.node
    requires root == t.node <==> z.Top?
    requires TwoPlaces(h, t.node, f.node) && PlaceTaken(h, h', t.node, f.node)
    requires root' == if h[t.node].parent == null then f.node else root
    ensures At(h', root', SubstPath(q, t.node, f.node), f.right)
  {
    var x, y := t.node, f.node;
    PlugAt(h, root, z, t);
    InverseLinks(h, root, Plug(z, t));
    InversePointers(h, root, x);
    InversePointers(h, root, y);
    TakingPlaceRenames(h, h', x, y);
    RootApart(h, root, q, y, y);
    TakingPlaceAtTree(h, h', root, root', q, f, x);
  }

  // ---------- rb_replace_node ----------

  /** The nodes around `x` in a tree. */
  lemma ReplaceFields(h: Heap, root: RbNode?, t: Tree, x: RbNode)
    requires At(h, root, Top, t) && x in h
    ensures PointedAt(h, x)
    ensures var a, b, p := h[x].left, h[x].right, h[x].parent;
      && (a != null ==> a in h && a != x && a != p && a != b && h[a].parent == x)
      && (b != null ==> b in h && b != x && b != p && h[b].parent == x)
      && (p != null ==> p in h && p != x && (h[p].left == x || h[p].right == x))
      && (p == null <==> root == x)
  {
    InverseLinks(h, root, t);
    InversePointers(h, root, x);
    var z, s := Locate(t, x, Top);
    PlugAt(h, root, z, s);
    assert Linked(h, s.left, x) && Linked(h, s.right, x);
    assert s.left.Node? ==> s.left.node in Nodes(s.left);
    assert s.right.Node? ==> s.right.node in Nodes(s.right);
    if !z.Top? {
      assert z.node in PathNodes(z);
      RootApart(h, root, z, x, x);
    }
  }

  /** The fields that `rb_replace_node` writes. */
  ghost predicate Replaced(h: Heap, h': Heap, x: RbNode, y: RbNode) {
    && x in h && y !in h && h'.Keys == h.Keys - {x} + {y} && h'[y] == h[x]
    && var a, b, p := h[x].left, h[x].right, h[x].parent;
    && (a != null ==> a in h && a in h' && h'[a] == h[a].(parent := y))
    && (b != null ==> b in h && b in h' && h'[b] == h[b].(parent := y))
    && (p != null ==> p in h && p in h' && h'[p] == if h[p].left == x then h[p].(left := y) else h[p].(right := y))
    && forall n :: n in h && n != x && n != a && n != b && n != p ==> h'[n] == h[n]
  }

  lemma ReplacingRenames(h: Heap, h': Heap, x: RbNode, y: RbNode)
    requires PointedAt(h, x) && Replaced(h, h', x, y)
    requires var a, b, p := h[x].left, h[x].right, h[x].parent;
      && (a != null ==> a in h && a != x && a != p && a != b && h[a].parent == x)
      && (b != null ==> b in h && b != x && b != p && h[b].parent == x)
      && (p != null ==> p in h && p != x && (h[p].left == x || h[p].right == x))
    ensures Rename(h, h', x, y)
  {
    forall n | n in h && n != x
      ensures h'[n] == RenamedCell(h[n], x, y)
    {
      assert (h[n].left == x || h[n].right == x) ==> n == h[x].parent;
      assert h[n].parent == x ==> n == h[x].left || n == h[x].right;
    }
  }

  ghost predicate Supplanted(h: Heap, h': Heap, x: RbNode, y: RbNode) {
    && x in h && h'.Keys == h.Keys - {x} + {y} && h'[y] == h[x]
    && var a, b := h[x].left, h[x].right;
    && (a != null ==> a in h && a in h' && h'[a] == h[a].(parent := y))
    && (b != null ==> b in h && b in h' && h'[b] == h[b].(parent := y))
    && forall n :: n in h && n != x && n != a && n != b ==> h'[n] == h[n]
  }

  lemma ReplacedInSteps(h: Heap, g: Heap, h': Heap, root: RbNode?, t: Tree, x: RbNode, y: RbNode)
    requires At(h, root, Top, t) && x in h && y !in h && (h[x].parent != null ==> h[x].parent in h)
    requires g == Redirected(h, x, y) && Supplanted(g, h', x, y)
    ensures At(h', if h[x].parent == null then y else root, Top, Subst(t, x, y))
  {
    hide RbHeap.At;
    ReplaceFields(h, root, t, x);
    assert Replaced(h, h', x, y);
    ReplacingRenames(h, h', x, y);
    RenameAt(h, h', root, t, x, y);
  }

  /** The tree after `rb_replace_node` has the same shape, colours and order, with `y` for `x`. */
  lemma SubstBalanced(t: Tree, x: RbNode, y: RbNode)
    ensures Balanced(t) ==> Balanced(Subst(t, x, y))
    ensures Inorder(Subst(t, x, y)) == RenamedSeq(Inorder(t), x, y)
  {
    SubstInorder(t, x, y);
    if Balanced(t) {
      var k :| RB(t, k);
      SubstRB(t, k, x, y);
    }
  }
}
