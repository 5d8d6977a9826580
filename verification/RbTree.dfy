/**
 The red-black tree of net_hashmap/net_hashmap_rbtree.c: rotations, insertion and erasure in place on linked nodes.
 `RbRoot` is the root pointer with two ghost fields: the set of its nodes and the tree that they stand for.  A method
 takes the place at which it works as a path and the subtree below it, and says which tree memory holds afterwards;
 the fields it writes are those that the program writes.
 */
module RbTree {
  import opened RbTheory
  import opened RbHeap
  import opened RbBalance
  import opened RbSplice

  class RbRoot {
    var rbNode: RbNode?
    ghost var nodes: set<RbNode>
    ghost var tree: Tree

    /** The links in memory are those of `Plug(z, t)`, and `nodes` are its nodes. */
    ghost predicate Located(z: Path, t: Tree)
      reads this, nodes
    {
      At(View(nodes), rbNode, z, t)
    }

    /** Between operations the ghost `tree` is the one in memory. */
    ghost predicate Valid()
      reads this, nodes
    {
      Located(Top, tree)
    }

    constructor ()
      ensures Valid() && tree == Leaf && nodes == {}
    {
      rbNode := null;
      nodes := {};
      tree := Leaf;
    }

    /** The fields of the node at a position. */
    lemma FieldsAt(z: Path, t: Tree)
      requires Located(z, t) && t.Node?
      ensures t.node in nodes && t.node.red == t.red
      ensures t.node.rbLeft == RootOf(t.left) && t.node.rbRight == RootOf(t.right) && t.node.rbParent == ParentOf(z)
      ensures (z.Top? <==> rbNode == t.node) && ParentOf(z) != t.node
      ensures t.left.Node? ==> RootOf(t.left) in nodes && RootOf(t.left) != RootOf(t.right)
      ensures t.right.Node? ==> RootOf(t.right) in nodes
    {
      if !z.Top? {
        RootApart(View(nodes), rbNode, z, t.node, t.node);
      }
    }

    /** The fields of its parent. */
    lemma ParentFieldsAt(z: Path, t: Tree)
      requires Located(z, t) && t.Node? && !z.Top?
      ensures z.node in nodes && z.node.red == z.red && z.node.rbParent == ParentOf(z.up)
      ensures (z.InLeft? <==> z.node.rbLeft == t.node) && (z.InRight? <==> z.node.rbRight == t.node)
    {
      ParentNode(View(nodes), rbNode, z, t.node, Nodes(t));
    }

    lemma ChildFieldsAt(z: Path, t: Tree)
      requires Located(z, t) && t.Node?
      ensures t.left.Node? ==> t.left.node in nodes && t.left.node.red == t.left.red
      ensures t.right.Node? ==> t.right.node in nodes && t.right.node.red == t.right.red
    {
      Refocus(z, t, InLeft(z, t.node, t.red, t.right), t.left);
      Refocus(z, t, InRight(z, t.node, t.red, t.left), t.right);
      if t.left.Node? { FieldsAt(InLeft(z, t.node, t.red, t.right), t.left); }
      if t.right.Node? { FieldsAt(InRight(z, t.node, t.red, t.left), t.right); }
    }

    lemma RootAt(z: Path, t: Tree)
      requires Located(z, t)
      ensures z.Top? <==> rbNode == RootOf(t)
    {
      if t.Node? {
        FieldsAt(z, t);
      } else if !z.Top? {
        RootNotNull(View(nodes), rbNode, z, null);
      }
    }

    /** What the loop guard of `__rb_erase_color` finds out. */
    lemma NodeAt(z: Path, t: Tree)
      requires Located(z, t)
      ensures (z.Top? <==> RootOf(t) == rbNode) && (t.Node? ==> t.node in nodes && t.node.red == t.red)
    {
      RootAt(z, t);
      if t.Node? { FieldsAt(z, t); }
    }

    /** The parent and the sibling of a position beside a sibling. */
    lemma SiblingAt(z: Path, t: Tree)
      requires Located(z, t) && !z.Top? && z.sibling.Node?
      ensures z.node in nodes && z.sibling.node in nodes && z.sibling.node.red == z.sibling.red
      ensures z.InLeft? ==> z.node.rbLeft == RootOf(t) && z.node.rbRight == z.sibling.node
      ensures z.InRight? ==> z.node.rbLeft == z.sibling.node && z.node.rbRight == RootOf(t)
      ensures z.sibling.node != RootOf(t)
    {
      Refocus(z, t, z.up, FamilyAt(z, t));
      FieldsAt(z.up, FamilyAt(z, t));
      ChildFieldsAt(z.up, FamilyAt(z, t));
    }

    lemma GrandparentFieldsAt(z: Path, t: Tree)
      requires Located(z, t) && t.Node? && !z.Top? && !z.up.Top?
      ensures z.node in nodes && z.node.rbParent == z.up.node && z.up.node in nodes
      ensures z.up.InLeft? <==> z.up.node.rbLeft == z.node
    {
      ParentFieldsAt(z, t);
      Refocus(z, t, z.up, FamilyAt(z, t));
      ParentFieldsAt(z.up, FamilyAt(z, t));
    }

    lemma Refocus(z: Path, t: Tree, z': Path, t': Tree)
      requires Located(z, t) && Plug(z, t) == Plug(z', t')
      ensures Located(z', t')
    {
      PlugAt(View(nodes), rbNode, z, t);
      PlugAt(View(nodes), rbNode, z', t');
    }

    method SetColor(node: RbNode, red: bool, ghost z: Path, ghost t: Tree)
      requires Located(z, t) && t.Node? && t.node == node
      modifies nodes
      ensures Located(z, t.(red := red))
    {
      ghost var h := View(nodes);
      node.red := red;
      assert View(nodes) == h[node := h[node].(red := red)];
      RecolorAt(h, View(nodes), rbNode, z, t, red);
    }

    /** The pointer surgery of `__rb_rotate_left`: which fields of which nodes change, and to what. */
    method RotateLeft(node: RbNode)
      requires node in nodes && node.rbRight != null && node.rbRight in nodes
      requires Separate(node, node.rbRight, node.rbRight.rbLeft, node.rbParent, nodes)
      modifies this`rbNode, nodes
      ensures var h, x := old(View(nodes)), node;
        var y, p := h[x].right, h[x].parent;
        var b := h[y].left;
        && View(nodes)[x] == h[x].(right := b, parent := y)
        && View(nodes)[y] == h[y].(left := x, parent := p)
        && (b != null ==> View(nodes)[b] == h[b].(parent := x))
        && (p != null ==> View(nodes)[p] == if h[p].left == x then h[p].(left := y) else h[p].(right := y))
        && rbNode == (if p == null then y else old(rbNode))
        && SameBut(h, View(nodes), x, y, b, p)
    {
      var right := node.rbRight;
      var parent := node.rbParent;
      node.rbRight := right.rbLeft;
      if node.rbRight != null {
        right.rbLeft.rbParent := node;
      }
      right.rbLeft := node;
      right.rbParent := parent;
      if parent != null {
        if node == parent.rbLeft {
          parent.rbLeft := right;
        } else {
          parent.rbRight := right;
        }
      } else {
        rbNode := right;
      }
      node.rbParent := right;
    }

    /** The pointer surgery of `__rb_rotate_right`. */
    method RotateRight(node: RbNode)
      requires node in nodes && node.rbLeft != null && node.rbLeft in nodes
      requires Separate(node, node.rbLeft, node.rbLeft.rbRight, node.rbParent, nodes)
      modifies this`rbNode, nodes
      ensures var h, y := old(View(nodes)), node;
        var x, p := h[y].left, h[y].parent;
        var b := h[x].right;
        && View(nodes)[y] == h[y].(left := b, parent := x)
        && View(nodes)[x] == h[x].(right := y, parent := p)
        && (b != null ==> View(nodes)[b] == h[b].(parent := y))
        && (p != null ==> View(nodes)[p] == if h[p].right == y then h[p].(right := x) else h[p].(left := x))
        && rbNode == (if p == null then x else old(rbNode))
        && SameBut(h, View(nodes), x, y, b, p)
    {
      var left := node.rbLeft;
      var parent := node.rbParent;
      node.rbLeft := left.rbRight;
      if node.rbLeft != null {
        left.rbRight.rbParent := node;
      }
      left.rbRight := node;
      left.rbParent := parent;
      if parent != null {
        if node == parent.rbRight {
          parent.rbRight := left;
        } else {
          parent.rbLeft := left;
        }
      } else {
        rbNode := left;
      }
      node.rbParent := left;
    }

    /** The same rotation as a step between trees. */
    method RotateLeftIn(node: RbNode, ghost z: Path, ghost t: Tree)
      requires Located(z, t) && t.Node? && t.node == node && t.right.Node?
      modifies this`rbNode, nodes
      ensures Located(z, RotatedLeft(t))
    {
      ghost var h, root := View(nodes), rbNode;
      AroundLeftRotation(h, root, z, t.left, node, t.red, t.right.left, t.right.node, t.right.red, t.right.right);
      RotationNodes(h, z, t.left, node, t.right.left, t.right.node, t.right.right);
      ParentNode(h, root, z, node, Nodes(t));
      RotateLeft(node);
      RotationFrame(h, View(nodes), z, t.left, node, t.right.left, t.right.node, t.right.right);
      RotateLeftAt(h, View(nodes), root, rbNode, z, t.left, node, t.red, t.right.left, t.right.node, t.right.red,
        t.right.right);
    }

    method RotateRightIn(node: RbNode, ghost z: Path, ghost t: Tree)
      requires Located(z, t) && t.Node? && t.node == node && t.left.Node?
      modifies this`rbNode, nodes
      ensures Located(z, RotatedRight(t))
    {
      ghost var h, root := View(nodes), rbNode;
      AroundRightRotation(h, root, z, t.left.left, t.left.node, t.left.red, t.left.right, node, t.red, t.right);
      RotationNodes(h, z, t.left.left, t.left.node, t.left.right, node, t.right);
      ParentNode(h, root, z, node, Nodes(t));
      RotateRight(node);
      RotationFrame(h, View(nodes), z, t.left.left, t.left.node, t.left.right, node, t.right);
      RotateRightAt(h, View(nodes), root, rbNode, z, t.left.left, t.left.node, t.left.red, t.left.right, node, t.red,
        t.right);
    }

    /** `rb_link_node`: `left` says which child link of `parent` the pointer argument is. */
    method LinkNode(node: RbNode, parent: RbNode?, left: bool, ghost z: Path)
      requires Located(z, Leaf) && node !in nodes
      requires parent == ParentOf(z) && (parent != null ==> (left <==> z.InLeft?))
      modifies this`rbNode, this`nodes, nodes, node
      ensures nodes == old(nodes) + {node}
      ensures Located(z, Node(Leaf, node, true, Leaf))
    {
      hide RbHeap.At;
      ghost var h, root := View(nodes), rbNode;
      HoleAt(h, root, z);
      node.rbParent, node.red := parent, true;
      node.rbLeft, node.rbRight := null, null;
      if parent == null {
        rbNode := node;
      } else if left {
        parent.rbLeft := node;
      } else {
        parent.rbRight := node;
      }
      nodes := nodes + {node};
      LinkAt(h, View(nodes), root, rbNode, z, node);
    }

    /** Red uncle: both parents turn black, the grandparent red. */
    method InsertRecolorLeft(parent: RbNode, gparent: RbNode, uncle: RbNode, ghost up: Path, ghost family: Tree,
                             ghost u: Tree)
      requires Located(up, Node(family, gparent, false, u))
      requires IsRed(family) && family.node == parent && IsRed(u) && u.node == uncle
      modifies nodes
      ensures Located(up, Node(Blacken(family), gparent, true, Blacken(u)))
    {
      hide RbHeap.At;
      Refocus(up, Node(family, gparent, false, u), InRight(up, gparent, false, family), u);
      SetColor(uncle, false, InRight(up, gparent, false, family), u);
      Refocus(InRight(up, gparent, false, family), Blacken(u), InLeft(up, gparent, false, Blacken(u)), family);
      SetColor(parent, false, InLeft(up, gparent, false, Blacken(u)), family);
      Refocus(InLeft(up, gparent, false, Blacken(u)), Blacken(family), up,
        Node(Blacken(family), gparent, false, Blacken(u)));
      SetColor(gparent, true, up, Node(Blacken(family), gparent, false, Blacken(u)));
    }

    /** Black uncle: at most one inner rotation at the parent, then one at the grandparent. */
    method InsertRotateLeft(node: RbNode, parent: RbNode, gparent: RbNode, ghost up: Path, ghost family: Tree,
                            ghost u: Tree)
      returns (node': RbNode)
      requires Located(InLeft(up, gparent, false, u), family)
      requires IsRed(family) && family.node == parent && node != parent
      requires RootOf(family.left) == node || (RootOf(family.right) == node && family.right.red)
      modifies this`rbNode, nodes
      ensures var turned := if RootOf(family.right) == node then RotatedLeft(family) else family;
        && turned.left.Node? && node' == turned.left.node
        && Located(up, Node(turned.left, turned.node, false, Node(turned.right, gparent, true, u)))
    {
      hide RbHeap.At;
      ghost var z, turned := InLeft(up, gparent, false, u), family;
      var parent := parent;
      node' := node;
      FieldsAt(z, family);
      if parent.rbRight == node' {
        RotateLeftIn(parent, z, family);
        turned := RotatedLeft(family);
        parent, node' := node', parent;
      }
      SetColor(parent, false, z, turned);
      Refocus(z, Blacken(turned), up, Node(Blacken(turned), gparent, false, u));
      SetColor(gparent, true, up, Node(Blacken(turned), gparent, false, u));
      RotateRightIn(gparent, up, Node(Blacken(turned), gparent, true, u));
    }

    /** The iteration of `rb_insert_color` whose red parent is a left child. */
    method InsertColorLeft(node: RbNode, parent: RbNode, gparent: RbNode, ghost z: Path, ghost t: Tree, ghost k: int)
      returns (node': RbNode, ghost z': Path, ghost t': Tree, ghost k': int)
      requires Located(z, t) && IsRed(t) && t.node == node && RB(t, k) && RBPath(z, k)
      requires !z.Top? && z.red && z.up.InLeft? && z.node == parent && z.up.node == gparent
      modifies this`rbNode, nodes
      ensures Located(z', t') && IsRed(t') && t'.node == node' && RB(t', k') && RBPath(z', k')
      ensures Inorder(Plug(z', t')) == Inorder(Plug(z, t)) && Depth(z') < Depth(z)
    {
      hide RbHeap.At;
      ghost var up, u, family := z.up.up, z.up.sibling, FamilyAt(z, t);
      FieldsAt(z, t);
      Refocus(z, t, z.up, family);
      FieldsAt(z.up, family);
      Refocus(z.up, family, up, Node(family, gparent, false, u));
      FieldsAt(up, Node(family, gparent, false, u));
      Refocus(z.up, family, InRight(up, gparent, false, family), u);
      if u.Node? { FieldsAt(InRight(up, gparent, false, family), u); }
      assert !z.up.Top? && !z.up.red;
      hide RbTheory.RB, RbTheory.RBPath, RbTheory.Inorder, RbTheory.Plug;
      var uncle := gparent.rbRight;
      if uncle != null && uncle.red {
        InsertRecolorLeft(parent, gparent, uncle, up, family, u);
        node', z', t', k' := gparent, up, Node(Blacken(family), gparent, true, Blacken(u)), k + 1;
        InsertRecolored(z, t, family, t', k);
      } else {
        node' := InsertRotateLeft(node, parent, gparent, up, family, u);
        z', t', k' := InsertRotatedLeft(z, t, family, k);
        Refocus(up, Node(t', z'.node, false, z'.sibling), z', t');
      }
    }

    /** Red uncle: both parents turn black, the grandparent red. */
    method InsertRecolorRight(parent: RbNode, gparent: RbNode, uncle: RbNode, ghost up: Path, ghost family: Tree,
                              ghost u: Tree)
      requires Located(up, Node(u, gparent, false, family))
      requires IsRed(family) && family.node == parent && IsRed(u) && u.node == uncle
      modifies nodes
      ensures Located(up, Node(Blacken(u), gparent, true, Blacken(family)))
    {
      hide RbHeap.At;
      Refocus(up, Node(u, gparent, false, family), InLeft(up, gparent, false, family), u);
      SetColor(uncle, false, InLeft(up, gparent, false, family), u);
      Refocus(InLeft(up, gparent, false, family), Blacken(u), InRight(up, gparent, false, Blacken(u)), family);
      SetColor(parent, false, InRight(up, gparent, false, Blacken(u)), family);
      Refocus(InRight(up, gparent, false, Blacken(u)), Blacken(family), up,
        Node(Blacken(u), gparent, false, Blacken(family)));
      SetColor(gparent, true, up, Node(Blacken(u), gparent, false, Blacken(family)));
    }

    /** Black uncle: at most one inner rotation at the parent, then one at the grandparent. */
    method InsertRotateRight(node: RbNode, parent: RbNode, gparent: RbNode, ghost up: Path, ghost family: Tree,
                             ghost u: Tree)
      returns (node': RbNode)
      requires Located(InRight(up, gparent, false, u), family)
      requires IsRed(family) && family.node == parent && node != parent
      requires RootOf(family.right) == node || (RootOf(family.left) == node && family.left.red)
      modifies this`rbNode, nodes
      ensures var turned := if RootOf(family.left) == node then RotatedRight(family) else family;
        && turned.right.Node? && node' == turned.right.node
        && Located(up, Node(Node(u, gparent, true, turned.left), turned.node, false, turned.right))
    {
      hide RbHeap.At;
      ghost var z, turned := InRight(up, gparent, false, u), family;
      var parent := parent;
      node' := node;
      FieldsAt(z, family);
      if parent.rbLeft == node' {
        RotateRightIn(parent, z, family);
        turned := RotatedRight(family);
        parent, node' := node', parent;
      }
      SetColor(parent, false, z, turned);
      Refocus(z, Blacken(turned), up, Node(u, gparent, false, Blacken(turned)));
      SetColor(gparent, true, up, Node(u, gparent, false, Blacken(turned)));
      RotateLeftIn(gparent, up, Node(u, gparent, true, Blacken(turned)));
    }

    /** The iteration of `rb_insert_color` whose red parent is a right child. */
    method InsertColorRight(node: RbNode, parent: RbNode, gparent: RbNode, ghost z: Path, ghost t: Tree, ghost k: int)
      returns (node': RbNode, ghost z': Path, ghost t': Tree, ghost k': int)
      requires Located(z, t) && IsRed(t) && t.node == node && RB(t, k) && RBPath(z, k)
      requires !z.Top? && z.red && z.up.InRight? && z.node == parent && z.up.node == gparent
      modifies this`rbNode, nodes
      ensures Located(z', t') && IsRed(t') && t'.node == node' && RB(t', k') && RBPath(z', k')
      ensures Inorder(Plug(z', t')) == Inorder(Plug(z, t)) && Depth(z') < Depth(z)
    {
      hide RbHeap.At;
      ghost var up, u, family := z.up.up, z.up.sibling, FamilyAt(z, t);
      FieldsAt(z, t);
      Refocus(z, t, z.up, family);
      FieldsAt(z.up, family);
      Refocus(z.up, family, up, Node(u, gparent, false, family));
      FieldsAt(up, Node(u, gparent, false, family));
      Refocus(z.up, family, InLeft(up, gparent, false, family), u);
      if u.Node? { FieldsAt(InLeft(up, gparent, false, family), u); }
      assert !z.up.Top? && !z.up.red;
      hide RbTheory.RB, RbTheory.RBPath, RbTheory.Inorder, RbTheory.Plug;
      var uncle := gparent.rbLeft;
      if uncle != null && uncle.red {
        InsertRecolorRight(parent, gparent, uncle, up, family, u);
        node', z', t', k' := gparent, up, Node(Blacken(u), gparent, true, Blacken(family)), k + 1;
        InsertRecolored(z, t, family, t', k);
      } else {
        node' := InsertRotateRight(node, parent, gparent, up, family, u);
        z', t', k' := InsertRotatedRight(z, t, family, k);
        Refocus(up, Node(z'.sibling, z'.node, false, t'), z', t');
      }
    }

    /** `rb_insert_color`: repairs the balance around the red node `node` at the root of `t`. */
    method InsertColor(node: RbNode, ghost z: Path, ghost t: Tree, ghost k: int)
      requires Located(z, t) && IsRed(t) && t.node == node
      requires RB(t, k) && RBPath(z, k)
      modifies this`rbNode, this`tree, nodes
      ensures Valid() && Balanced(tree)
      ensures Inorder(tree) == Inorder(Plug(z, t))
    {
      hide RbHeap.At;
      var node := node;
      ghost var z, t, k := z, t, k;
      FieldsAt(z, t);
      ghost var order := Inorder(Plug(z, t));
      while node.rbParent != null && node.rbParent.red
        invariant Located(z, t) && IsRed(t) && t.node == node
        invariant RB(t, k) && RBPath(z, k)
        invariant Inorder(Plug(z, t)) == order
        invariant node.rbParent == ParentOf(z)
        decreases Depth(z)
      {
        var parent := node.rbParent;
        ParentFieldsAt(z, t);
        assert RBPath(z, k) && z.red;
        var gparent := parent.rbParent;
        GrandparentFieldsAt(z, t);
        if parent == gparent.rbLeft {
          node, z, t, k := InsertColorLeft(node, parent, gparent, z, t, k);
        } else {
          node, z, t, k := InsertColorRight(node, parent, gparent, z, t, k);
        }
        FieldsAt(z, t);
      }
      if !z.Top? { ParentFieldsAt(z, t); }
      BlackenRoot(z, t, k);
    }

    /** The closing statement of `rb_insert_color`. */
    method BlackenRoot(ghost z: Path, ghost t: Tree, ghost k: int)
      requires Located(z, t) && IsRed(t) && RB(t, k) && RBPath(z, k) && (z.Top? || !z.red)
      modifies this`tree, nodes
      ensures Valid() && Balanced(tree)
      ensures Inorder(tree) == Inorder(Plug(z, t))
    {
      hide RbHeap.At;
      ghost var j := PlugRB(z, t, k);
      ghost var whole := Plug(z, t);
      PlugNode(z, t);
      Refocus(z, t, Top, whole);
      FieldsAt(Top, whole);
      SetColor(rbNode, false, Top, whole);
      tree := Blacken(whole);
      assert RB(tree, j) || RB(tree, j + 1);
    }

    /**
     `rb_link_node` and `rb_insert_color`, as the two are used together: at whichever free link of a valid tree
     the node is linked in, the tree is valid again and has the node at that place of its order.
     */
    method LinkAndColor(node: RbNode, parent: RbNode?, left: bool, ghost z: Path)
      requires Valid() && Balanced(tree) && Plug(z, Leaf) == tree && node !in nodes
      requires parent == ParentOf(z) && (parent != null ==> (left <==> z.InLeft?))
      modifies this, nodes, node
      ensures Valid() && Balanced(tree) && nodes == old(nodes) + {node}
      ensures old(Inorder(tree)) == Before(z) + After(z) && Inorder(tree) == Before(z) + [node] + After(z)
    {
      hide RbHeap.At;
      ghost var k :| RB(tree, k);
      ghost var j := SplitRB(z, Leaf, k);
      ghost var leaf := Node(Leaf, node, true, Leaf);
      PlugInorder(z, Leaf);
      PlugInorder(z, leaf);
      assert Before(z) + [] + After(z) == Before(z) + After(z) && Inorder(leaf) == [node];
      Refocus(Top, tree, z, Leaf);
      LinkNode(node, parent, left, z);
      InsertColor(node, z, leaf, 0);
    }

    // ---------- erasure ----------

    /** A red sibling: rotate it above the parent. */
    method EraseRedSiblingLeft(other: RbNode, parent: RbNode, ghost z: Path, ghost t: Tree)
      requires Located(z, t) && z.InLeft? && z.node == parent && !z.red && IsRed(z.sibling) && z.sibling.node == other
          && z.sibling.left.Node?
      modifies this`rbNode, nodes
      ensures Located(InLeft(InLeft(z.up, other, false, z.sibling.right), parent, true, z.sibling.left), t)
      ensures parent.rbRight == z.sibling.left.node
    {
      hide RbHeap.At;
      ghost var s := z.sibling;
      Refocus(z, t, InRight(z.up, parent, false, t), s);
      SetColor(other, false, InRight(z.up, parent, false, t), s);
      Refocus(InRight(z.up, parent, false, t), Blacken(s), z.up, Node(t, parent, false, Blacken(s)));
      SetColor(parent, true, z.up, Node(t, parent, false, Blacken(s)));
      RotateLeftIn(parent, z.up, Node(t, parent, true, Blacken(s)));
      ghost var z' := InLeft(InLeft(z.up, other, false, s.right), parent, true, s.left);
      Refocus(z.up, RotatedLeft(Node(t, parent, true, Blacken(s))), z', t);
      Refocus(z', t, z'.up, Node(t, parent, true, s.left));
      FieldsAt(z'.up, Node(t, parent, true, s.left));
    }

    /** The sibling's inner child is red and its outer child black: rotate at the sibling. */
    method EraseNephewLeft(other: RbNode, parent: RbNode, ghost z: Path, ghost t: Tree) returns (other': RbNode)
      requires Located(z, t) && z.InLeft? && z.node == parent && z.sibling.Node? && z.sibling.node == other
          && !z.sibling.red
      requires IsRed(z.sibling.left) || IsRed(z.sibling.right)
      modifies this`rbNode, nodes
      ensures Located(InLeft(z.up, parent, z.red, NephewLeft(z.sibling)), t) && other' == NephewLeft(z.sibling).node
    {
      hide RbHeap.At;
      ghost var s, w := z.sibling, InRight(z.up, parent, z.red, t);
      Refocus(z, t, w, s);
      FieldsAt(w, s);
      ChildFieldsAt(w, s);
      other' := other;
      if other.rbRight == null || !other.rbRight.red {
        ghost var v := InLeft(w, other, false, s.right);
        Refocus(w, s, v, s.left);
        SetColor(other.rbLeft, false, v, s.left);
        Refocus(v, Blacken(s.left), w, Node(Blacken(s.left), other, false, s.right));
        SetColor(other, true, w, Node(Blacken(s.left), other, false, s.right));
        RotateRightIn(other, w, Node(Blacken(s.left), other, true, s.right));
        s := NephewLeft(s);
        ParentFieldsAt(w, s);
        other' := parent.rbRight;
      }
      Refocus(w, s, InLeft(z.up, parent, z.red, s), t);
    }

    /** The outer child of the sibling is red: rotate at the parent. */
    method EraseFinishLeft(other: RbNode, parent: RbNode, ghost z: Path, ghost t: Tree)
      requires Located(z, t) && z.InLeft? && z.node == parent && z.sibling.Node? && z.sibling.node == other
          && IsRed(z.sibling.right)
      modifies this`rbNode, nodes
      ensures var s := z.sibling;
        Located(z.up, Node(Node(t, parent, false, s.left), other, z.red, Blacken(s.right)))
    {
      hide RbHeap.At;
      ghost var s, w := z.sibling, InRight(z.up, parent, z.red, t);
      Refocus(z, t, w, s);
      Refocus(w, s, z.up, Node(t, parent, z.red, s));
      FieldsAt(z.up, Node(t, parent, z.red, s));
      SetColor(other, parent.red, w, s);
      s := s.(red := z.red);
      Refocus(w, s, z.up, Node(t, parent, z.red, s));
      SetColor(parent, false, z.up, Node(t, parent, z.red, s));
      w := InRight(z.up, parent, false, t);
      ghost var v := InRight(w, other, z.red, s.left);
      Refocus(z.up, Node(t, parent, false, s), w, s);
      FieldsAt(w, s);
      Refocus(w, s, v, s.right);
      SetColor(other.rbRight, false, v, s.right);
      s := s.(right := Blacken(s.right));
      Refocus(v, s.right, z.up, Node(t, parent, false, s));
      RotateLeftIn(parent, z.up, Node(t, parent, false, s));
    }

    /** The iteration of `__rb_erase_color` for a hole on the left, once the sibling is black. */
    method EraseBlackSiblingLeft(node: RbNode?, parent: RbNode, other: RbNode, ghost z: Path, ghost t: Tree,
                                 ghost k: int)
      returns (node': RbNode?, parent': RbNode?, done: bool, ghost z': Path, ghost t': Tree, ghost k': int)
      requires Located(z, t) && RootOf(t) == node && RB(t, k) && !IsRed(t) && RBPath(z, k + 1)
      requires z.InLeft? && z.node == parent && z.sibling.Node? && !z.sibling.red && z.sibling.node == other
      modifies this`rbNode, nodes
      ensures Located(z', t') && RootOf(t') == node' && AlmostRB(t', k') && RBPath(z', k' + 1)
      ensures Inorder(Plug(z', t')) == Inorder(Plug(z, t))
      ensures if done then z'.Top? else parent' == ParentOf(z') && z' == z.up && IsRed(t') == z.red
    {
      hide RbHeap.At;
      ghost var s, w := z.sibling, InRight(z.up, parent, z.red, t);
      Refocus(z, t, w, s);
      FieldsAt(w, s);
      ChildFieldsAt(w, s);
      if (other.rbLeft == null || !other.rbLeft.red) && (other.rbRight == null || !other.rbRight.red) {
        SetColor(other, true, w, s);
        t', k' := EraseRecoloredLeft(z, t, k);
        z', done, node' := z.up, false, parent;
        Refocus(w, s.(red := true), z', t');
        FieldsAt(z', t');
        parent' := node'.rbParent;
      } else {
        Refocus(w, s, z, t);
        var other := EraseNephewLeft(other, parent, z, t);
        EraseFinishLeft(other, parent, InLeft(z.up, parent, z.red, NephewLeft(s)), t);
        t' := EraseFinishedLeft(z, t, k);
        z', done := Top, true;
        s := NephewLeft(s);
        Refocus(z.up, Node(Node(t, parent, false, s.left), other, z.red, Blacken(s.right)), Top, t');
        node', parent' := rbNode, parent;
        RootAt(Top, t');
        k' :| RB(t', k');
      }
    }

    /** The iteration of `__rb_erase_color` for a hole on the left. */
    method EraseColorLeft(node: RbNode?, parent: RbNode, ghost z: Path, ghost t: Tree, ghost k: int)
      returns (node': RbNode?, parent': RbNode?, done: bool, ghost z': Path, ghost t': Tree, ghost k': int)
      requires Located(z, t) && RootOf(t) == node && RB(t, k) && !IsRed(t) && RBPath(z, k + 1)
      requires z.InLeft? && z.node == parent
      modifies this`rbNode, nodes
      ensures Located(z', t') && RootOf(t') == node' && AlmostRB(t', k') && RBPath(z', k' + 1)
      ensures Inorder(Plug(z', t')) == Inorder(Plug(z, t))
      ensures if done then z'.Top? else parent' == ParentOf(z') && (IsRed(t') || Depth(z') < Depth(z))
    {
      hide RbHeap.At;
      BlackHeightNat(t, k);
      BlackHeightNat(z.sibling, k + 1);
      SiblingAt(z, t);
      var other := parent.rbRight;
      ghost var z0 := z;
      if other.red {
        z0 := RedSiblingLeft(z, t, k);
        EraseRedSiblingLeft(other, parent, z, t);
        other := parent.rbRight;
      }
      node', parent', done, z', t', k' := EraseBlackSiblingLeft(node, parent, other, z0, t, k);
    }

    /** A red sibling: rotate it above the parent. */
    method EraseRedSiblingRight(other: RbNode, parent: RbNode, ghost z: Path, ghost t: Tree)
      requires Located(z, t) && z.InRight? && z.node == parent && !z.red && IsRed(z.sibling) && z.sibling.node == other
          && z.sibling.right.Node?
      modifies this`rbNode, nodes
      ensures Located(InRight(InRight(z.up, other, false, z.sibling.left), parent, true, z.sibling.right), t)
      ensures parent.rbLeft == z.sibling.right.node
    {
      hide RbHeap.At;
      ghost var s := z.sibling;
      Refocus(z, t, InLeft(z.up, parent, false, t), s);
      SetColor(other, false, InLeft(z.up, parent, false, t), s);
      Refocus(InLeft(z.up, parent, false, t), Blacken(s), z.up, Node(Blacken(s), parent, false, t));
      SetColor(parent, true, z.up, Node(Blacken(s), parent, false, t));
      RotateRightIn(parent, z.up, Node(Blacken(s), parent, true, t));
      ghost var z' := InRight(InRight(z.up, other, false, s.left), parent, true, s.right);
      Refocus(z.up, RotatedRight(Node(Blacken(s), parent, true, t)), z', t);
      Refocus(z', t, z'.up, Node(s.right, parent, true, t));
      FieldsAt(z'.up, Node(s.right, parent, true, t));
    }

    /** The sibling's inner child is red and its outer child black: rotate at the sibling. */
    method EraseNephewRight(other: RbNode, parent: RbNode, ghost z: Path, ghost t: Tree) returns (other': RbNode)
      requires Located(z, t) && z.InRight? && z.node == parent && z.sibling.Node? && z.sibling.node == other
          && !z.sibling.red
      requires IsRed(z.sibling.left) || IsRed(z.sibling.right)
      modifies this`rbNode, nodes
      ensures Located(InRight(z.up, parent, z.red, NephewRight(z.sibling)), t) && other' == NephewRight(z.sibling).node
    {
      hide RbHeap.At;
      ghost var s, w := z.sibling, InLeft(z.up, parent, z.red, t);
      Refocus(z, t, w, s);
      FieldsAt(w, s);
      ChildFieldsAt(w, s);
      other' := other;
      if other.rbLeft == null || !other.rbLeft.red {
        ghost var v := InRight(w, other, false, s.left);
        Refocus(w, s, v, s.right);
        SetColor(other.rbRight, false, v, s.right);
        Refocus(v, Blacken(s.right), w, Node(s.left, other, false, Blacken(s.right)));
        SetColor(other, true, w, Node(s.left, other, false, Blacken(s.right)));
        RotateLeftIn(other, w, Node(s.left, other, true, Blacken(s.right)));
        s := NephewRight(s);
        ParentFieldsAt(w, s);
        other' := parent.rbLeft;
      }
      Refocus(w, s, InRight(z.up, parent, z.red, s), t);
    }

    /** The outer child of the sibling is red: rotate at the parent. */
    method EraseFinishRight(other: RbNode, parent: RbNode, ghost z: Path, ghost t: Tree)
      requires Located(z, t) && z.InRight? && z.node == parent && z.sibling.Node? && z.sibling.node == other
          && IsRed(z.sibling.left)
      modifies this`rbNode, nodes
      ensures var s := z.sibling;
        Located(z.up, Node(Blacken(s.left), other, z.red, Node(s.right, parent, false, t)))
    {
      hide RbHeap.At;
      ghost var s, w := z.sibling, InLeft(z.up, parent, z.red, t);
      Refocus(z, t, w, s);
      Refocus(w, s, z.up, Node(s, parent, z.red, t));
      FieldsAt(z.up, Node(s, parent, z.red, t));
      SetColor(other, parent.red, w, s);
      s := s.(red := z.red);
      Refocus(w, s, z.up, Node(s, parent, z.red, t));
      SetColor(parent, false, z.up, Node(s, parent, z.red, t));
      w := InLeft(z.up, parent, false, t);
      ghost var v := InLeft(w, other, z.red, s.right);
      Refocus(z.up, Node(s, parent, false, t), w, s);
      FieldsAt(w, s);
      Refocus(w, s, v, s.left);
      SetColor(other.rbLeft, false, v, s.left);
      s := s.(left := Blacken(s.left));
      Refocus(v, s.left, z.up, Node(s, parent, false, t));
      RotateRightIn(parent, z.up, Node(s, parent, false, t));
    }

    /** The iteration of `__rb_erase_color` for a hole on the right, once the sibling is black. */
    method EraseBlackSiblingRight(node: RbNode?, parent: RbNode, other: RbNode, ghost z: Path, ghost t: Tree,
                                  ghost k: int)
      returns (node': RbNode?, parent': RbNode?, done: bool, ghost z': Path, ghost t': Tree, ghost k': int)
      requires Located(z, t) && RootOf(t) == node && RB(t, k) && !IsRed(t) && RBPath(z, k + 1)
      requires z.InRight? && z.node == parent && z.sibling.Node? && !z.sibling.red && z.sibling.node == other
      modifies this`rbNode, nodes
      ensures Located(z', t') && RootOf(t') == node' && AlmostRB(t', k') && RBPath(z', k' + 1)
      ensures Inorder(Plug(z', t')) == Inorder(Plug(z, t))
      ensures if done then z'.Top? else parent' == ParentOf(z') && z' == z.up && IsRed(t') == z.red
    {
      hide RbHeap.At;
      ghost var s, w := z.sibling, InLeft(z.up, parent, z.red, t);
      Refocus(z, t, w, s);
      FieldsAt(w, s);
      ChildFieldsAt(w, s);
      if (other.rbLeft == null || !other.rbLeft.red) && (other.rbRight == null || !other.rbRight.red) {
        SetColor(other, true, w, s);
        t', k' := EraseRecoloredRight(z, t, k);
        z', done, node' := z.up, false, parent;
        Refocus(w, s.(red := true), z', t');
        FieldsAt(z', t');
        parent' := node'.rbParent;
      } else {
        Refocus(w, s, z, t);
        var other := EraseNephewRight(other, parent, z, t);
        EraseFinishRight(other, parent, InRight(z.up, parent, z.red, NephewRight(s)), t);
        t' := EraseFinishedRight(z, t, k);
        z', done := Top, true;
        s := NephewRight(s);
        Refocus(z.up, Node(Blacken(s.left), other, z.red, Node(s.right, parent, false, t)), Top, t');
        node', parent' := rbNode, parent;
        RootAt(Top, t');
        k' :| RB(t', k');
      }
    }

    /** The iteration of `__rb_erase_color` for a hole on the right. */
    method EraseColorRight(node: RbNode?, parent: RbNode, ghost z: Path, ghost t: Tree, ghost k: int)
      returns (node': RbNode?, parent': RbNode?, done: bool, ghost z': Path, ghost t': Tree, ghost k': int)
      requires Located(z, t) && RootOf(t) == node && RB(t, k) && !IsRed(t) && RBPath(z, k + 1)
      requires z.InRight? && z.node == parent
      modifies this`rbNode, nodes
      ensures Located(z', t') && RootOf(t') == node' && AlmostRB(t', k') && RBPath(z', k' + 1)
      ensures Inorder(Plug(z', t')) == Inorder(Plug(z, t))
      ensures if done then z'.Top? else parent' == ParentOf(z') && (IsRed(t') || Depth(z') < Depth(z))
    {
      hide RbHeap.At;
      BlackHeightNat(t, k);
      BlackHeightNat(z.sibling, k + 1);
      SiblingAt(z, t);
      var other := parent.rbLeft;
      ghost var z0 := z;
      if other.red {
        z0 := RedSiblingRight(z, t, k);
        EraseRedSiblingRight(other, parent, z, t);
        other := parent.rbLeft;
      }
      node', parent', done, z', t', k' := EraseBlackSiblingRight(node, parent, other, z0, t, k);
    }

    /** One iteration of `__rb_erase_color`; `done` says that it ended with a break. */
    method EraseColorStep(node: RbNode?, parent: RbNode, ghost z: Path, ghost t: Tree, ghost k: int)
      returns (node': RbNode?, parent': RbNode?, done: bool, ghost z': Path, ghost t': Tree, ghost k': int)
      requires Located(z, t) && RootOf(t) == node && RB(t, k) && !IsRed(t) && RBPath(z, k + 1)
      requires !z.Top? && z.node == parent
      modifies this`rbNode, nodes
      ensures Located(z', t') && RootOf(t') == node' && AlmostRB(t', k') && RBPath(z', k' + 1)
      ensures Inorder(Plug(z', t')) == Inorder(Plug(z, t))
      ensures if done then z'.Top? else parent' == ParentOf(z') && (IsRed(t') || Depth(z') < Depth(z))
      ensures (z'.Top? <==> node' == rbNode) && (node' != null ==> node' in nodes && node'.red == t'.red)
    {
      hide RbHeap.At;
      BlackHeightNat(t, k);
      BlackHeightNat(z.sibling, k + 1);
      SiblingAt(z, t);
      if parent.rbLeft == node {
        node', parent', done, z', t', k' := EraseColorLeft(node, parent, z, t, k);
      } else {
        node', parent', done, z', t', k' := EraseColorRight(node, parent, z, t, k);
      }
      NodeAt(z', t');
    }

    /** `__rb_erase_color`: one black node is missing on every way into the hole at `z`. */
    method EraseColor(node: RbNode?, parent: RbNode?, ghost z: Path, ghost t: Tree, ghost k: int)
      requires Located(z, t) && RootOf(t) == node && ParentOf(z) == parent
      requires AlmostRB(t, k) && RBPath(z, k + 1)
      modifies this`rbNode, this`tree, nodes
      ensures Valid() && Balanced(tree)
      ensures Inorder(tree) == Inorder(Plug(z, t))
    {
      hide RbHeap.At;
      var node, parent := node, parent;
      ghost var z, t, k := z, t, k;
      ghost var order := Inorder(Plug(z, t));
      NodeAt(z, t);
      while (node == null || !node.red) && node != rbNode
        invariant Located(z, t) && RootOf(t) == node && AlmostRB(t, k) && RBPath(z, k + 1)
        invariant parent == ParentOf(z)
        invariant (z.Top? <==> node == rbNode) && (node != null ==> node in nodes && node.red == t.red)
        invariant Inorder(Plug(z, t)) == order
        decreases if IsRed(t) then 0 else 1 + Depth(z)
      {
        var done;
        node, parent, done, z, t, k := EraseColorStep(node, parent, z, t, k);
        if done {
          break;
        }
      }
      BlackenNode(node, z, t, k);
    }

    /** The closing statement of `__rb_erase_color`. */
    method BlackenNode(node: RbNode?, ghost z: Path, ghost t: Tree, ghost k: int)
      requires Located(z, t) && RootOf(t) == node
      requires AlmostRB(t, k) && RBPath(z, k + 1) && (z.Top? || IsRed(t))
      modifies this`tree, nodes
      ensures Valid() && Balanced(tree)
      ensures Inorder(tree) == Inorder(Plug(z, t))
    {
      hide RbHeap.At;
      if node != null {
        SetColor(node, false, z, t);
      }
      EraseExit(z, t, k);
      tree := Plug(z, Blacken(t));
      Refocus(z, Blacken(t), Top, tree);
    }

    // ---------- unlinking ----------

    /** The tail of `rb_erase` for a node with at most one child: `child` takes its place. */
    method Unlink(node: RbNode, child: RbNode?) returns (parent: RbNode?)
      requires node in nodes && (child != null ==> child in nodes) && (node.rbParent != null ==> node.rbParent in nodes)
      requires node != child && node != node.rbParent && (child != null ==> child != node.rbParent)
      modifies this`rbNode, this`nodes, nodes
      ensures nodes == old(nodes) - {node} && parent == old(node.rbParent)
      ensures rbNode == if parent == null then child else old(rbNode)
      ensures Unlinked(old(View(nodes)), View(nodes), node, child)
    {
      parent := node.rbParent;
      if child != null {
        child.rbParent := parent;
      }
      if parent != null {
        if parent.rbLeft == node {
          parent.rbLeft := child;
        } else {
          parent.rbRight := child;
        }
      } else {
        rbNode := child;
      }
      nodes := nodes - {node};
    }

    /** The link down to `x`, in its parent or in the root pointer, leads to `y` from now on. */
    method Redirect(x: RbNode, y: RbNode)
      requires x in nodes && (x.rbParent != null ==> x.rbParent in nodes)
      modifies this`rbNode, nodes
      ensures rbNode == if old(x.rbParent) == null then y else old(rbNode)
      ensures View(nodes) == Redirected(old(View(nodes)), x, y)
    {
      if x.rbParent != null {
        if x.rbParent.rbLeft == x {
          x.rbParent.rbLeft := y;
        } else {
          x.rbParent.rbRight := y;
        }
      } else {
        rbNode := y;
      }
    }

    /** The successor `node` hands its place over to its right child. */
    method LeavePlace(node: RbNode, parent: RbNode) returns (child: RbNode?)
      requires node in nodes && parent in nodes && parent != node
      requires node.rbRight != null ==> node.rbRight in nodes && node.rbRight !in {node, parent}
      modifies nodes
      ensures child == old(node.rbRight)
      ensures View(nodes) == PlaceLeft(old(View(nodes)), node, parent)
    {
      child := node.rbRight;
      if child != null {
        child.rbParent := parent;
      }
      parent.rbLeft := child;
    }

    /** The right child of `victim` comes under `node`. */
    method AdoptRight(victim: RbNode, node: RbNode)
      requires victim in nodes && node in nodes && victim != node
      requires victim.rbRight != null && victim.rbRight in nodes && victim.rbRight !in {node, victim}
      modifies nodes
      ensures View(nodes) == RightAdopted(old(View(nodes)), victim, node)
    {
      node.rbRight := victim.rbRight;
      victim.rbRight.rbParent := node;
    }

    /** `node` takes over the parent, the colour and the left child of `victim`. */
    method Adopt(victim: RbNode, node: RbNode)
      requires victim in nodes && node in nodes && victim != node
      requires victim.rbLeft != null && victim.rbLeft in nodes && victim.rbLeft != node && victim.rbLeft != victim
      modifies this`nodes, nodes
      ensures nodes == old(nodes) - {victim}
      ensures Adopted(old(View(nodes)), View(nodes), victim, node)
    {
      node.rbParent, node.red := victim.rbParent, victim.red;
      node.rbLeft := victim.rbLeft;
      victim.rbLeft.rbParent := node;
      nodes := nodes - {victim};
    }

    /** The successor `node` is put where `victim` was pointed at, and gives up its own place. */
    method Depart(victim: RbNode, node: RbNode) returns (child: RbNode?, parent: RbNode)
      requires TwoPlaces(View(nodes), victim, node)
      modifies this`rbNode, nodes
      ensures child == old(node.rbRight) && parent == if old(node.rbParent) == victim then node else old(node.rbParent)
      ensures rbNode == if old(victim.rbParent) == null then node else old(rbNode)
      ensures View(nodes) == Departed(old(View(nodes)), victim, node)
    {
      Redirect(victim, node);
      parent := node.rbParent;
      if parent == victim {
        child := node.rbRight;
        parent := node;
      } else {
        child := LeavePlace(node, parent);
        AdoptRight(victim, node);
      }
    }

    /** The two-child part of `rb_erase`: the successor `node` leaves its place and takes that of `victim`. */
    method TakePlace(victim: RbNode, node: RbNode) returns (child: RbNode?, parent: RbNode)
      requires TwoPlaces(View(nodes), victim, node)
      modifies this`rbNode, this`nodes, nodes
      ensures nodes == old(nodes) - {victim}
      ensures child == old(node.rbRight) && parent == if old(node.rbParent) == victim then node else old(node.rbParent)
      ensures rbNode == if old(victim.rbParent) == null then node else old(rbNode)
      ensures PlaceTaken(old(View(nodes)), View(nodes), victim, node)
    {
      hide RbSplice.PlaceTaken, RbSplice.Adopted, RbSplice.Departed;
      ghost var h := View(nodes);
      child, parent := Depart(victim, node);
      assert View(nodes)[victim].left == h[victim].left;
      Adopt(victim, node);
      PlaceTakenInSteps(h, View(nodes), victim, node);
    }

    /** The search of `rb_erase` for the leftmost node of the right subtree. */
    method Successor(victim: RbNode, ghost z: Path, ghost t: Tree) returns (node: RbNode, ghost q: Path, ghost f: Tree)
      requires Located(z, t) && t.Node? && t.node == victim && t.right.Node? && Distinct(t)
      ensures Located(q, f) && OnSpine(z, t, q, f) && f.node == node && f.left.Leaf?
    {
      hide RbHeap.At;
      FieldsAt(z, t);
      node := victim.rbRight;
      q, f := InRight(z, victim, t.red, t.left), t.right;
      SpineStart(z, t);
      Refocus(z, t, q, f);
      FieldsAt(q, f);
      while node.rbLeft != null
        invariant Located(q, f) && OnSpine(z, t, q, f) && f.node == node
        invariant node.rbLeft == RootOf(f.left)
        decreases f
      {
        node := node.rbLeft;
        SpineStep(z, t, q, f);
        Refocus(q, f, InLeft(q, f.node, f.red, f.right), f.left);
        q, f := InLeft(q, f.node, f.red, f.right), f.left;
        FieldsAt(q, f);
      }
    }

    /** The first half of `rb_erase` for a node with two children: the hole is now where its successor was. */
    method HoleAtSuccessor(victim: RbNode, ghost z: Path, ghost t: Tree)
      returns (child: RbNode?, parent: RbNode, red: bool, ghost q: Path, ghost f: Tree)
      requires Located(z, t) && t.Node? && t.node == victim && t.left.Node? && t.right.Node?
      modifies this`rbNode, this`nodes, nodes
      ensures nodes == old(nodes) - {victim}
      ensures OnSpine(z, t, q, f) && f.left.Leaf? && red == f.red
      ensures Located(SubstPath(q, victim, f.node), f.right) && child == RootOf(f.right)
      ensures parent == ParentOf(SubstPath(q, victim, f.node))
    {
      ghost var h, root := View(nodes), rbNode;
      var node;
      node, q, f := Successor(victim, z, t);
      FieldsAt(z, t);
      FieldsAt(q, f);
      SpinePlaces(h, root, z, t, q, f);
      red := node.red;
      child, parent := TakePlace(victim, node);
      InnerTaken(h, View(nodes), root, rbNode, z, t, q, f);
    }

    method EraseInner(node: RbNode, ghost z: Path, ghost t: Tree, ghost k: int)
      requires Located(z, t) && t.Node? && t.node == node && t.left.Node? && t.right.Node?
      requires RB(Plug(z, t), k) && !IsRed(Plug(z, t))
      modifies this`rbNode, this`nodes, this`tree, nodes
      ensures Valid() && Balanced(tree) && nodes == old(nodes) - {node}
      ensures Lacks(Inorder(tree), Inorder(Plug(z, t)), node, |Before(z)| + |Inorder(t.left)|)
    {
      hide RbHeap.At, RbSplice.Lacks, RbTheory.Inorder, RbTheory.Before;
      DistinctAt(z, t);
      var child, parent, red;
      ghost var q, f;
      child, parent, red, q, f := HoleAtSuccessor(node, z, t);
      ghost var j := SplitRB(q, f, k);
      TakingPlaceOrder(z, t, q, f);
      SubstRBPath(q, j, node, f.node);
      EraseTail(child, parent, red, SubstPath(q, node, f.node), f.right, if red then j else j - 1);
    }

    /** `rb_erase` for a node with at most one child. */
    method EraseOuter(node: RbNode, ghost z: Path, ghost t: Tree, ghost k: int)
      requires Located(z, t) && t.Node? && t.node == node && (t.left.Leaf? || t.right.Leaf?)
      requires RB(Plug(z, t), k) && !IsRed(Plug(z, t))
      modifies this`rbNode, this`nodes, this`tree, nodes
      ensures Valid() && Balanced(tree) && nodes == old(nodes) - {node}
      ensures Lacks(Inorder(tree), Inorder(Plug(z, t)), node, |Before(z)| + |Inorder(t.left)|)
    {
      hide RbHeap.At;
      FieldsAt(z, t);
      var child := if node.rbLeft == null then node.rbRight else node.rbLeft;
      var red := node.red;
      ghost var j := SplitRB(z, t, k);
      UnlinkOrder(z, t);
      var parent := UnlinkIn(node, child, z, t);
      EraseTail(child, parent, red, z, OnlyChild(t), if red then j else j - 1);
    }

    /** `rb_erase`; `at` is the place of `node` in the order. */
    method Erase(node: RbNode) returns (ghost at: nat)
      requires Valid() && Balanced(tree) && node in nodes
      modifies this, nodes
      ensures Valid() && Balanced(tree) && nodes == old(nodes) - {node}
      ensures Lacks(Inorder(tree), old(Inorder(tree)), node, at)
    {
      hide RbHeap.At;
      ghost var z, t := LocateIn(node);
      ghost var k :| RB(tree, k);
      at := |Before(z)| + |Inorder(t.left)|;
      FieldsAt(z, t);
      if node.rbLeft == null || node.rbRight == null {
        EraseOuter(node, z, t, k);
      } else {
        EraseInner(node, z, t, k);
      }
    }

    lemma LocateIn(node: RbNode) returns (z: Path, t: Tree)
      requires Valid() && node in nodes
      ensures Located(z, t) && t.Node? && t.node == node && Plug(z, t) == tree
    {
      z, t := Locate(tree, node, Top);
      Refocus(Top, tree, z, t);
    }

    lemma DistinctAt(z: Path, t: Tree)
      requires Located(z, t)
      ensures Distinct(Plug(z, t)) && Distinct(t) && Nodes(Plug(z, t)) == nodes
    {
      Refocus(z, t, Top, Plug(z, t));
    }

    /** Unlinking as a step between trees. */
    method UnlinkIn(node: RbNode, child: RbNode?, ghost z: Path, ghost t: Tree) returns (parent: RbNode?)
      requires Located(z, t) && t.Node? && t.node == node && (t.left.Leaf? || t.right.Leaf?)
          && child == RootOf(OnlyChild(t))
      modifies this`rbNode, this`nodes, nodes
      ensures nodes == old(nodes) - {node} && parent == ParentOf(z)
      ensures Located(z, OnlyChild(t))
    {
      ghost var h, root := View(nodes), rbNode;
      FieldsAt(z, t);
      UnlinkFields(h, root, z, t);
      parent := Unlink(node, child);
      UnlinkBypasses(h, View(nodes), node, child);
      BypassAt(h, View(nodes), root, rbNode, z, t);
    }

    /** The end of `rb_erase`: the fix-up is due when a black node was taken out. */
    method EraseTail(child: RbNode?, parent: RbNode?, red: bool, ghost z: Path, ghost c: Tree, ghost k: int)
      requires Located(z, c) && RootOf(c) == child && parent == ParentOf(z)
      requires RB(c, k) && RBPath(z, if red then k else k + 1) && (red ==> !IsRed(c))
      modifies this`rbNode, this`tree, nodes
      ensures Valid() && Balanced(tree) && Inorder(tree) == Inorder(Plug(z, c))
    {
      hide RbHeap.At;
      if !red {
        EraseColor(child, parent, z, c, k);
      } else {
        ghost var j := PlugRB(z, c, k);
        tree := Plug(z, c);
        Refocus(z, c, Top, tree);
      }
    }

    /** The children of `victim` come under `node`, which takes all its links. */
    method Supplant(victim: RbNode, node: RbNode)
      requires victim in nodes && node !in nodes
      requires victim.rbLeft != null ==> victim.rbLeft in nodes && victim.rbLeft !in {victim, victim.rbRight}
      requires victim.rbRight != null ==> victim.rbRight in nodes && victim.rbRight != victim
      modifies this`nodes, nodes, node
      ensures nodes == old(nodes) - {victim} + {node}
      ensures Supplanted(old(View(nodes)), View(nodes), victim, node)
    {
      if victim.rbLeft != null {
        victim.rbLeft.rbParent := node;
      }
      if victim.rbRight != null {
        victim.rbRight.rbParent := node;
      }
      node.rbLeft, node.rbRight := victim.rbLeft, victim.rbRight;
      node.rbParent, node.red := victim.rbParent, victim.red;
      nodes := nodes - {victim} + {node};
    }

    /** `rb_replace_node`. */
    method ReplaceNode(victim: RbNode, node: RbNode)
      requires Valid() && victim in nodes && node !in nodes
      modifies this, nodes, node
      ensures Valid() && nodes == old(nodes) - {victim} + {node}
      ensures tree == Subst(old(tree), victim, node)
    {
      hide RbHeap.At;
      ghost var h, root := View(nodes), rbNode;
      ReplaceFields(h, root, tree, victim);
      Redirect(victim, node);
      ghost var g := View(nodes);
      Supplant(victim, node);
      ReplacedInSteps(h, g, View(nodes), root, tree, victim, node);
      tree := Subst(tree, victim, node);
    }
  }
}
