/** In-order iteration: `rb_first`, `rb_last`, `rb_next` and `rb_prev`. */
module RbCursor {
  import opened RbTheory
  import opened RbHeap
  import opened RbSplice
  import opened RbTree
  import opened Sequences

  ghost function IndexOf(s: seq<RbNode>, n: RbNode): (i: nat)
    requires n in s
    ensures i < |s| && s[i] == n
  {
    if s[0] == n then 0 else 1 + IndexOf(s[1..], n)
  }

  ghost function NextOf(s: seq<RbNode>, n: RbNode): RbNode?
    requires n in s
  {
    var i := IndexOf(s, n);
    if i + 1 < |s| then s[i + 1] else null
  }

  ghost function PrevOf(s: seq<RbNode>, n: RbNode): RbNode?
    requires n in s
  {
    var i := IndexOf(s, n);
    if i > 0 then s[i - 1] else null
  }

  /** `rb_prev` undoes `rb_next`, and conversely. */
  lemma PrevUndoesNext(s: seq<RbNode>, n: RbNode)
    requires NoDuplicates(s) && n in s
    ensures NextOf(s, n) != null ==> NextOf(s, n) in s && PrevOf(s, NextOf(s, n)) == n
    ensures PrevOf(s, n) != null ==> PrevOf(s, n) in s && NextOf(s, PrevOf(s, n)) == n
  {
    var i := IndexOf(s, n);
    if i + 1 < |s| {
      assert s[i + 1] in s;
      assert IndexOf(s, s[i + 1]) == i + 1;
    }
    if i > 0 {
      assert s[i - 1] in s;
      assert IndexOf(s, s[i - 1]) == i - 1;
    }
  }

  /** Where the node of a position stands in the order. */
  lemma PositionIndex(root: RbRoot, z: Path, t: Tree)
    requires root.Valid() && root.Located(z, t) && t.Node? && Plug(z, t) == root.tree
    ensures var o := Inorder(root.tree);
      && NoDuplicates(o) && t.node in o && IndexOf(o, t.node) == |Before(z)| + |Inorder(t.left)|
      && o == Before(z) + Inorder(t) + After(z)
  {
    root.DistinctAt(z, t);
    InorderDistinct(root.tree);
    PlugInorder(z, t);
    var o, i := Inorder(root.tree), |Before(z)| + |Inorder(t.left)|;
    assert o[i] == t.node;
    assert IndexOf(o, t.node) == i;
  }

  /** The walk down to the leftmost node below a position. */
  method Leftmost(start: RbNode, root: RbRoot, ghost z: Path, ghost t: Tree) returns (n: RbNode)
    requires root.Located(z, t) && t.Node? && t.node == start
    ensures n == Inorder(t)[0]
  {
    hide RbHeap.At;
    n := start;
    ghost var q, f := z, t;
    root.FieldsAt(q, f);
    while n.rbLeft != null
      invariant root.Located(q, f) && f.Node? && f.node == n && n in root.nodes && n.rbLeft == RootOf(f.left)
      invariant Inorder(f)[0] == Inorder(t)[0]
      decreases f
    {
      n := n.rbLeft;
      root.Refocus(q, f, InLeft(q, f.node, f.red, f.right), f.left);
      q, f := InLeft(q, f.node, f.red, f.right), f.left;
      root.FieldsAt(q, f);
    }
  }

  method Rightmost(start: RbNode, root: RbRoot, ghost z: Path, ghost t: Tree) returns (n: RbNode)
    requires root.Located(z, t) && t.Node? && t.node == start
    ensures n == Inorder(t)[|Inorder(t)| - 1]
  {
    hide RbHeap.At;
    n := start;
    ghost var q, f := z, t;
    root.FieldsAt(q, f);
    while n.rbRight != null
      invariant root.Located(q, f) && f.Node? && f.node == n && n in root.nodes && n.rbRight == RootOf(f.right)
      invariant Inorder(f)[|Inorder(f)| - 1] == Inorder(t)[|Inorder(t)| - 1]
      decreases f
    {
      n := n.rbRight;
      root.Refocus(q, f, InRight(q, f.node, f.red, f.left), f.right);
      q, f := InRight(q, f.node, f.red, f.left), f.right;
      root.FieldsAt(q, f);
    }
  }

  method First(root: RbRoot) returns (n: RbNode?)
    requires root.Valid()
    ensures n == if root.tree.Leaf? then null else Inorder(root.tree)[0]
  {
    root.RootAt(Top, root.tree);
    if root.rbNode == null {
      return null;
    }
    n := Leftmost(root.rbNode, root, Top, root.tree);
  }

  method Last(root: RbRoot) returns (n: RbNode?)
    requires root.Valid()
    ensures n == if root.tree.Leaf? then null else Inorder(root.tree)[|Inorder(root.tree)| - 1]
  {
    root.RootAt(Top, root.tree);
    if root.rbNode == null {
      return null;
    }
    n := Rightmost(root.rbNode, root, Top, root.tree);
  }

  method Next(node: RbNode, root: RbRoot) returns (n: RbNode?)
    requires root.Valid() && node in root.nodes
    ensures node in Inorder(root.tree) && n == NextOf(Inorder(root.tree), node)
  {
    hide RbHeap.At;
    ghost var z, t := root.LocateIn(node);
    root.FieldsAt(z, t);
    PositionIndex(root, z, t);
    if node.rbParent == node {
      return null;
    }
    if node.rbRight != null {
      root.Refocus(z, t, InRight(z, t.node, t.red, t.left), t.right);
      n := Leftmost(node.rbRight, root, InRight(z, t.node, t.red, t.left), t.right);
      return;
    }
    var cursor := node;
    ghost var i := IndexOf(Inorder(root.tree), node);
    while cursor.rbParent != null && cursor == cursor.rbParent.rbRight
      invariant root.Located(z, t) && t.Node? && t.node == cursor && Plug(z, t) == root.tree
      invariant cursor in root.nodes && cursor.rbParent == ParentOf(z)
      invariant |Before(z)| + |Inorder(t)| == i + 1
      decreases z
    {
      root.ParentFieldsAt(z, t);
      root.Refocus(z, t, z.up, FamilyAt(z, t));
      cursor := cursor.rbParent;
      z, t := z.up, FamilyAt(z, t);
      root.FieldsAt(z, t);
    }
    PositionIndex(root, z, t);
    if !z.Top? { root.ParentFieldsAt(z, t); }
    n := cursor.rbParent;
  }

  method Prev(node: RbNode, root: RbRoot) returns (n: RbNode?)
    requires root.Valid() && node in root.nodes
    ensures node in Inorder(root.tree) && n == PrevOf(Inorder(root.tree), node)
  {
    hide RbHeap.At;
    ghost var z, t := root.LocateIn(node);
    root.FieldsAt(z, t);
    PositionIndex(root, z, t);
    if node.rbParent == node {
      return null;
    }
    if node.rbLeft != null {
      root.Refocus(z, t, InLeft(z, t.node, t.red, t.right), t.left);
      n := Rightmost(node.rbLeft, root, InLeft(z, t.node, t.red, t.right), t.left);
      return;
    }
    var cursor := node;
    ghost var i := IndexOf(Inorder(root.tree), node);
    while cursor.rbParent != null && cursor == cursor.rbParent.rbLeft
      invariant root.Located(z, t) && t.Node? && t.node == cursor && Plug(z, t) == root.tree
      invariant cursor in root.nodes && cursor.rbParent == ParentOf(z)
      invariant |Before(z)| == i
      decreases z
    {
      root.ParentFieldsAt(z, t);
      root.Refocus(z, t, z.up, FamilyAt(z, t));
      cursor := cursor.rbParent;
      z, t := z.up, FamilyAt(z, t);
      root.FieldsAt(z, t);
    }
    PositionIndex(root, z, t);
    if !z.Top? { root.ParentFieldsAt(z, t); }
    n := cursor.rbParent;
  }

  lemma NextStep(o: seq<RbNode>, k: nat)
    requires NoDuplicates(o) && k < |o|
    ensures o[k] in o && NextOf(o, o[k]) == if k + 1 < |o| then o[k + 1] else null
    ensures o[..k] + [o[k]] == o[..k + 1]
  {
    assert IndexOf(o, o[k]) == k;
  }

  /** The loop `for (n = rb_first(root); n; n = rb_next(n))` meets every node once, in order, and ends. */
  method Walk(root: RbRoot) returns (visited: seq<RbNode>)
    requires root.Valid()
    ensures visited == Inorder(root.tree)
  {
    visited := [];
    ghost var o := Inorder(root.tree);
    root.DistinctAt(Top, root.tree);
    InorderDistinct(root.tree);
    InorderMembers(root.tree);
    var n := First(root);
    while n != null
      invariant |visited| <= |o| && visited == o[..|visited|]
      invariant n == if |visited| < |o| then o[|visited|] else null
      decreases |o| - |visited|
    {
      NextStep(o, |visited|);
      visited := visited + [n];
      n := Next(n, root);
    }
  }
}
