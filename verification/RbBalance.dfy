/** What the fix-up steps of insertion and erasure do to balance and order, on trees alone. */
module RbBalance {
  import opened RbTheory

  /** What the rotations under a black uncle on the right leave. */
  lemma InsertRotatedLeft(z: Path, t: Tree, family: Tree, k: int) returns (z': Path, t': Tree, k': int)
    requires IsRed(t) && RB(t, k) && RBPath(z, k) && !z.Top? && z.red && z.up.InLeft?
    requires family == FamilyAt(z, t) && !IsRed(z.up.sibling)
    ensures var turned := if z.InRight? then RotatedLeft(family) else family;
      && z' == InLeft(z.up.up, turned.node, false, Node(turned.right, z.up.node, true, z.up.sibling))
        && t' == turned.left
    ensures IsRed(t') && RB(t', k') && RBPath(z', k')
    ensures Inorder(Plug(z', t')) == Inorder(Plug(z, t)) && Depth(z') < Depth(z)
  {
    assert RBPath(z.up, k);
    var turned, u := if z.InRight? then RotatedLeft(family) else family, z.up.sibling;
    z', t', k' := InLeft(z.up.up, turned.node, false, Node(turned.right, z.up.node, true, u)), turned.left, k;
    if z.InRight? { RotationInorder(z.sibling, z.node, true, t.left, t.node, true, t.right); }
    RotationInorder(turned.left, turned.node, false, turned.right, z.up.node, true, u);
    assert Plug(z, t) == Plug(z.up.up, Node(family, z.up.node, false, u));
    SameInorder(z.up.up, Node(family, z.up.node, false, u), Node(t', z'.node, false, z'.sibling));
  }

  /** What the rotations under a black uncle on the left leave. */
  lemma InsertRotatedRight(z: Path, t: Tree, family: Tree, k: int) returns (z': Path, t': Tree, k': int)
    requires IsRed(t) && RB(t, k) && RBPath(z, k) && !z.Top? && z.red && z.up.InRight?
    requires family == FamilyAt(z, t) && !IsRed(z.up.sibling)
    ensures var turned := if z.InLeft? then RotatedRight(family) else family;
      && z' == InRight(z.up.up, turned.node, false, Node(z.up.sibling, z.up.node, true, turned.left))
        && t' == turned.right
    ensures IsRed(t') && RB(t', k') && RBPath(z', k')
    ensures Inorder(Plug(z', t')) == Inorder(Plug(z, t)) && Depth(z') < Depth(z)
  {
    assert RBPath(z.up, k);
    var turned, u := if z.InLeft? then RotatedRight(family) else family, z.up.sibling;
    z', t', k' := InRight(z.up.up, turned.node, false, Node(u, z.up.node, true, turned.left)), turned.right, k;
    if z.InLeft? { RotationInorder(t.left, t.node, true, t.right, z.node, true, z.sibling); }
    RotationInorder(u, z.up.node, true, turned.left, turned.node, false, turned.right);
    assert Plug(z, t) == Plug(z.up.up, Node(u, z.up.node, false, family));
    SameInorder(z.up.up, Node(u, z.up.node, false, family), Node(z'.sibling, z'.node, false, t'));
  }

  /** What the recolouring under a red uncle leaves: the conflict, if it is still one, two levels up. */
  lemma InsertRecolored(z: Path, t: Tree, family: Tree, t': Tree, k: int)
    requires IsRed(t) && RB(t, k) && RBPath(z, k) && !z.Top? && z.red && family == FamilyAt(z, t) && IsRed(z.up.sibling)
    requires t' == if z.up.InLeft? then Node(Blacken(family), z.up.node, true, Blacken(z.up.sibling))
                   else Node(Blacken(z.up.sibling), z.up.node, true, Blacken(family))
    ensures IsRed(t') && RB(t', k + 1) && RBPath(z.up.up, k + 1)
    ensures Inorder(Plug(z.up.up, t')) == Inorder(Plug(z, t)) && Depth(z.up.up) < Depth(z)
  {
    assert RBPath(z.up, k);
    assert Plug(z, t) == Plug(z.up, family) == Plug(z.up.up, FamilyAt(z.up, family));
    SameInorder(z.up.up, FamilyAt(z.up, family), t');
  }

  // ---------- erasure ----------

  /** When the loop of the erasure fix-up ends on a red node or at the root, blackening restores all balance. */
  lemma EraseExit(z: Path, t: Tree, k: int)
    requires AlmostRB(t, k) && RBPath(z, k + 1) && (z.Top? || IsRed(t))
    ensures Balanced(Plug(z, Blacken(t))) && Inorder(Plug(z, Blacken(t))) == Inorder(Plug(z, t))
  {
    SameInorder(z, t, Blacken(t));
    var j := PlugRB(z, Blacken(t), if IsRed(t) then k + 1 else k);
  }

  /** A red sibling on the right: after its rotation the hole sits deeper, beside a black sibling. */
  lemma RedSiblingLeft(z: Path, t: Tree, k: int) returns (z': Path)
    requires RB(t, k) && RBPath(z, k + 1) && z.InLeft? && IsRed(z.sibling)
    ensures var s := z.sibling;
      z' == InLeft(InLeft(z.up, s.node, false, s.right), z.node, true, s.left)
    ensures RBPath(z', k + 1) && !IsRed(z'.sibling) && z'.sibling.Node?
    ensures Inorder(Plug(z', t)) == Inorder(Plug(z, t))
  {
    var s := z.sibling;
    BlackHeightNat(t, k);
    BlackHeightNat(s.left, k + 1);
    z' := InLeft(InLeft(z.up, s.node, false, s.right), z.node, true, s.left);
    RotationInorder(t, z.node, true, s.left, s.node, false, s.right);
    assert Plug(z', t) == Plug(z.up, Node(Node(t, z.node, true, s.left), s.node, false, s.right));
    SameInorder(z.up, Node(t, z.node, z.red, s), Node(Node(t, z.node, true, s.left), s.node, false, s.right));
  }

  /** A black sibling on the right with black children turns red, and the parent takes the place of the hole. */
  lemma EraseRecoloredLeft(z: Path, t: Tree, k: int) returns (t': Tree, k': int)
    requires RB(t, k) && !IsRed(t) && RBPath(z, k + 1) && z.InLeft?
    requires var s := z.sibling; s.Node? && !s.red && !IsRed(s.left) && !IsRed(s.right)
    ensures t' == Node(t, z.node, z.red, z.sibling.(red := true))
    ensures AlmostRB(t', k') && RBPath(z.up, k' + 1)
    ensures Inorder(Plug(z.up, t')) == Inorder(Plug(z, t))
  {
    t', k' := Node(t, z.node, z.red, z.sibling.(red := true)), if z.red then k else k + 1;
    SameInorder(z.up, Node(t, z.node, z.red, z.sibling), t');
  }

  /** The sibling on the right after its inner rotation, if its outer child is black. */
  ghost function NephewLeft(s: Tree): Tree
    requires s.Node? && (IsRed(s.right) || IsRed(s.left))
  {
    if IsRed(s.right) then s else RotatedRight(Node(Blacken(s.left), s.node, true, s.right))
  }

  /** A black sibling on the right with a red child: one last rotation restores all balance. */
  lemma EraseFinishedLeft(z: Path, t: Tree, k: int) returns (whole: Tree)
    requires RB(t, k) && !IsRed(t) && RBPath(z, k + 1) && z.InLeft?
    requires var s := z.sibling; s.Node? && !s.red && (IsRed(s.left) || IsRed(s.right))
    ensures var s := NephewLeft(z.sibling);
      whole == Plug(z.up, Node(Node(t, z.node, false, s.left), s.node, z.red, Blacken(s.right)))
    ensures Balanced(whole) && Inorder(whole) == Inorder(Plug(z, t))
  {
    var s0 := z.sibling;
    var s := NephewLeft(s0);
    if !IsRed(s0.right) {
      RotationInorder(s0.left.left, s0.left.node, true, s0.left.right, s0.node, true, s0.right);
    }
    RotationInorder(t, z.node, z.red, s.left, s.node, z.red, s.right);
    var u := Node(Node(t, z.node, false, s.left), s.node, z.red, Blacken(s.right));
    assert RB(s0.left, k) && RB(s0.right, k);
    assert RB(s.left, k) && RB(Blacken(s.right), k + 1) && RB(Node(t, z.node, false, s.left), k + 1);
    whole := Plug(z.up, u);
    var j := PlugRB(z.up, u, if z.red then k + 1 else k + 2);
    SameInorder(z.up, Node(t, z.node, z.red, s0), u);
  }

  /** A red sibling on the left: after its rotation the hole sits deeper, beside a black sibling. */
  lemma RedSiblingRight(z: Path, t: Tree, k: int) returns (z': Path)
    requires RB(t, k) && RBPath(z, k + 1) && z.InRight? && IsRed(z.sibling)
    ensures var s := z.sibling;
      z' == InRight(InRight(z.up, s.node, false, s.left), z.node, true, s.right)
    ensures RBPath(z', k + 1) && !IsRed(z'.sibling) && z'.sibling.Node?
    ensures Inorder(Plug(z', t)) == Inorder(Plug(z, t))
  {
    var s := z.sibling;
    BlackHeightNat(t, k);
    BlackHeightNat(s.right, k + 1);
    z' := InRight(InRight(z.up, s.node, false, s.left), z.node, true, s.right);
    RotationInorder(s.left, s.node, false, s.right, z.node, true, t);
    assert Plug(z', t) == Plug(z.up, Node(s.left, s.node, false, Node(s.right, z.node, true, t)));
    SameInorder(z.up, Node(s, z.node, z.red, t), Node(s.left, s.node, false, Node(s.right, z.node, true, t)));
  }

  /** A black sibling on the left with black children turns red, and the parent takes the place of the hole. */
  lemma EraseRecoloredRight(z: Path, t: Tree, k: int) returns (t': Tree, k': int)
    requires RB(t, k) && !IsRed(t) && RBPath(z, k + 1) && z.InRight?
    requires var s := z.sibling; s.Node? && !s.red && !IsRed(s.left) && !IsRed(s.right)
    ensures t' == Node(z.sibling.(red := true), z.node, z.red, t)
    ensures AlmostRB(t', k') && RBPath(z.up, k' + 1)
    ensures Inorder(Plug(z.up, t')) == Inorder(Plug(z, t))
  {
    t', k' := Node(z.sibling.(red := true), z.node, z.red, t), if z.red then k else k + 1;
    SameInorder(z.up, Node(z.sibling, z.node, z.red, t), t');
  }

  /** The sibling on the left after its inner rotation, if its outer child is black. */
  ghost function NephewRight(s: Tree): Tree
    requires s.Node? && (IsRed(s.left) || IsRed(s.right))
  {
    if IsRed(s.left) then s else RotatedLeft(Node(s.left, s.node, true, Blacken(s.right)))
  }

  /** A black sibling on the left with a red child: one last rotation restores all balance. */
  lemma EraseFinishedRight(z: Path, t: Tree, k: int) returns (whole: Tree)
    requires RB(t, k) && !IsRed(t) && RBPath(z, k + 1) && z.InRight?
    requires var s := z.sibling; s.Node? && !s.red && (IsRed(s.left) || IsRed(s.right))
    ensures var s := NephewRight(z.sibling);
      whole == Plug(z.up, Node(Blacken(s.left), s.node, z.red, Node(s.right, z.node, false, t)))
    ensures Balanced(whole) && Inorder(whole) == Inorder(Plug(z, t))
  {
    var s0 := z.sibling;
    var s := NephewRight(s0);
    if !IsRed(s0.left) {
      RotationInorder(s0.left, s0.node, true, s0.right.left, s0.right.node, true, s0.right.right);
    }
    RotationInorder(s.left, s.node, z.red, s.right, z.node, z.red, t);
    var u := Node(Blacken(s.left), s.node, z.red, Node(s.right, z.node, false, t));
    assert RB(s0.left, k) && RB(s0.right, k);
    assert RB(s.right, k) && RB(Blacken(s.left), k + 1) && RB(Node(s.right, z.node, false, t), k + 1);
    whole := Plug(z.up, u);
    var j := PlugRB(z.up, u, if z.red then k + 1 else k + 2);
    SameInorder(z.up, Node(s0, z.node, z.red, t), u);
  }
}
