/**
 The nodes of the red-black tree and the mathematics of its balance: coloured trees, paths (one-hole contexts
 from a position up to the root), black height and in-order sequence.  No pointer is followed here: a tree is a
 value, and plugging one into a path gives the whole tree of which it is a part.
 */
module RbTheory {
  import opened Bytes

  /** `struct rb_node` together with the `struct net_hashmap_node` around it. */
  class RbNode {
    var rbLeft: RbNode?
    var rbRight: RbNode?
    var rbParent: RbNode?
    var red: bool
    const domain: seq<byte>
    const ipv4: uint32

    constructor (domain: seq<byte>, ipv4: uint32)
      ensures this.domain == domain && this.ipv4 == ipv4
    {
      this.domain := domain;
      this.ipv4 := ipv4;
      rbLeft, rbRight, rbParent, red := null, null, null, true;
    }
  }

  datatype Tree = Leaf | Node(left: Tree, node: RbNode, red: bool, right: Tree)

  /** The way from a hole up to the root: `InLeft` says the hole is the left child of `node`. */
  datatype Path =
    | Top
    | InLeft(up: Path, node: RbNode, red: bool, sibling: Tree)
    | InRight(up: Path, node: RbNode, red: bool, sibling: Tree)

  ghost function RootOf(t: Tree): RbNode? {
    if t.Leaf? then null else t.node
  }

  ghost function ParentOf(z: Path): RbNode? {
    if z.Top? then null else z.node
  }

  ghost function Nodes(t: Tree): set<RbNode> {
    match t
    case Leaf => {}
    case Node(l, n, _, r) => Nodes(l) + {n} + Nodes(r)
  }

  ghost function PathNodes(z: Path): set<RbNode> {
    match z
    case Top => {}
    case InLeft(up, n, _, s) => PathNodes(up) + {n} + Nodes(s)
    case InRight(up, n, _, s) => PathNodes(up) + {n} + Nodes(s)
  }

  ghost predicate Distinct(t: Tree) {
    match t
    case Leaf => true
    case Node(l, n, _, r) =>
      Distinct(l) && Distinct(r) && n !in Nodes(l) && n !in Nodes(r) && Nodes(l) !! Nodes(r)
  }

  ghost predicate DistinctPath(z: Path) {
    match z
    case Top => true
    case InLeft(up, n, _, s) =>
      DistinctPath(up) && Distinct(s) && n !in PathNodes(up) && n !in Nodes(s) && PathNodes(up) !! Nodes(s)
    case InRight(up, n, _, s) =>
      DistinctPath(up) && Distinct(s) && n !in PathNodes(up) && n !in Nodes(s) && PathNodes(up) !! Nodes(s)
  }

  ghost function Plug(z: Path, t: Tree): Tree {
    match z
    case Top => t
    case InLeft(up, n, c, s) => Plug(up, Node(t, n, c, s))
    case InRight(up, n, c, s) => Plug(up, Node(s, n, c, t))
  }

  ghost function Depth(z: Path): nat {
    if z.Top? then 0 else 1 + Depth(z.up)
  }

  /** The tree one step up from the position. */
  ghost function FamilyAt(z: Path, t: Tree): Tree
    requires !z.Top?
  {
    if z.InLeft? then Node(t, z.node, z.red, z.sibling) else Node(z.sibling, z.node, z.red, t)
  }

  ghost function RotatedLeft(t: Tree): Tree
    requires t.Node? && t.right.Node?
  {
    Node(Node(t.left, t.node, t.red, t.right.left), t.right.node, t.right.red, t.right.right)
  }

  ghost function RotatedRight(t: Tree): Tree
    requires t.Node? && t.left.Node?
  {
    Node(t.left.left, t.left.node, t.left.red, Node(t.left.right, t.node, t.red, t.right))
  }

  lemma {:induction false} PlugNode(z: Path, t: Tree)
    requires t.Node?
    ensures Plug(z, t).Node?
  {
    if !z.Top? {
      PlugNode(z.up, FamilyAt(z, t));
    }
  }

  // ---------- in-order sequence ----------

  ghost function Inorder(t: Tree): seq<RbNode> {
    match t
    case Leaf => []
    case Node(l, n, _, r) => Inorder(l) + [n] + Inorder(r)
  }

  /** The in-order sequence left of the hole. */
  ghost function Before(z: Path): seq<RbNode> {
    match z
    case Top => []
    case InLeft(up, _, _, _) => Before(up)
    case InRight(up, n, _, s) => Before(up) + Inorder(s) + [n]
  }

  /** The in-order sequence right of the hole. */
  ghost function After(z: Path): seq<RbNode> {
    match z
    case Top => []
    case InLeft(up, n, _, s) => [n] + Inorder(s) + After(up)
    case InRight(up, _, _, _) => After(up)
  }

  lemma Regroup(a: seq<RbNode>, b: seq<RbNode>, n: RbNode, c: seq<RbNode>, d: seq<RbNode>)
    ensures a + (b + [n] + c) + d == a + b + ([n] + c + d)
    ensures a + (b + [n] + c) + d == (a + b + [n]) + c + d
  {
  }

  lemma {:induction false} PlugInorder(z: Path, t: Tree)
    ensures Inorder(Plug(z, t)) == Before(z) + Inorder(t) + After(z)
  {
    match z
    case Top =>
    case InLeft(up, n, c, s) =>
      PlugInorder(up, Node(t, n, c, s));
      Regroup(Before(up), Inorder(t), n, Inorder(s), After(up));
    case InRight(up, n, c, s) =>
      PlugInorder(up, Node(s, n, c, t));
      Regroup(Before(up), Inorder(s), n, Inorder(t), After(up));
  }

  lemma SameInorder(z: Path, t: Tree, t': Tree)
    requires Inorder(t) == Inorder(t')
    ensures Inorder(Plug(z, t)) == Inorder(Plug(z, t'))
  {
    PlugInorder(z, t);
    PlugInorder(z, t');
  }

  lemma RotationInorder(a: Tree, x: RbNode, c: bool, b: Tree, y: RbNode, d: bool, e: Tree)
    ensures Inorder(Node(a, x, c, Node(b, y, d, e))) == Inorder(Node(Node(a, x, c, b), y, d, e))
  {
    assert Inorder(a) + [x] + (Inorder(b) + [y] + Inorder(e)) == (Inorder(a) + [x] + Inorder(b)) + [y] + Inorder(e);
  }

  lemma {:induction false} InorderMembers(t: Tree)
    ensures forall n :: n in Nodes(t) ==> n in Inorder(t)
    ensures forall i :: 0 <= i < |Inorder(t)| ==> Inorder(t)[i] in Nodes(t)
  {
    if t.Node? {
      InorderMembers(t.left);
      InorderMembers(t.right);
    }
  }

  // ---------- balance ----------

  ghost predicate IsRed(t: Tree) {
    t.Node? && t.red
  }

  /** No red node has a red child, and every way down meets exactly `k` black nodes. */
  ghost predicate RB(t: Tree, k: int) {
    match t
    case Leaf => k == 0
    case Node(l, _, red, r) =>
      if red then !IsRed(l) && !IsRed(r) && RB(l, k) && RB(r, k)
      else RB(l, k - 1) && RB(r, k - 1)
  }

  /** The red-black conditions: a black root besides those of `RB`. */
  ghost predicate Balanced(t: Tree) {
    !IsRed(t) && exists k :: RB(t, k)
  }

  /** `z` is the surrounding of a hole of black height `k` in a balanced tree. */
  ghost predicate RBPath(z: Path, k: int) {
    z.Top? ||
    (RB(z.sibling, k) &&
     (if z.red then !IsRed(z.sibling) && !z.up.Top? && !z.up.red && RBPath(z.up, k)
      else RBPath(z.up, k + 1)))
  }

  /** The root may be red above red children; all else is as in `RB`. */
  ghost predicate AlmostRB(t: Tree, k: int) {
    if IsRed(t) then RB(t.left, k) && RB(t.right, k) else RB(t, k)
  }

  ghost function Blacken(t: Tree): Tree {
    if t.Leaf? then Leaf else t.(red := false)
  }

  lemma {:induction false} BlackHeightNat(t: Tree, k: int)
    requires RB(t, k)
    ensures k >= 0
    ensures k > 0 && !IsRed(t) ==> t.Node?
  {
    if t.Node? {
      BlackHeightNat(t.left, if t.red then k else k - 1);
    }
  }

  /** Filling a hole with a tree of its height, red only below black, gives a tree balanced but for a red root. */
  lemma {:induction false} PlugRB(z: Path, t: Tree, k: int) returns (k': int)
    requires RB(t, k) && RBPath(z, k)
    requires IsRed(t) ==> z.Top? || !z.red
    ensures RB(Plug(z, t), k')
    ensures IsRed(Plug(z, t)) <==> z.Top? && IsRed(t)
  {
    match z
    case Top => k' := k;
    case InLeft(up, n, c, s) => k' := PlugRB(up, Node(t, n, c, s), if c then k else k + 1);
    case InRight(up, n, c, s) => k' := PlugRB(up, Node(s, n, c, t), if c then k else k + 1);
  }

  /** Conversely every hole of a balanced tree has such a surrounding. */
  lemma {:induction false} SplitRB(z: Path, t: Tree, k: int) returns (k': int)
    requires RB(Plug(z, t), k) && !IsRed(Plug(z, t))
    ensures RB(t, k') && RBPath(z, k')
    ensures IsRed(t) ==> !z.Top? && !z.red
  {
    match z
    case Top => k' := k;
    case InLeft(up, n, c, s) =>
      var j := SplitRB(up, Node(t, n, c, s), k);
      k' := if c then j else j - 1;
    case InRight(up, n, c, s) =>
      var j := SplitRB(up, Node(s, n, c, t), k);
      k' := if c then j else j - 1;
  }

  lemma {:induction false} Locate(t: Tree, n: RbNode, z0: Path) returns (z: Path, s: Tree)
    requires n in Nodes(t)
    ensures s.Node? && s.node == n && Plug(z, s) == Plug(z0, t)
  {
    if t.node == n {
      z, s := z0, t;
    } else if n in Nodes(t.left) {
      z, s := Locate(t.left, n, InLeft(z0, t.node, t.red, t.right));
    } else {
      z, s := Locate(t.right, n, InRight(z0, t.node, t.red, t.left));
    }
  }

  // ---------- height ----------

  ghost function Size(t: Tree): nat {
    if t.Leaf? then 0 else Size(t.left) + 1 + Size(t.right)
  }

  ghost function Height(t: Tree): nat {
    if t.Leaf? then 0
    else 1 + (if Height(t.left) >= Height(t.right) then Height(t.left) else Height(t.right))
  }

  lemma {:induction false} BlackHeightBounds(t: Tree, k: nat)
    requires RB(t, k)
    ensures Pow2(k) <= Size(t) + 1
    ensures Height(t) <= 2 * k + if IsRed(t) then 1 else 0
  {
    if t.Node? {
      var j := if t.red then k else k - 1;
      BlackHeightNat(t.left, j);
      BlackHeightBounds(t.left, j);
      BlackHeightBounds(t.right, j);
    }
  }

  /** A balanced tree of n nodes has height at most 2*log2(n+1): 2^height <= (n+1)^2. */
  lemma LogarithmicHeight(t: Tree)
    requires Balanced(t)
    ensures Pow2(Height(t)) <= (Size(t) + 1) * (Size(t) + 1)
  {
    var k :| RB(t, k);
    BlackHeightNat(t, k);
    BlackHeightBounds(t, k);
    Pow2Monotone(Height(t), 2 * k);
    Pow2Add(k, k);
    assert k + k == 2 * k;
    Square(Pow2(k), Size(t) + 1);
  }

  lemma Square(a: nat, b: nat)
    requires a <= b
    ensures a * a <= b * b
  {
  }
}
