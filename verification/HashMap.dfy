/** The cache of net_hashmap/net_hashmap_core.c: 1024 buckets, each a red-black tree of names. */
module HashMap {
  import opened Bytes
  import opened Names
  import opened RbTheory
  import opened RbHeap
  import opened RbTree

  /** Greater names stand further left. */
  ghost predicate Descending(s: seq<RbNode>) {
    forall i, j :: 0 <= i < j < |s| ==> Lex(s[i].domain, s[j].domain) > 0
  }

  ghost predicate AllAbove(s: seq<RbNode>, d: Name) {
    forall i :: 0 <= i < |s| ==> Lex(s[i].domain, d) > 0
  }

  ghost predicate AllBelow(s: seq<RbNode>, d: Name) {
    forall i :: 0 <= i < |s| ==> Lex(d, s[i].domain) > 0
  }

  /** A bucket between operations. */
  ghost predicate Bucket(root: RbRoot)
    reads root, root.nodes
  {
    && root.Valid() && Balanced(root.tree) && Descending(Inorder(root.tree))
    && forall n :: n in root.nodes ==> IsName(n.domain)
  }

  ghost predicate Holds(root: RbRoot, d: Name)
    reads root, root.nodes
  {
    exists n :: n in root.nodes && n.domain == d
  }

  // ---------- descent ----------

  /** All nodes before the position are above `d`, all after it below. */
  ghost predicate Bracketed(z: Path, d: Name) {
    AllAbove(Before(z), d) && AllBelow(After(z), d)
  }

  lemma BracketedTop(d: Name)
    ensures Bracketed(Top, d)
  {
  }

  lemma OrderAround(z: Path, t: Tree)
    requires t.Node? && Descending(Inorder(Plug(z, t)))
    ensures AllAbove(Inorder(t.left), t.node.domain) && AllBelow(Inorder(t.right), t.node.domain)
  {
    PlugInorder(z, t);
    PartsOrdered(Before(z), Inorder(t.left), t.node, Inorder(t.right), After(z), Inorder(Plug(z, t)));
  }

  lemma PartsOrdered(b: seq<RbNode>, l: seq<RbNode>, n: RbNode, r: seq<RbNode>, a: seq<RbNode>, o: seq<RbNode>)
    requires o == b + (l + [n] + r) + a && Descending(o)
    ensures AllAbove(l, n.domain) && AllBelow(r, n.domain)
  {
    var m := |b| + |l|;
    assert o[m] == n;
    forall i | 0 <= i < |l| ensures Lex(l[i].domain, n.domain) > 0 {
      assert o[|b| + i] == l[i];
    }
    forall i | 0 <= i < |r| ensures Lex(n.domain, r[i].domain) > 0 {
      assert o[m + 1 + i] == r[i];
    }
  }

  lemma DescendLeft(z: Path, t: Tree, d: Name)
    requires t.Node? && Descending(Inorder(Plug(z, t))) && Bracketed(z, d) && Lex(d, t.node.domain) > 0
    ensures Bracketed(InLeft(z, t.node, t.red, t.right), d)
  {
    OrderAround(z, t);
    var r := Inorder(t.right);
    forall i | 0 <= i < |r| ensures Lex(d, r[i].domain) > 0 {
      LexTransitive(d, t.node.domain, r[i].domain);
    }
  }

  lemma DescendRight(z: Path, t: Tree, d: Name)
    requires t.Node? && Descending(Inorder(Plug(z, t))) && Bracketed(z, d) && Lex(d, t.node.domain) < 0
    ensures Bracketed(InRight(z, t.node, t.red, t.left), d)
  {
    OrderAround(z, t);
    LexReversed(d, t.node.domain);
    var l := Inorder(t.left);
    forall i | 0 <= i < |l| ensures Lex(l[i].domain, d) > 0 {
      LexTransitive(l[i].domain, t.node.domain, d);
    }
  }

  /** At a leaf that brackets `d` the tree has no node of that name. */
  lemma AbsentAt(z: Path, d: Name)
    requires Bracketed(z, d)
    ensures forall n :: n in Nodes(Plug(z, Leaf)) ==> n.domain != d
  {
    var o := Inorder(Plug(z, Leaf));
    PlugInorder(z, Leaf);
    InorderMembers(Plug(z, Leaf));
    LexZero(d, d);
    forall n | n in Nodes(Plug(z, Leaf)) ensures n.domain != d {
      var i :| 0 <= i < |o| && o[i] == n;
      assert o[i] == if i < |Before(z)| then Before(z)[i] else After(z)[i - |Before(z)|];
    }
  }

  lemma InsertionOrdered(b: seq<RbNode>, n: RbNode, a: seq<RbNode>)
    requires Descending(b + a) && AllAbove(b, n.domain) && AllBelow(a, n.domain)
    ensures Descending(b + [n] + a)
  {
    var o, o' := b + a, b + [n] + a;
    forall i, j | 0 <= i < j < |o'| ensures Lex(o'[i].domain, o'[j].domain) > 0 {
      if i == |b| {
        assert o'[j] == a[j - |b| - 1];
      } else if j == |b| {
        assert o'[i] == b[i];
      } else {
        assert o'[i] == o[if i < |b| then i else i - 1] && o'[j] == o[if j < |b| then j else j - 1];
      }
    }
  }

  lemma {:induction false} DepthBound(z: Path, t: Tree)
    ensures Depth(z) + Height(t) <= Height(Plug(z, t))
  {
    if !z.Top? {
      DepthBound(z.up, FamilyAt(z, t));
    }
  }

  /** A descent makes at most 2*log2(n+1) steps among n nodes. */
  lemma DescentBound(z: Path, t: Tree, steps: nat)
    requires Balanced(Plug(z, t)) && steps <= Depth(z) + Height(t)
    ensures Pow2(steps) <= (Size(Plug(z, t)) + 1) * (Size(Plug(z, t)) + 1)
  {
    DepthBound(z, t);
    Pow2Monotone(steps, Height(Plug(z, t)));
    LogarithmicHeight(Plug(z, t));
  }

  /** The loop of `inside_insert`: either a node of that name is met, or the link to fill is found. */
  method FindPlace(root: RbRoot, domain: Name)
    returns (found: bool, parent: RbNode?, left: bool, ghost z: Path, ghost steps: nat)
    requires Bucket(root) && IsName(domain)
    ensures found <==> Holds(root, domain)
    ensures !found ==> root.Located(z, Leaf) && Plug(z, Leaf) == root.tree && Bracketed(z, domain)
    ensures !found ==> parent == ParentOf(z) && (parent != null ==> (left <==> z.InLeft?))
    ensures Pow2(steps) <= (Size(root.tree) + 1) * (Size(root.tree) + 1)
  {
    hide RbHeap.At, RbHeap.View, RbTheory.Inorder, RbTheory.Balanced, RbTheory.Size, Descending, Bracketed;
    var tmp := root.rbNode;
    parent, left, z, steps := null, false, Top, 0;
    ghost var t := root.tree;
    root.NodeAt(z, t);
    BracketedTop(domain);
    while tmp != null
      invariant root.Located(z, t) && tmp == RootOf(t) && Plug(z, t) == root.tree
      invariant parent == ParentOf(z) && (parent != null ==> (left <==> z.InLeft?))
      invariant Bracketed(z, domain) && steps == Depth(z)
      decreases t
    {
      root.FieldsAt(z, t);
      parent := tmp;
      CommonPrefixBound(domain, parent.domain);
      LexZero(domain, parent.domain);
      var order := StrCmp(Text(domain), Text(parent.domain));
      if order > 0 {
        DescendLeft(z, t, domain);
        root.Refocus(z, t, InLeft(z, t.node, t.red, t.right), t.left);
        tmp, left := tmp.rbLeft, true;
        z, t := InLeft(z, t.node, t.red, t.right), t.left;
      } else {
        order := StrCmp(Text(domain), Text(parent.domain));
        if order < 0 {
          DescendRight(z, t, domain);
          root.Refocus(z, t, InRight(z, t.node, t.red, t.left), t.right);
          tmp, left := tmp.rbRight, false;
          z, t := InRight(z, t.node, t.red, t.left), t.right;
        } else {
          DescentBound(z, t, steps);
          found := true;
          return;
        }
      }
      steps := steps + 1;
    }
    root.DistinctAt(z, t);
    AbsentAt(z, domain);
    DescentBound(z, t, steps);
    found := false;
  }

  /** Putting the node in the place found keeps the order. */
  lemma PlaceOrdered(root: RbRoot, node: RbNode, z: Path)
    requires Descending(Inorder(root.tree)) && Plug(z, Leaf) == root.tree && Bracketed(z, node.domain)
    ensures Descending(Before(z) + [node] + After(z))
  {
    PlugInorder(z, Leaf);
    assert Before(z) + [] + After(z) == Before(z) + After(z);
    InsertionOrdered(Before(z), node, After(z));
  }

  /** `inside_insert`: 0 when the node was linked in, -1 when its name was there already. */
  method InsideInsert(root: RbRoot, node: RbNode) returns (ret: int, ghost steps: nat)
    requires Bucket(root) && node !in root.nodes && IsName(node.domain)
    modifies root, root.nodes, node
    ensures Bucket(root)
    ensures if old(Holds(root, node.domain)) then ret == -1 && root.nodes == old(root.nodes)
            else ret == 0 && root.nodes == old(root.nodes) + {node}
    ensures ret == -1 ==> unchanged(root, node) && unchanged(old(root.nodes))
    ensures Pow2(steps) <= old((Size(root.tree) + 1) * (Size(root.tree) + 1))
  {
    hide RbHeap.At, RbHeap.View, RbTheory.Inorder, RbTheory.Balanced, RbTheory.Size, RbTheory.Plug, Holds, IsName,
      Descending;
    hide Bracketed;
    var found, parent, left;
    ghost var z;
    found, parent, left, z, steps := FindPlace(root, node.domain);
    if found {
      return -1, steps;
    }
    PlaceOrdered(root, node, z);
    root.LinkAndColor(node, parent, left, z);
    ret := 0;
  }

  /** `inside_search`: the address stored under the name, else 0. */
  method InsideSearch(root: RbRoot, domain: Name) returns (ipv4: uint32, ghost steps: nat)
    requires Bucket(root) && IsName(domain)
    ensures if Holds(root, domain) then exists n :: n in root.nodes && n.domain == domain && n.ipv4 == ipv4
        else ipv4 == 0
    ensures Pow2(steps) <= (Size(root.tree) + 1) * (Size(root.tree) + 1)
  {
    hide RbHeap.At, RbHeap.View, RbTheory.Inorder, RbTheory.Balanced, RbTheory.Size, Descending, Bracketed;
    var tmp := root.rbNode;
    ghost var z, t := Top, root.tree;
    steps := 0;
    root.NodeAt(z, t);
    BracketedTop(domain);
    while tmp != null
      invariant root.Located(z, t) && tmp == RootOf(t) && Plug(z, t) == root.tree
      invariant Bracketed(z, domain) && steps == Depth(z)
      decreases t
    {
      root.FieldsAt(z, t);
      CommonPrefixBound(domain, tmp.domain);
      LexZero(domain, tmp.domain);
      var order := StrCmp(Text(domain), Text(tmp.domain));
      if order > 0 {
        DescendLeft(z, t, domain);
        root.Refocus(z, t, InLeft(z, t.node, t.red, t.right), t.left);
        tmp := tmp.rbLeft;
        z, t := InLeft(z, t.node, t.red, t.right), t.left;
      } else {
        order := StrCmp(Text(domain), Text(tmp.domain));
        if order < 0 {
          DescendRight(z, t, domain);
          root.Refocus(z, t, InRight(z, t.node, t.red, t.left), t.right);
          tmp := tmp.rbRight;
          z, t := InRight(z, t.node, t.red, t.left), t.right;
        } else {
          DescentBound(z, t, steps);
          return tmp.ipv4, steps;
        }
      }
      steps := steps + 1;
    }
    root.DistinctAt(z, t);
    AbsentAt(z, domain);
    DescentBound(z, t, steps);
    ipv4 := 0;
  }
}
