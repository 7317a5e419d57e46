/** Walking the library's red-black tree in order (src/lib/libkc++.cpp, lines 246-317).
    The header stands for the position after the last node. */
module RbWalk {
  import opened RbShapes
  import opened RbTrees
  import opened RbErase

  /** The positions of a walk: the nodes in order, then the header. */
  ghost function Positions(tree: Tree, header: Node): seq<Node> {
    InOrder(tree) + [header]
  }

  /** `y` is the position right after `x`. */
  ghost predicate Follows(tree: Tree, header: Node, x: Node, y: Node) {
    exists k | 0 <= k < |InOrder(tree)| :: Positions(tree, header)[k] == x && Positions(tree, header)[k + 1] == y
  }

  lemma FollowsAt(tree: Tree, header: Node, k: nat)
    requires k < |InOrder(tree)|
    ensures Follows(tree, header, Positions(tree, header)[k], Positions(tree, header)[k + 1])
  {
  }

  /** Each position has at most one position before it and one after it. */
  lemma FollowsUnique(tree: Tree, header: Node, x: Node, y: Node, z: Node)
    requires Distinct(tree) && header !in Nodes(tree)
    ensures Follows(tree, header, x, y) && Follows(tree, header, x, z) ==> y == z
    ensures Follows(tree, header, x, z) && Follows(tree, header, y, z) ==> x == y
  {
    var p := Positions(tree, header);
    InOrderNoRepeats(tree);
    InOrderElements(tree);
    assert NoRepeats(p) by {
      forall i, j | 0 <= i < j < |p| ensures p[i] != p[j] {
        assert p[i] in Elements(InOrder(tree));
      }
    }
    if Follows(tree, header, x, y) && Follows(tree, header, x, z) {
      var i :| 0 <= i < |InOrder(tree)| && p[i] == x && p[i + 1] == y;
      var j :| 0 <= j < |InOrder(tree)| && p[j] == x && p[j + 1] == z;
      assert i == j;
    }
    if Follows(tree, header, x, z) && Follows(tree, header, y, z) {
      var i :| 0 <= i < |InOrder(tree)| && p[i] == x && p[i + 1] == z;
      var j :| 0 <= j < |InOrder(tree)| && p[j] == y && p[j + 1] == z;
      assert i == j;
    }
  }

  /** A place whose subtree ends with `x0`: the next position is the node above once it is a left child. */
  lemma FollowsAbove(tree: Tree, path: Path, t: Tree, x0: Node, header: Node)
    requires Plug(path, t) == tree && t.Branch? && Last(InOrder(t), header) == x0
    requires path == [] || path[0].isLeft
    ensures Follows(tree, header, x0, Above(path, header))
  {
    InOrderPlug(path, t);
    var k := |Before(path)| + |InOrder(t)| - 1;
    assert InOrder(t) != [];
    assert InOrder(tree)[k] == x0;
    assert path != [] ==> After(path)[0] == path[0].node && InOrder(tree)[k + 1] == path[0].node;
    FollowsAt(tree, header, k);
  }

  lemma FollowsMinimum(tree: Tree, path: Path, t: Tree, spine: Path, s: Tree, header: Node)
    requires Plug(path, t) == tree && t.Branch? && t.right.Branch? && Outermost(t.right, spine, s, true)
    ensures Follows(tree, header, t.node, s.node)
  {
    InOrderPlug(path, t);
    OutermostEnds(t.right, spine, s, true);
    var k := |Before(path)| + |InOrder(t.left)|;
    assert InOrder(t)[|InOrder(t.left)|] == t.node && InOrder(t)[|InOrder(t.left)| + 1] == s.node;
    assert InOrder(tree)[k] == t.node && InOrder(tree)[k + 1] == s.node;
    FollowsAt(tree, header, k);
  }

  method Increment(x0: Node, ghost header: Node, ghost tree: Tree) returns (x: Node)
    requires RbTree(tree, header) && x0 in Nodes(tree)
    ensures Follows(tree, header, x0, x)
  {
    ghost var nodes := TreeNodes(tree, header);
    ghost var place := PathTo([], tree, x0);
    ghost var path, t := place.0, place.1;
    LaidAtPlug(Snapshot(nodes), path, t, header);
    NodePointers(Snapshot(nodes), path, t, header);
    x := x0;
    if x.right != null {
      ghost var f := Frame(false, t.node, t.red, t.left);
      LaidAtChild(Snapshot(nodes), f, path, t.right, header);
      ghost var spine, s;
      x, spine, s := Minimum(x.right, header, nodes, [f] + path, t.right);
      FollowsMinimum(tree, path, t, spine, s, header);
    } else {
      x := Ascend(x0, header, tree, path, t);
    }
  }

  /** Up to the first node of which the place is in the left subtree, or to the header (lines 257-264). */
  method Ascend(x0: Node, ghost header: Node, ghost tree: Tree, ghost path0: Path, ghost t0: Tree) returns (x: Node)
    requires RbTree(tree, header) && Plug(path0, t0) == tree && t0.Branch? && t0.node == x0 && t0.right == Leaf
    requires LaidAt(Snapshot(TreeNodes(tree, header)), path0, t0, header)
    ensures Follows(tree, header, x0, x)
  {
    ghost var mem := Snapshot(TreeNodes(tree, header));
    ghost var path, t := path0, t0;
    ghost var over := false;
    x := x0;
    assert InOrder(t0) == InOrder(t0.left) + [x0];
    NodePointers(mem, path, t, header);
    var y := x.parent;
    while x == y.right
      invariant !over ==> t.Branch? && Plug(path, t) == tree && LaidAt(mem, path, t, header)
      invariant !over ==> Last(InOrder(t), header) == x0
      invariant !over ==> x == t.node && y == Above(path, header) && y in TreeNodes(tree, header)
      invariant !over ==> (path == [] || (y.right == x <==> !path[0].isLeft)) && x.right != y
      invariant over ==> x == header && y in Nodes(tree) && y.right != header && header.right == y
      invariant over ==> Follows(tree, header, x0, header)
      decreases if over then 0 else |path| + 1
    {
      if !over {
        if path == [] {
          FollowsAbove(tree, path, t, x0, header);
          over := true;
        } else {
          LaidAtUp(mem, path, t, header);
          path, t := path[1..], Fill(path[0], t);
        }
      }
      x := y;
      y := y.parent;
      if !over {
        NodePointers(mem, path, t, header);
      }
    }
    if !over {
      FollowsAbove(tree, path, t, x0, header);
    }
    if x.right != y {
      x := y;
    }
  }

  lemma FollowsMaximum(tree: Tree, path: Path, t: Tree, spine: Path, s: Tree, header: Node)
    requires Plug(path, t) == tree && t.Branch? && t.left.Branch? && Outermost(t.left, spine, s, false)
    ensures Follows(tree, header, s.node, t.node)
  {
    InOrderPlug(path, t);
    OutermostEnds(t.left, spine, s, false);
    var k := |Before(path)| + |InOrder(t.left)|;
    assert InOrder(t)[|InOrder(t.left)| - 1] == s.node && InOrder(t)[|InOrder(t.left)|] == t.node;
    assert InOrder(tree)[k - 1] == s.node && InOrder(tree)[k] == t.node;
    FollowsAt(tree, header, k - 1);
  }

  lemma PrecedesAbove(tree: Tree, path: Path, t: Tree, x0: Node, header: Node)
    requires Plug(path, t) == tree && t.Branch? && First(InOrder(t), header) == x0
    requires path == [] || !path[0].isLeft
    ensures if path == [] then First(InOrder(tree), header) == x0 else Follows(tree, header, path[0].node, x0)
  {
    InOrderPlug(path, t);
    assert InOrder(t) != [];
    if path != [] {
      var k := |Before(path)| - 1;
      assert InOrder(tree)[k] == path[0].node && InOrder(tree)[k + 1] == x0;
      FollowsAt(tree, header, k);
    }
  }

  /** The red header is told from a red node by its parent's parent being itself. */
  method Decrement(x0: Node, ghost header: Node, ghost tree: Tree) returns (x: Node)
    requires RbTree(tree, header) && tree != Leaf
    requires x0 == header || (x0 in Nodes(tree) && x0 != First(InOrder(tree), header))
    ensures Follows(tree, header, x, x0)
  {
    ghost var mem := Snapshot(TreeNodes(tree, header));
    ghost var place := if x0 == header then ([], tree) else PathTo([], tree, x0);
    ghost var path, t := place.0, place.1;
    LaidAtPlug(mem, path, t, header);
    NodePointers(mem, path, t, header);
    NodePointers(mem, [], tree, header);
    GrandparentDiffers(mem, path, t, header);
    x := x0;
    if x.red && x.parent.parent == x {
      x := x.right;
      assert x == InOrder(tree)[|InOrder(tree)| - 1];
      FollowsAt(tree, header, |InOrder(tree)| - 1);
    } else if x.left != null {
      ghost var f := Frame(true, t.node, t.red, t.right);
      LaidAtChild(mem, f, path, t.left, header);
      var y := x.left;
      ghost var spine, s;
      x, spine, s := Maximum(y, header, TreeNodes(tree, header), [f] + path, t.left);
      FollowsMaximum(tree, path, t, spine, s, header);
    } else {
      x := AscendBack(x0, header, tree, path, t);
    }
  }

  /** Above a red node there is another node, not the header, and no two nodes are each other's parents. */
  lemma GrandparentDiffers(mem: Memory, path: Path, t: Tree, header: Node)
    requires LaidAt(mem, path, t, header) && t.Branch?
    ensures path != [] ==> path[0].node in mem && mem[path[0].node].parent != t.node
  {
    LaidInMemory(mem, path, t, header);
    if path != [] {
      assert path[0].node in PathNodes(path);
      assert |path| > 1 ==> path[1..][0].node in PathNodes(path[1..]);
    }
  }

  /** A left subtree begins with the same node as the tree. */
  lemma FirstOfFilled(f: Frame, t: Tree, header: Node)
    requires f.isLeft && t.Branch?
    ensures First(InOrder(Fill(f, t)), header) == First(InOrder(t), header)
  {
    var s := InOrder(t);
    assert InOrder(Fill(f, t)) == s + ([f.node] + InOrder(f.sibling));
  }

  /** Up to the first node of which the place is in the right subtree (lines 296-302). */
  method AscendBack(x0: Node, ghost header: Node, ghost tree: Tree, ghost path0: Path, ghost t0: Tree) returns (x: Node)
    requires RbTree(tree, header) && Plug(path0, t0) == tree && t0.Branch? && t0.node == x0 && t0.left == Leaf
    requires LaidAt(Snapshot(TreeNodes(tree, header)), path0, t0, header)
    requires x0 != First(InOrder(tree), header)
    ensures Follows(tree, header, x, x0)
  {
    ghost var mem := Snapshot(TreeNodes(tree, header));
    ghost var path, t := path0, t0;
    x := x0;
    assert InOrder(t0) == [x0] + InOrder(t0.right);
    NodePointers(mem, path, t, header);
    var y := x.parent;
    if path == [] {
      PrecedesAbove(tree, path, t, x0, header);
    }
    while x == y.left
      invariant t.Branch? && Plug(path, t) == tree && LaidAt(mem, path, t, header) && path != []
      invariant First(InOrder(t), header) == x0 && x == t.node && y == path[0].node && y in TreeNodes(tree, header)
      invariant y.left == x <==> path[0].isLeft
      decreases |path|
    {
      LaidAtUp(mem, path, t, header);
      FirstOfFilled(path[0], t, header);
      path, t := path[1..], Fill(path[0], t);
      NodePointers(mem, path, t, header);
      if path == [] {
        PrecedesAbove(tree, path, t, x0, header);
      }
      x := y;
      y := y.parent;
    }
    PrecedesAbove(tree, path, t, x0, header);
    x := y;
  }

  /** Stepping forward and then back, or back and then forward, returns to the same position. */
  method ThereAndBack(x0: Node, ghost header: Node, ghost tree: Tree) returns (x: Node)
    requires RbTree(tree, header) && x0 in Nodes(tree)
    ensures x == x0
  {
    ghost var mem := Snapshot(TreeNodes(tree, header));
    var y := Increment(x0, header, tree);
    assert Snapshot(TreeNodes(tree, header)) == mem;
    InOrderElements(tree);
    FollowerIsNotFirst(tree, header, x0, y);
    x := Decrement(y, header, tree);
    FollowsUnique(tree, header, x, x0, y);
  }

  lemma FollowerIsNotFirst(tree: Tree, header: Node, x: Node, y: Node)
    requires Follows(tree, header, x, y) && Distinct(tree) && header !in Nodes(tree)
    ensures tree != Leaf && (y == header || (y in Nodes(tree) && y != First(InOrder(tree), header)))
  {
    var k :| 0 <= k < |InOrder(tree)| && Positions(tree, header)[k] == x && Positions(tree, header)[k + 1] == y;
    InOrderNoRepeats(tree);
    InOrderElements(tree);
    if k + 1 < |InOrder(tree)| {
      assert InOrder(tree)[k + 1] == y && y in Elements(InOrder(tree));
      assert InOrder(tree)[0] != InOrder(tree)[k + 1];
    }
  }

  method BackAndThere(x0: Node, ghost header: Node, ghost tree: Tree) returns (x: Node)
    requires RbTree(tree, header) && tree != Leaf
    requires x0 == header || (x0 in Nodes(tree) && x0 != First(InOrder(tree), header))
    ensures x == x0
  {
    ghost var mem := Snapshot(TreeNodes(tree, header));
    var y := Decrement(x0, header, tree);
    assert Snapshot(TreeNodes(tree, header)) == mem;
    assert y in Nodes(tree) by {
      var k :| 0 <= k < |InOrder(tree)| && Positions(tree, header)[k] == y && Positions(tree, header)[k + 1] == x0;
      InOrderElements(tree);
      assert InOrder(tree)[k] == y && y in Elements(InOrder(tree));
    }
    x := Increment(y, header, tree);
    FollowsUnique(tree, header, y, x, x0);
  }
}
