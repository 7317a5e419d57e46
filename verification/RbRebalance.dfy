module RbRebalance {
  import opened RbShapes
  import opened RbBalance

  /** `x` has a parent that points back at it by exactly one pointer: the header by its parent
      field, any other node by one of its child fields. */
  ghost predicate Hangs(x: Node, header: Node)
    reads x, header, x.parent
  {
    && x.parent != null && x.parent != x && x != header
    && (header.parent == x <==> x.parent == header)
    && (x.parent != header ==> (x.parent.left == x <==> x.parent.right != x))
  }

  method RotateLeft(x: Node, header: Node)
    requires Hangs(x, header)
    requires x.right != null && x.right !in {x, header, x.parent}
    requires x.right.left !in {x, header, x.parent, x.right}
    modifies x, header, x.right, x.right.left, x.parent
    ensures CellOf(x) == old(CellOf(x)).(parent := old(x.right), right := old(x.right.left))
    ensures CellOf(old(x.right)) == old(CellOf(x.right)).(parent := old(x.parent), left := x)
    ensures old(x.right.left) != null ==> CellOf(old(x.right.left)) == old(CellOf(x.right.left)).(parent := x)
    ensures CellOf(old(x.parent)) ==
            if old(x.parent) == header then old(CellOf(x.parent)).(parent := old(x.right))
            else if old(x.parent.left) == x then old(CellOf(x.parent)).(left := old(x.right))
            else old(CellOf(x.parent)).(right := old(x.right))
    ensures old(x.parent) != header ==> CellOf(header) == old(CellOf(header))
  {
    var y := x.right;
    x.right := y.left;
    if y.left != null {
      y.left.parent := x;
    }
    y.parent := x.parent;
    if x == header.parent {
      header.parent := y;
    } else if x == x.parent.left {
      x.parent.left := y;
    } else {
      x.parent.right := y;
    }
    y.left := x;
    x.parent := y;
  }

  method RotateRight(x: Node, header: Node)
    requires Hangs(x, header)
    requires x.left != null && x.left !in {x, header, x.parent}
    requires x.left.right !in {x, header, x.parent, x.left}
    modifies x, header, x.left, x.left.right, x.parent
    ensures CellOf(x) == old(CellOf(x)).(parent := old(x.left), left := old(x.left.right))
    ensures CellOf(old(x.left)) == old(CellOf(x.left)).(parent := old(x.parent), right := x)
    ensures old(x.left.right) != null ==> CellOf(old(x.left.right)) == old(CellOf(x.left.right)).(parent := x)
    ensures CellOf(old(x.parent)) ==
            if old(x.parent) == header then old(CellOf(x.parent)).(parent := old(x.left))
            else if old(x.parent.left) == x then old(CellOf(x.parent)).(left := old(x.left))
            else old(CellOf(x.parent)).(right := old(x.left))
    ensures old(x.parent) != header ==> CellOf(header) == old(CellOf(header))
  {
    var y := x.left;
    x.left := y.right;
    if y.right != null {
      y.right.parent := x;
    }
    y.parent := x.parent;
    if x == header.parent {
      header.parent := y;
    } else if x == x.parent.right {
      x.parent.right := y;
    } else {
      x.parent.left := y;
    }
    y.right := x;
    x.parent := y;
  }

  method RotateLeftAt(x: Node, header: Node, ghost nodes: set<Node>, ghost path: Path, ghost t: Tree)
    requires t.Branch? && t.node == x && t.right.Branch?
    requires LaidAt(Snapshot(nodes), path, t, header)
    modifies nodes
    ensures LaidAt(Snapshot(nodes), path, RotatedLeft(t), header)
    ensures header.left == old(header.left) && header.right == old(header.right) && header.red == old(header.red)
  {
    ghost var mem := Snapshot(nodes);
    LeftRotationPointers(mem, path, t, header);
    RotateLeft(x, header);
    LaidAtRotatedLeft(mem, Snapshot(nodes), path, t, header);
  }

  method RotateRightAt(x: Node, header: Node, ghost nodes: set<Node>, ghost path: Path, ghost t: Tree)
    requires t.Branch? && t.node == x && t.left.Branch?
    requires LaidAt(Snapshot(nodes), path, t, header)
    modifies nodes
    ensures LaidAt(Snapshot(nodes), path, RotatedRight(t), header)
    ensures header.left == old(header.left) && header.right == old(header.right) && header.red == old(header.red)
  {
    ghost var mem := Snapshot(nodes);
    RightRotationPointers(mem, path, t, header);
    RotateRight(x, header);
    LaidAtRotatedRight(mem, Snapshot(nodes), path, t, header);
  }

  /** The pointers around a place at least two levels deep. */
  lemma PlacePointers(mem: Memory, path: Path, t: Tree, header: Node)
    requires LaidAt(mem, path, t, header) && t.Branch? && |path| >= 2
    ensures var x, p, g := t.node, path[0].node, path[1].node;
      && {x, p, g, header} <= mem.Keys
      && mem[x].parent == p && mem[x].red == t.red
      && mem[p].parent == g && mem[p].red == path[0].red
      && (mem[p].left == x <==> path[0].isLeft) && (mem[p].right == x <==> !path[0].isLeft)
      && (mem[g].left == p <==> path[1].isLeft) && (mem[g].right == p <==> !path[1].isLeft)
      && Root(path[1].sibling) == (if path[1].isLeft then mem[g].right else mem[g].left)
      && (path[1].sibling.Branch? ==>
          path[1].sibling.node in mem && mem[path[1].sibling.node].red == path[1].sibling.red)
      && header !in {x, p, g} && p != g && Root(path[1].sibling) !in {p, g, header}
  {
    LaidInMemory(mem, path, t, header);
    assert path[1] == path[1..][0] && path[1].node in PathNodes(path[1..]);
    assert path[0].sibling.Branch? ==> path[0].sibling.node in PathNodes(path);
    assert path[1].sibling.Branch? ==> path[1].sibling.node in PathNodes(path[1..]);
    assert LaidAround(mem, path[1..], path[0].node, header);
    assert DistinctPath(path[1..]);
  }

  /** Parent and uncle black, grandparent red: the recolouring of an insertion step. */
  function RecolouredIn(mem: Memory, path: Path): Memory
    requires |path| >= 2 && path[1].sibling.Branch?
    requires {path[0].node, path[1].node, path[1].sibling.node} <= mem.Keys
  {
    PaintedIn(PaintedIn(PaintedIn(mem, path[0].node, false), path[1].sibling.node, false), path[1].node, true)
  }

  lemma LaidAtRecoloured(mem: Memory, path: Path, t: Tree, header: Node)
    requires |path| >= 2 && t.Branch? && !BlackRoot(path[1].sibling)
    requires LaidAt(mem, path, t, header)
    ensures {path[0].node, path[1].node, path[1].sibling.node} <= mem.Keys
    ensures LaidAt(RecolouredIn(mem, path), InsertStep(path, t).0, InsertStep(path, t).1, header)
  {
    var p', g, up := path[0].(red := false), path[1], path[2..];
    ParentPainted(mem, path, t, false, header);
    var m1, path1 := PaintedIn(mem, path[0].node, false), [p'] + path[1..];
    assert path1[1..] == path[1..];
    LaidAtUp(m1, path1, t, header);
    SiblingPainted(m1, path[1..], Fill(p', t), false, header);
    var m2 := PaintedIn(m1, g.sibling.node, false);
    var g' := g.(sibling := Painted(g.sibling, false));
    var path2 := [g'] + path[1..][1..];
    assert path2[1..] == up;
    LaidAtUp(m2, path2, Fill(p', t), header);
    LaidAtPainted(m2, up, Fill(g', Fill(p', t)), true, header);
  }

  method Paint(n: Node, red: bool, ghost nodes: set<Node>)
    requires n in nodes
    modifies n
    ensures Snapshot(nodes) == PaintedIn(old(Snapshot(nodes)), n, red)
  {
    n.red := red;
  }

  method Recolour(x: Node, y: Node, xpp: Node, header: Node, ghost nodes: set<Node>, ghost path: Path, ghost t: Tree)
    requires |path| >= 2 && t.Branch? && t.node == x
    requires LaidAt(Snapshot(nodes), path, t, header)
    requires Root(path[1].sibling) == y && path[1].sibling.red && path[1].node == xpp
    modifies nodes
    ensures LaidAt(Snapshot(nodes), InsertStep(path, t).0, InsertStep(path, t).1, header)
    ensures header.left == old(header.left) && header.right == old(header.right) && header.red == old(header.red)
  {
    PlacePointers(Snapshot(nodes), path, t, header);
    LaidAtRecoloured(Snapshot(nodes), path, t, header);
    Paint(x.parent, false, nodes);
    Paint(y, false, nodes);
    Paint(xpp, true, nodes);
  }

  lemma LaidAtBeforeTurn(mem: Memory, path: Path, t: Tree, header: Node)
    requires |path| >= 2
    requires LaidAt(mem, path, t, header)
    ensures {path[0].node, path[1].node} <= mem.Keys
    ensures LaidAt(PaintedIn(PaintedIn(mem, path[0].node, false), path[1].node, true), path[2..],
                   Fill(path[1].(red := true), Fill(path[0].(red := false), t)), header)
  {
    var p', g', up := path[0].(red := false), path[1].(red := true), path[2..];
    ParentPainted(mem, path, t, false, header);
    var m1, path1 := PaintedIn(mem, path[0].node, false), [p'] + path[1..];
    assert path1[1] == path[1] && path1[2..] == up;
    GrandparentPainted(m1, path1, t, true, header);
    var m2, path2 := PaintedIn(m1, path[1].node, true), [p', g'] + up;
    assert path2[1..] == [g'] + up && path2[1..][1..] == up;
    LaidAtUp(m2, path2, t, header);
    LaidAtUp(m2, path2[1..], Fill(p', t), header);
  }

  /** Paint the parent black and the grandparent red, then turn the grandparent down to the right. */
  method TurnRight(x: Node, xpp: Node, header: Node, ghost nodes: set<Node>, ghost path: Path, ghost t: Tree)
    requires |path| >= 2 && t.Branch? && t.node == x
    requires path[0].isLeft && path[1].isLeft && path[1].node == xpp
    requires LaidAt(Snapshot(nodes), path, t, header)
    modifies nodes
    ensures LaidAt(Snapshot(nodes),
            [Frame(true, path[0].node, false, Fill(path[1].(red := true), path[0].sibling))] + path[2..], t, header)
    ensures header.left == old(header.left) && header.right == old(header.right) && header.red == old(header.red)
  {
    PlacePointers(Snapshot(nodes), path, t, header);
    LaidAtBeforeTurn(Snapshot(nodes), path, t, header);
    Paint(x.parent, false, nodes);
    Paint(xpp, true, nodes);
    RotateRightAt(xpp, header, nodes, path[2..], Fill(path[1].(red := true), Fill(path[0].(red := false), t)));
    LaidAtChild(Snapshot(nodes), Frame(true, path[0].node, false, Fill(path[1].(red := true), path[0].sibling)),
                path[2..], t, header);
  }

  /** Paint the parent black and the grandparent red, then turn the grandparent down to the left. */
  method TurnLeft(x: Node, xpp: Node, header: Node, ghost nodes: set<Node>, ghost path: Path, ghost t: Tree)
    requires |path| >= 2 && t.Branch? && t.node == x
    requires !path[0].isLeft && !path[1].isLeft && path[1].node == xpp
    requires LaidAt(Snapshot(nodes), path, t, header)
    modifies nodes
    ensures LaidAt(Snapshot(nodes),
            [Frame(false, path[0].node, false, Fill(path[1].(red := true), path[0].sibling))] + path[2..], t, header)
    ensures header.left == old(header.left) && header.right == old(header.right) && header.red == old(header.red)
  {
    PlacePointers(Snapshot(nodes), path, t, header);
    LaidAtBeforeTurn(Snapshot(nodes), path, t, header);
    Paint(x.parent, false, nodes);
    Paint(xpp, true, nodes);
    RotateLeftAt(xpp, header, nodes, path[2..], Fill(path[1].(red := true), Fill(path[0].(red := false), t)));
    LaidAtChild(Snapshot(nodes), Frame(false, path[0].node, false, Fill(path[1].(red := true), path[0].sibling)),
                path[2..], t, header);
  }

  /** One turn of the insertion loop when the parent is a left child. */
  method StepUnderLeft(x: Node, header: Node, ghost nodes: set<Node>, ghost path: Path, ghost t: Tree)
    returns (x': Node)
    requires |path| >= 2 && t.Branch? && t.node == x && path[0].red && path[1].isLeft
    requires LaidAt(Snapshot(nodes), path, t, header)
    modifies nodes
    ensures LaidAt(Snapshot(nodes), InsertStep(path, t).0, InsertStep(path, t).1, header)
    ensures InsertStep(path, t).1.Branch? && x' == InsertStep(path, t).1.node
    ensures header.left == old(header.left) && header.right == old(header.right) && header.red == old(header.red)
  {
    PlacePointers(Snapshot(nodes), path, t, header);
    x' := x;
    var xpp := x.parent.parent;
    var y := xpp.right;
    if y != null && y.red {
      Recolour(x, y, xpp, header, nodes, path, t);
      x' := xpp;
    } else {
      ghost var f := path[0];
      if x' == x'.parent.right {
        x' := x'.parent;
        ghost var whole := Fill(f, t);
        LaidAtUp(Snapshot(nodes), path, t, header);
        RotateLeftAt(x', header, nodes, path[1..], whole);
        ghost var f' := Frame(true, t.node, t.red, t.right);
        ghost var t' := Branch(f.sibling, f.node, f.red, t.left);
        assert Fill(f', t') == RotatedLeft(whole);
        LaidAtChild(Snapshot(nodes), f', path[1..], t', header);
        ghost var path' := [f'] + path[1..];
        assert path'[1] == path[1] && path'[2..] == path[2..];
        TurnRight(x', xpp, header, nodes, path', t');
      } else {
        TurnRight(x', xpp, header, nodes, path, t);
      }
    }
  }

  /** One turn of the insertion loop when the parent is a right child. */
  method StepUnderRight(x: Node, header: Node, ghost nodes: set<Node>, ghost path: Path, ghost t: Tree)
    returns (x': Node)
    requires |path| >= 2 && t.Branch? && t.node == x && path[0].red && !path[1].isLeft
    requires LaidAt(Snapshot(nodes), path, t, header)
    modifies nodes
    ensures LaidAt(Snapshot(nodes), InsertStep(path, t).0, InsertStep(path, t).1, header)
    ensures InsertStep(path, t).1.Branch? && x' == InsertStep(path, t).1.node
    ensures header.left == old(header.left) && header.right == old(header.right) && header.red == old(header.red)
  {
    PlacePointers(Snapshot(nodes), path, t, header);
    x' := x;
    var xpp := x.parent.parent;
    var y := xpp.left;
    if y != null && y.red {
      Recolour(x, y, xpp, header, nodes, path, t);
      x' := xpp;
    } else {
      ghost var f := path[0];
      if x' == x'.parent.left {
        x' := x'.parent;
        ghost var whole := Fill(f, t);
        LaidAtUp(Snapshot(nodes), path, t, header);
        RotateRightAt(x', header, nodes, path[1..], whole);
        ghost var f' := Frame(false, t.node, t.red, t.left);
        ghost var t' := Branch(t.right, f.node, f.red, f.sibling);
        assert Fill(f', t') == RotatedRight(whole);
        LaidAtChild(Snapshot(nodes), f', path[1..], t', header);
        ghost var path' := [f'] + path[1..];
        assert path'[1] == path[1] && path'[2..] == path[2..];
        TurnLeft(x', xpp, header, nodes, path', t');
      } else {
        TurnLeft(x', xpp, header, nodes, path, t);
      }
    }
  }

  lemma LoopPointers(mem: Memory, path: Path, t: Tree, h: nat, header: Node)
    requires LaidAt(mem, path, t, header) && t.Branch? && BalancedAround(path, h)
    ensures {t.node, header} <= mem.Keys
    ensures mem[header].parent == t.node <==> path == []
    ensures path != [] ==>
      && path[0].node in mem && mem[t.node].parent == path[0].node
      && path[0].node != header && t.node != path[0].node && t.node != header
      && mem[path[0].node].red == path[0].red
      && (path[0].red ==> |path| >= 2)
  {
    LaidInMemory(mem, path, t, header);
    HeaderHoldsRoot(mem, path, t.node, header);
  }

  lemma PaintedRootRedBlack(path: Path, t: Tree, h: nat)
    requires t.Branch? && Balanced(t, h) && BalancedAround(path, h)
    requires path == [] || !path[0].red
    ensures Plug(path, t).Branch? && RedBlack(Painted(Plug(path, t), false))
    ensures InOrder(Painted(Plug(path, t), false)) == InOrder(Plug(path, t))
  {
    if path == [] {
      BalancedHeight(t, h);
    } else {
      BalancedPlug(path, t, h);
      NodesPlug(path, t);
    }
  }

  /** Restores the red-black conditions around a red `x` (lines 418-469). */
  method RebalanceAfterInsert(x0: Node, header: Node, ghost nodes: set<Node>, ghost path0: Path,
                              ghost t0: Tree, ghost h0: nat)
      returns (ghost tree: Tree)
    requires t0.Branch? && t0.node == x0 && t0.red && Balanced(t0, h0) && BalancedAround(path0, h0)
    requires LaidAt(Snapshot(nodes), path0, t0, header)
    modifies nodes
    ensures LaidAt(Snapshot(nodes), [], tree, header) && RedBlack(tree) && tree.Branch?
    ensures InOrder(tree) == OrderAt(path0, t0)
    ensures header.left == old(header.left) && header.right == old(header.right) && header.red == old(header.red)
  {
    var x := x0;
    ghost var path, t, h := path0, t0, h0;
    LoopPointers(Snapshot(nodes), path, t, h, header);
    while x != header.parent && x.parent.red
      invariant t.Branch? && t.node == x && t.red && Balanced(t, h) && BalancedAround(path, h)
      invariant LaidAt(Snapshot(nodes), path, t, header)
      invariant OrderAt(path, t) == OrderAt(path0, t0)
      invariant header.left == old(header.left) && header.right == old(header.right) && header.red == old(header.red)
      invariant {x, header} <= nodes && (x == header.parent <==> path == [])
      invariant path != [] ==> x.parent == path[0].node && x.parent in nodes && x.parent.red == path[0].red
      decreases |path|
    {
      ghost var (path', t') := InsertStep(path, t);
      PlacePointers(Snapshot(nodes), path, t, header);
      InsertStepKeepsOrder(path, t);
      h := InsertStepBalances(path, t, h);
      if x.parent == x.parent.parent.left {
        x := StepUnderLeft(x, header, nodes, path, t);
      } else {
        x := StepUnderRight(x, header, nodes, path, t);
      }
      path, t := path', t';
      LoopPointers(Snapshot(nodes), path, t, h, header);
    }
    ghost var whole := Plug(path, t);
    LaidAtPlug(Snapshot(nodes), path, t, header);
    InOrderPlug(path, t);
    PaintedRootRedBlack(path, t, h);
    LaidAtPainted(Snapshot(nodes), [], whole, false, header);
    assert header.parent == whole.node;
    Paint(header.parent, false, nodes);
    tree := Painted(whole, false);
  }

  // ----- erasure -----

  /** The pointers around a place whose parent has two children, or one on the other side. */
  lemma SiblingPointers(mem: Memory, path: Path, t: Tree, header: Node)
    requires LaidAt(mem, path, t, header) && path != [] && path[0].sibling.Branch?
    ensures var p, w := path[0].node, path[0].sibling;
      && {p, w.node, header} <= mem.Keys && header !in {p, w.node}
      && mem[p] == Cell(Above(path[1..], header), if path[0].isLeft then Root(t) else w.node,
                        if path[0].isLeft then w.node else Root(t), path[0].red)
      && Root(t) != w.node
      && mem[w.node] == Cell(p, Root(w.left), Root(w.right), w.red)
      && (w.left.Branch? ==> w.left.node in mem && w.left.node != header && mem[w.left.node].red == w.left.red)
      && (w.right.Branch? ==> w.right.node in mem && w.right.node != header && mem[w.right.node].red == w.right.red)
      && (t.Branch? ==> t.node in mem && mem[t.node].red == t.red)
      && mem[header].parent != Root(t) && mem[header].parent != null
  {
    var w := path[0].sibling;
    LaidInMemory(mem, path, t, header);
    HeaderHoldsRoot(mem, path, Root(t), header);
    assert w.node in PathNodes(path) && Nodes(w) <= PathNodes(path);
    assert Laid(mem, w.left, w.node) && Laid(mem, w.right, w.node);
    assert w.left.Branch? ==> w.left.node in Nodes(w.left);
    assert w.right.Branch? ==> w.right.node in Nodes(w.right);
    assert mem[path[0].node].parent == Above(path[1..], header);
  }

  /** The frame of a place once the sibling has the parent's colour, and the parent and the far child are black. */
  function PaintedForRedFar(f: Frame): Frame
    requires f.sibling.Branch?
  {
    f.(red := false, sibling := ChildPainted(Painted(f.sibling, f.red), !f.isLeft, false))
  }

  lemma LaidAtPaintedForRedFar(mem: Memory, path: Path, t: Tree, header: Node)
    requires LaidAt(mem, path, t, header) && path != [] && path[0].sibling.Branch?
             && Far(path[0].isLeft, path[0].sibling).Branch?
    ensures var f, w := path[0], path[0].sibling;
      var far := Far(f.isLeft, w).node;
      && {w.node, f.node, far} <= mem.Keys
      && LaidAt(PaintedIn(PaintedIn(PaintedIn(mem, w.node, f.red), f.node, false), far, false), path[1..],
                Fill(PaintedForRedFar(f), t), header)
  {
    var f, w, up := path[0], path[0].sibling, path[1..];
    SiblingPainted(mem, path, t, f.red, header);
    var m1, f1 := PaintedIn(mem, w.node, f.red), f.(sibling := Painted(w, f.red));
    ParentPainted(m1, [f1] + up, t, false, header);
    var m2, f2 := PaintedIn(m1, f.node, false), f1.(red := false);
    assert ([f1] + up)[1..] == up && ([f2] + up)[1..] == up;
    NephewPainted(m2, [f2] + up, t, !f.isLeft, false, header);
    LaidAtChild(PaintedIn(m2, Far(f.isLeft, w).node, false), PaintedForRedFar(f), up, t, header);
  }

  /** The tree at a place, turned towards the place. */
  function Turned(isLeft: bool, t: Tree): Tree
    requires t.Branch? && (if isLeft then t.right.Branch? else t.left.Branch?)
  {
    if isLeft then RotatedLeft(t) else RotatedRight(t)
  }

  lemma LaidAtTurnedRedFar(mem: Memory, path: Path, t: Tree, header: Node)
    requires path != [] && path[0].sibling.Branch? && Far(path[0].isLeft, path[0].sibling).Branch?
    requires LaidAt(mem, path[1..], Turned(path[0].isLeft, Fill(PaintedForRedFar(path[0]), t)), header)
    ensures LaidAt(mem, AfterRedFar(path), t, header)
  {
    var path' := AfterRedFar(path);
    assert path' == [path'[0], path'[1]] + path[1..];
    LaidAtGrandchild(mem, path'[0], path'[1], path[1..], t, header);
  }

  /** The frame of a place once the sibling is black and the parent red. */
  function PaintedForRedSibling(f: Frame): Frame {
    f.(red := true, sibling := Painted(f.sibling, false))
  }

  lemma LaidAtPaintedForRedSibling(mem: Memory, path: Path, t: Tree, header: Node)
    requires LaidAt(mem, path, t, header) && path != [] && path[0].sibling.Branch?
    ensures {path[0].sibling.node, path[0].node} <= mem.Keys
    ensures LaidAt(PaintedIn(PaintedIn(mem, path[0].sibling.node, false), path[0].node, true), path[1..],
                   Fill(PaintedForRedSibling(path[0]), t), header)
  {
    var up, w := path[1..], path[0].sibling;
    SiblingPainted(mem, path, t, false, header);
    var f, m1 := path[0].(sibling := Painted(w, false)), PaintedIn(mem, w.node, false);
    assert ([f] + up)[1..] == up;
    ParentPainted(m1, [f] + up, t, true, header);
    LaidAtChild(PaintedIn(m1, f.node, true), PaintedForRedSibling(path[0]), up, t, header);
  }

  lemma LaidAtTurnedRedSibling(mem: Memory, path: Path, t: Tree, header: Node)
    requires path != [] && path[0].sibling.Branch?
    requires LaidAt(mem, path[1..], Turned(path[0].isLeft, Fill(PaintedForRedSibling(path[0]), t)), header)
    ensures LaidAt(mem, AfterRedSibling(path), t, header)
  {
    var path' := AfterRedSibling(path);
    assert path' == [path'[0], path'[1]] + path[1..];
    LaidAtGrandchild(mem, path'[0], path'[1], path[1..], t, header);
  }

  /** A red sibling of a left place (lines 557-563). */
  method MendRedSiblingLeft(xp: Node, w: Node, header: Node, ghost nodes: set<Node>, ghost path: Path, ghost t: Tree)
    requires path != [] && path[0].isLeft && path[0].node == xp && path[0].sibling.Branch? && path[0].sibling.node == w
    requires LaidAt(Snapshot(nodes), path, t, header)
    modifies nodes
    ensures LaidAt(Snapshot(nodes), AfterRedSibling(path), t, header)
    ensures header.left == old(header.left) && header.right == old(header.right) && header.red == old(header.red)
  {
    SiblingPointers(Snapshot(nodes), path, t, header);
    LaidAtPaintedForRedSibling(Snapshot(nodes), path, t, header);
    Paint(w, false, nodes);
    Paint(xp, true, nodes);
    RotateLeftAt(xp, header, nodes, path[1..], Fill(PaintedForRedSibling(path[0]), t));
    LaidAtTurnedRedSibling(Snapshot(nodes), path, t, header);
  }

  /** A sibling whose near child is red (lines 575-581). */
  method MendRedNearLeft(xp: Node, w: Node, header: Node, ghost nodes: set<Node>, ghost path: Path, ghost t: Tree)
    requires path != [] && path[0].isLeft && path[0].node == xp && path[0].sibling.Branch? && path[0].sibling.node == w
    requires LaidAt(Snapshot(nodes), path, t, header)
    requires path[0].sibling.left.Branch?
    modifies nodes
    ensures LaidAt(Snapshot(nodes), AfterRedNear(path), t, header)
    ensures header.left == old(header.left) && header.right == old(header.right) && header.red == old(header.red)
  {
    ghost var mem, up, s := Snapshot(nodes), path[1..], path[0].sibling;
    SiblingPointers(mem, path, t, header);
    ghost var across := Across(path, t);
    LaidAtAcross(mem, path, t, header);
    LaidAtChildPainted(mem, across, s, true, false, header);
    ghost var s1 := ChildPainted(s, true, false);
    LaidAtPainted(PaintedIn(mem, s.left.node, false), across, s1, true, header);
    Paint(w.left, false, nodes);
    Paint(w, true, nodes);
    RotateRightAt(w, header, nodes, across, s1.(red := true));
    ghost var path' := AfterRedNear(path);
    assert path'[1..] == up && Across(path', t) == across;
    LaidAtAcross(Snapshot(nodes), path', t, header);
  }

  /** A sibling whose far child is red (lines 583-587). */
  method MendRedFarLeft(xp: Node, w: Node, header: Node, ghost nodes: set<Node>, ghost path: Path, ghost t: Tree)
    requires path != [] && path[0].isLeft && path[0].node == xp && path[0].sibling.Branch? && path[0].sibling.node == w
    requires LaidAt(Snapshot(nodes), path, t, header)
    requires path[0].sibling.right.Branch?
    modifies nodes
    ensures LaidAt(Snapshot(nodes), AfterRedFar(path), t, header)
    ensures header.left == old(header.left) && header.right == old(header.right) && header.red == old(header.red)
  {
    SiblingPointers(Snapshot(nodes), path, t, header);
    LaidAtPaintedForRedFar(Snapshot(nodes), path, t, header);
    Paint(w, xp.red, nodes);
    Paint(xp, false, nodes);
    if w.right != null {
      Paint(w.right, false, nodes);
    }
    RotateLeftAt(xp, header, nodes, path[1..], Fill(PaintedForRedFar(path[0]), t));
    LaidAtTurnedRedFar(Snapshot(nodes), path, t, header);
  }

  /** A red sibling of a right place (lines 595-601). */
  method MendRedSiblingRight(xp: Node, w: Node, header: Node, ghost nodes: set<Node>, ghost path: Path, ghost t: Tree)
    requires path != [] && !path[0].isLeft && path[0].node == xp && path[0].sibling.Branch? && path[0].sibling.node == w
    requires LaidAt(Snapshot(nodes), path, t, header)
    modifies nodes
    ensures LaidAt(Snapshot(nodes), AfterRedSibling(path), t, header)
    ensures header.left == old(header.left) && header.right == old(header.right) && header.red == old(header.red)
  {
    SiblingPointers(Snapshot(nodes), path, t, header);
    LaidAtPaintedForRedSibling(Snapshot(nodes), path, t, header);
    Paint(w, false, nodes);
    Paint(xp, true, nodes);
    RotateRightAt(xp, header, nodes, path[1..], Fill(PaintedForRedSibling(path[0]), t));
    LaidAtTurnedRedSibling(Snapshot(nodes), path, t, header);
  }

  /** A sibling whose near child is red (lines 613-619). */
  method MendRedNearRight(xp: Node, w: Node, header: Node, ghost nodes: set<Node>, ghost path: Path, ghost t: Tree)
    requires path != [] && !path[0].isLeft && path[0].node == xp && path[0].sibling.Branch? && path[0].sibling.node == w
    requires LaidAt(Snapshot(nodes), path, t, header)
    requires path[0].sibling.right.Branch?
    modifies nodes
    ensures LaidAt(Snapshot(nodes), AfterRedNear(path), t, header)
    ensures header.left == old(header.left) && header.right == old(header.right) && header.red == old(header.red)
  {
    ghost var mem, up, s := Snapshot(nodes), path[1..], path[0].sibling;
    SiblingPointers(mem, path, t, header);
    ghost var across := Across(path, t);
    LaidAtAcross(mem, path, t, header);
    LaidAtChildPainted(mem, across, s, false, false, header);
    ghost var s1 := ChildPainted(s, false, false);
    LaidAtPainted(PaintedIn(mem, s.right.node, false), across, s1, true, header);
    Paint(w.right, false, nodes);
    Paint(w, true, nodes);
    RotateLeftAt(w, header, nodes, across, s1.(red := true));
    ghost var path' := AfterRedNear(path);
    assert path'[1..] == up && Across(path', t) == across;
    LaidAtAcross(Snapshot(nodes), path', t, header);
  }

  /** A sibling whose far child is red (lines 620-624). */
  method MendRedFarRight(xp: Node, w: Node, header: Node, ghost nodes: set<Node>, ghost path: Path, ghost t: Tree)
    requires path != [] && !path[0].isLeft && path[0].node == xp && path[0].sibling.Branch? && path[0].sibling.node == w
    requires LaidAt(Snapshot(nodes), path, t, header)
    requires path[0].sibling.left.Branch?
    modifies nodes
    ensures LaidAt(Snapshot(nodes), AfterRedFar(path), t, header)
    ensures header.left == old(header.left) && header.right == old(header.right) && header.red == old(header.red)
  {
    SiblingPointers(Snapshot(nodes), path, t, header);
    LaidAtPaintedForRedFar(Snapshot(nodes), path, t, header);
    Paint(w, xp.red, nodes);
    Paint(xp, false, nodes);
    if w.left != null {
      Paint(w.left, false, nodes);
    }
    RotateRightAt(xp, header, nodes, path[1..], Fill(PaintedForRedFar(path[0]), t));
    LaidAtTurnedRedFar(Snapshot(nodes), path, t, header);
  }

  /** The end of the erasure loop: a black sibling with a red child, at a left place. */
  method SettleLeft(xp: Node, w0: Node, header: Node, ghost nodes: set<Node>, ghost path: Path,
                    ghost t: Tree, ghost h: nat)
      returns (ghost path': Path)
    requires Deficient(path, t, h) && BlackRoot(t)
    requires path != [] && path[0].isLeft && path[0].node == xp
    requires path[0].sibling.Branch? && path[0].sibling.node == w0 && BlackRoot(path[0].sibling)
    requires !BlackRoot(path[0].sibling.left) || !BlackRoot(path[0].sibling.right)
    requires LaidAt(Snapshot(nodes), path, t, header)
    modifies nodes
    ensures LaidAt(Snapshot(nodes), path', t, header) && OrderAt(path', t) == OrderAt(path, t)
    ensures Balanced(t, h) && BalancedAround(path', h) && path' != [] && !path'[0].red
    ensures header.left == old(header.left) && header.right == old(header.right) && header.red == old(header.red)
  {
    path' := path;
    var w := w0;
    SiblingPointers(Snapshot(nodes), path, t, header);
    if w.right == null || !w.right.red {
      MendRedNearLeft(xp, w, header, nodes, path, t);
      RedNearBalances(path, t, h);
      RedNearKeepsOrder(path, t);
      path' := AfterRedNear(path);
      SiblingPointers(Snapshot(nodes), path', t, header);
      w := xp.right;
    }
    MendRedFarLeft(xp, w, header, nodes, path', t);
    RedFarBalances(path', t, h);
    RedFarKeepsOrder(path', t);
    path' := AfterRedFar(path');
  }

  /** The same turn once the sibling is black (lines 564-589). */
  method MendBlackLeft(xp: Node, w: Node, header: Node, ghost nodes: set<Node>, ghost path: Path,
                       ghost t: Tree, ghost h: nat)
      returns (done: bool, ghost path': Path, ghost t': Tree, ghost h': nat)
    requires Deficient(path, t, h) && BlackRoot(t)
    requires path != [] && path[0].isLeft && path[0].node == xp
    requires path[0].sibling.Branch? && path[0].sibling.node == w && BlackRoot(path[0].sibling)
    requires LaidAt(Snapshot(nodes), path, t, header)
    modifies nodes
    ensures LaidAt(Snapshot(nodes), path', t', header) && OrderAt(path', t') == OrderAt(path, t)
    ensures done ==> t' == t && Balanced(t', h') && BalancedAround(path', h') && path' != [] && !path'[0].red
    ensures !done ==>
              && Deficient(path', t', h') && t'.Branch? && t'.node == xp
              && |path'| < |path| && t'.red == path[0].red
    ensures header.left == old(header.left) && header.right == old(header.right) && header.red == old(header.red)
  {
    path', t', h' := path, t, h;
    SiblingPointers(Snapshot(nodes), path, t, header);
    if (w.left == null || !w.left.red) && (w.right == null || !w.right.red) {
      SiblingPainted(Snapshot(nodes), path, t, true, header);
      Paint(w, true, nodes);
      BlackSiblingKeepsOrder(path, t);
      h' := BlackSiblingBalances(path, t, h);
      LaidAtChild(Snapshot(nodes), path[0].(sibling := Painted(path[0].sibling, true)), path[1..], t, header);
      ghost var next := AfterBlackSibling(path, t);
      path', t' := next.0, next.1;
      done := false;
    } else {
      path' := SettleLeft(xp, w, header, nodes, path, t, h);
      done := true;
    }
  }

  /** One turn of the erasure loop for a left place (lines 554-590). */
  method MendLeft(xp: Node, header: Node, ghost nodes: set<Node>, ghost path: Path, ghost t: Tree, ghost h: nat)
      returns (done: bool, ghost path': Path, ghost t': Tree, ghost h': nat)
    requires Deficient(path, t, h) && BlackRoot(t)
    requires path != [] && path[0].isLeft && path[0].node == xp
    requires LaidAt(Snapshot(nodes), path, t, header)
    modifies nodes
    ensures LaidAt(Snapshot(nodes), path', t', header) && OrderAt(path', t') == OrderAt(path, t)
    ensures done ==> t' == t && Balanced(t', h') && BalancedAround(path', h') && path' != [] && !path'[0].red
    ensures !done ==> Deficient(path', t', h') && t'.Branch? && t'.node == xp && (|path'| < |path| || t'.red)
    ensures header.left == old(header.left) && header.right == old(header.right) && header.red == old(header.red)
  {
    path', t', h' := path, t, h;
    SiblingPointers(Snapshot(nodes), path, t, header);
    var w := xp.right;
    if w.red {
      MendRedSiblingLeft(xp, w, header, nodes, path, t);
      RedSiblingBalances(path, t, h);
      RedSiblingKeepsOrder(path, t);
      path' := AfterRedSibling(path);
      SiblingPointers(Snapshot(nodes), path', t, header);
      w := xp.right;
    }
    done, path', t', h' := MendBlackLeft(xp, w, header, nodes, path', t, h);
  }

  /** The end of the erasure loop: a black sibling with a red child, at a right place. */
  method SettleRight(xp: Node, w0: Node, header: Node, ghost nodes: set<Node>, ghost path: Path,
                     ghost t: Tree, ghost h: nat)
      returns (ghost path': Path)
    requires Deficient(path, t, h) && BlackRoot(t)
    requires path != [] && !path[0].isLeft && path[0].node == xp
    requires path[0].sibling.Branch? && path[0].sibling.node == w0 && BlackRoot(path[0].sibling)
    requires !BlackRoot(path[0].sibling.left) || !BlackRoot(path[0].sibling.right)
    requires LaidAt(Snapshot(nodes), path, t, header)
    modifies nodes
    ensures LaidAt(Snapshot(nodes), path', t, header) && OrderAt(path', t) == OrderAt(path, t)
    ensures Balanced(t, h) && BalancedAround(path', h) && path' != [] && !path'[0].red
    ensures header.left == old(header.left) && header.right == old(header.right) && header.red == old(header.red)
  {
    path' := path;
    var w := w0;
    SiblingPointers(Snapshot(nodes), path, t, header);
    if w.left == null || !w.left.red {
      MendRedNearRight(xp, w, header, nodes, path, t);
      RedNearBalances(path, t, h);
      RedNearKeepsOrder(path, t);
      path' := AfterRedNear(path);
      SiblingPointers(Snapshot(nodes), path', t, header);
      w := xp.left;
    }
    MendRedFarRight(xp, w, header, nodes, path', t);
    RedFarBalances(path', t, h);
    RedFarKeepsOrder(path', t);
    path' := AfterRedFar(path');
  }

  /** The same turn once the sibling is black (lines 602-626). */
  method MendBlackRight(xp: Node, w: Node, header: Node, ghost nodes: set<Node>, ghost path: Path,
                        ghost t: Tree, ghost h: nat)
      returns (done: bool, ghost path': Path, ghost t': Tree, ghost h': nat)
    requires Deficient(path, t, h) && BlackRoot(t)
    requires path != [] && !path[0].isLeft && path[0].node == xp
    requires path[0].sibling.Branch? && path[0].sibling.node == w && BlackRoot(path[0].sibling)
    requires LaidAt(Snapshot(nodes), path, t, header)
    modifies nodes
    ensures LaidAt(Snapshot(nodes), path', t', header) && OrderAt(path', t') == OrderAt(path, t)
    ensures done ==> t' == t && Balanced(t', h') && BalancedAround(path', h') && path' != [] && !path'[0].red
    ensures !done ==>
              && Deficient(path', t', h') && t'.Branch? && t'.node == xp
              && |path'| < |path| && t'.red == path[0].red
    ensures header.left == old(header.left) && header.right == old(header.right) && header.red == old(header.red)
  {
    path', t', h' := path, t, h;
    SiblingPointers(Snapshot(nodes), path, t, header);
    if (w.right == null || !w.right.red) && (w.left == null || !w.left.red) {
      SiblingPainted(Snapshot(nodes), path, t, true, header);
      Paint(w, true, nodes);
      BlackSiblingKeepsOrder(path, t);
      h' := BlackSiblingBalances(path, t, h);
      LaidAtChild(Snapshot(nodes), path[0].(sibling := Painted(path[0].sibling, true)), path[1..], t, header);
      ghost var next := AfterBlackSibling(path, t);
      path', t' := next.0, next.1;
      done := false;
    } else {
      path' := SettleRight(xp, w, header, nodes, path, t, h);
      done := true;
    }
  }

  /** One turn of the erasure loop for a right place (lines 591-627). */
  method MendRight(xp: Node, header: Node, ghost nodes: set<Node>, ghost path: Path, ghost t: Tree, ghost h: nat)
      returns (done: bool, ghost path': Path, ghost t': Tree, ghost h': nat)
    requires Deficient(path, t, h) && BlackRoot(t)
    requires path != [] && !path[0].isLeft && path[0].node == xp
    requires LaidAt(Snapshot(nodes), path, t, header)
    modifies nodes
    ensures LaidAt(Snapshot(nodes), path', t', header) && OrderAt(path', t') == OrderAt(path, t)
    ensures done ==> t' == t && Balanced(t', h') && BalancedAround(path', h') && path' != [] && !path'[0].red
    ensures !done ==> Deficient(path', t', h') && t'.Branch? && t'.node == xp && (|path'| < |path| || t'.red)
    ensures header.left == old(header.left) && header.right == old(header.right) && header.red == old(header.red)
  {
    path', t', h' := path, t, h;
    SiblingPointers(Snapshot(nodes), path, t, header);
    var w := xp.left;
    if w.red {
      MendRedSiblingRight(xp, w, header, nodes, path, t);
      RedSiblingBalances(path, t, h);
      RedSiblingKeepsOrder(path, t);
      path' := AfterRedSibling(path);
      SiblingPointers(Snapshot(nodes), path', t, header);
      w := xp.left;
    }
    done, path', t', h' := MendBlackRight(xp, w, header, nodes, path', t, h);
  }

  method Mend(x: Node?, xParent: Node, header: Node, ghost nodes: set<Node>, ghost path: Path,
              ghost t: Tree, ghost h: nat)
      returns (done: bool, ghost path': Path, ghost t': Tree, ghost h': nat)
    requires Deficient(path, t, h) && BlackRoot(t) && path != [] && path[0].node == xParent && x == Root(t)
    requires LaidAt(Snapshot(nodes), path, t, header)
    modifies nodes
    ensures LaidAt(Snapshot(nodes), path', t', header) && OrderAt(path', t') == OrderAt(path, t)
    ensures done ==> t' == t && Balanced(t', h') && BalancedAround(path', h') && path' != [] && !path'[0].red
    ensures !done ==> Deficient(path', t', h') && t'.Branch? && t'.node == xParent && (|path'| < |path| || t'.red)
    ensures header.left == old(header.left) && header.right == old(header.right) && header.red == old(header.red)
  {
    DeficientHasSibling(path, t, h);
    SiblingPointers(Snapshot(nodes), path, t, header);
    if x == xParent.left {
      done, path', t', h' := MendLeft(xParent, header, nodes, path, t, h);
    } else {
      done, path', t', h' := MendRight(xParent, header, nodes, path, t, h);
    }
  }

  lemma ErasePointers(mem: Memory, path: Path, t: Tree, header: Node)
    requires LaidAt(mem, path, t, header)
    ensures header in mem && (mem[header].parent == Root(t) <==> path == [])
    ensures t.Branch? ==> t.node in mem && mem[t.node].red == t.red && mem[t.node].parent == Above(path, header)
  {
    LaidInMemory(mem, path, t, header);
    HeaderHoldsRoot(mem, path, Root(t), header);
  }

  lemma PaintedPlaceRedBlack(path: Path, t: Tree, h: nat, done: bool)
    requires if done then Balanced(t, h) && BlackRoot(t) && BalancedAround(path, h)
             else Deficient(path, t, h) && (path == [] || !BlackRoot(t))
    ensures RedBlack(Plug(path, Painted(t, false)))
    ensures InOrder(Plug(path, Painted(t, false))) == OrderAt(path, t)
  {
    var t' := Painted(t, false);
    InOrderPlug(path, t');
    PaintedKeepsOrder(t, false);
    if done || BlackRoot(t) {
      if path == [] {
        BalancedHeight(t, h);
      } else {
        BalancedPlug(path, t, h);
      }
    } else {
      BalancedPlug(path, t', h + 1);
    }
  }

  /** The last step of erasure: the place's root is painted black (line 628). */
  method Finish(x: Node?, header: Node, ghost nodes: set<Node>, ghost path: Path, ghost t: Tree,
                ghost h: nat, ghost done: bool)
      returns (ghost tree: Tree)
    requires LaidAt(Snapshot(nodes), path, t, header) && x == Root(t)
    requires if done then Balanced(t, h) && BlackRoot(t) && BalancedAround(path, h)
             else Deficient(path, t, h) && (path == [] || !BlackRoot(t))
    modifies nodes
    ensures LaidAt(Snapshot(nodes), [], tree, header) && RedBlack(tree)
    ensures InOrder(tree) == OrderAt(path, t)
    ensures header.left == old(header.left) && header.right == old(header.right) && header.red == old(header.red)
  {
    ErasePointers(Snapshot(nodes), path, t, header);
    PaintedPlaceRedBlack(path, t, h, done);
    tree := Plug(path, Painted(t, false));
    if x != null {
      LaidAtPainted(Snapshot(nodes), path, t, false, header);
      Paint(x, false, nodes);
    }
    LaidAtPlug(Snapshot(nodes), path, Painted(t, false), header);
  }

  /** Gives a place back the black node it lost (lines 553-628). */
  method RebalanceAfterErase(x0: Node?, xParent0: Node, header: Node, ghost nodes: set<Node>, ghost path0: Path,
                             ghost t0: Tree, ghost h0: nat)
      returns (ghost tree: Tree)
    requires Deficient(path0, t0, h0) && x0 == Root(t0) && xParent0 == Above(path0, header)
    requires LaidAt(Snapshot(nodes), path0, t0, header)
    modifies nodes
    ensures LaidAt(Snapshot(nodes), [], tree, header) && RedBlack(tree)
    ensures InOrder(tree) == OrderAt(path0, t0)
    ensures header.left == old(header.left) && header.right == old(header.right) && header.red == old(header.red)
  {
    var x, xParent := x0, xParent0;
    ghost var path, t, h := path0, t0, h0;
    var done := false;
    ErasePointers(Snapshot(nodes), path, t, header);
    while x != header.parent && (x == null || !x.red)
      invariant LaidAt(Snapshot(nodes), path, t, header) && x == Root(t) && xParent == Above(path, header)
      invariant OrderAt(path, t) == OrderAt(path0, t0)
      invariant Deficient(path, t, h)
      invariant header.left == old(header.left) && header.right == old(header.right) && header.red == old(header.red)
      invariant header in nodes && (x == header.parent <==> path == []) && (x != null ==> x in nodes && x.red == t.red)
      decreases if BlackRoot(t) then |path| + 1 else 0
    {
      ghost var path', t', h';
      done, path', t', h' := Mend(x, xParent, header, nodes, path, t, h);
      path, t, h := path', t', h';
      if done {
        break;
      }
      ErasePointers(Snapshot(nodes), path, t, header);
      x := xParent;
      xParent := xParent.parent;
    }
    tree := Finish(x, header, nodes, path, t, h, done);
  }
}
