/** Unlinking a node from the library's red-black tree (src/lib/libkc++.cpp, lines 472-631). */
module RbErase {
  import opened RbShapes
  import opened RbBalance
  import opened RbRebalance
  import opened RbTrees

  /** `s'` is `s` without `z`. */
  ghost predicate Removed(s: seq<Node>, s': seq<Node>, z: Node) {
    && z in s
    && forall k | 0 <= k < |s| && s[k] == z :: s' == s[..k] + s[k + 1..]
  }

  // ----- what the pointer changes do to the layout -----

  /** The subtree left when a node with at most one child goes. */
  function OnlyChild(t: Tree): Tree
    requires t.Branch?
  {
    if t.left == Leaf then t.right else t.left
  }

  /** `x` hung at the place instead of what was there. */
  ghost function HungIn(mem: Memory, path: Path, x: Node?, header: Node): Memory
    requires Above(path, header) in mem && (x != null ==> x in mem)
  {
    var u := Above(path, header);
    var m := if x != null then mem[x := mem[x].(parent := u)] else mem;
    m[u := if path == [] then m[u].(parent := x) else if path[0].isLeft then m[u].(left := x) else m[u].(right := x)]
  }

  lemma LaidAtSpliced(mem: Memory, path: Path, t: Tree, header: Node)
    requires LaidAt(mem, path, t, header) && t.Branch? && (t.left == Leaf || t.right == Leaf)
    ensures Above(path, header) in mem && (OnlyChild(t).Branch? ==> OnlyChild(t).node in mem)
    ensures LaidAt(HungIn(mem, path, Root(OnlyChild(t)), header), path, OnlyChild(t), header)
  {
    var c := OnlyChild(t);
    LaidInMemory(mem, path, t, header);
    assert c.Branch? ==> c.node in Nodes(c);
    assert Above(path, header) == header || Above(path, header) in PathNodes(path);
    var mem' := HungIn(mem, path, Root(c), header);
    LaidReparented(mem, mem', c, t.node, Above(path, header));
    LaidAtReplaced(mem, mem', path, t, c, header);
  }

  /** What memory holds once `y` has taken over the place, the colour and the children of the
      node at the top of `t`. */
  ghost predicate TakenOver(mem: Memory, mem': Memory, path: Path, t: Tree, y: Node, header: Node) {
    && t.Branch? && mem'.Keys == mem.Keys
    && {y, Above(path, header), header} <= mem.Keys
    && mem'[y] == Cell(Above(path, header), Root(t.left), Root(t.right), t.red)
    && (t.left.Branch? ==> t.left.node in mem && mem'[t.left.node] == mem[t.left.node].(parent := y))
    && (t.right.Branch? ==> t.right.node in mem && mem'[t.right.node] == mem[t.right.node].(parent := y))
    && PointsDown(mem, mem', path, y, header)
    && forall n | n in mem && n !in {t.node, y, Root(t.left), Root(t.right), Above(path, header)} :: mem'[n] == mem[n]
  }

  lemma LaidAtTakenOver(mem: Memory, mem': Memory, path: Path, t: Tree, y: Node, header: Node)
    requires LaidAt(mem, path, t, header) && TakenOver(mem, mem', path, t, y, header)
    requires y !in Nodes(t) + PathNodes(path) + {header}
    ensures LaidAt(mem', path, t.(node := y), header)
  {
    LaidInMemory(mem, path, t, header);
    assert t.left.Branch? ==> t.left.node in Nodes(t.left);
    assert t.right.Branch? ==> t.right.node in Nodes(t.right);
    LaidReparented(mem, mem', t.left, t.node, y);
    LaidReparented(mem, mem', t.right, t.node, y);
    LaidAtReplaced(mem, mem', path, t, t.(node := y), header);
  }

  // ----- the pointer changes -----

  /** What the node above `z` holds once `z` there is replaced by `v`. */
  ghost function Redirected(cell: Cell, isHeader: bool, z: Node, v: Node?): Cell {
    if isHeader then cell.(parent := v)
    else if cell.left == z then cell.(left := v)
    else cell.(right := v)
  }

  /** Points the node above `z` at `v` instead (lines 511-516 and 527-533). */
  method ReplaceInParent(z: Node, v: Node?, header: Node)
    requires Hangs(z, header)
    modifies header, z.parent
    ensures CellOf(z.parent) == Redirected(old(CellOf(z.parent)), z.parent == header, z, v)
    ensures z.parent != header ==> CellOf(header) == old(CellOf(header))
    ensures z.parent == old(z.parent)
  {
    if header.parent == z {
      header.parent := v;
    } else if z.parent.left == z {
      z.parent.left := v;
    } else {
      z.parent.right := v;
    }
  }

  /** The nodes around `z` and `y` that relinking touches are different nodes. */
  ghost predicate Relinkable(z: Node, y: Node, header: Node)
    reads z, y, header, z.parent
  {
    && Hangs(z, header) && z.left != null && z.right != null
    && y.parent != null && y != z && y != header && y != z.parent && y != z.left
    && z.left !in {z, y, header, z.parent, z.right, y.parent}
    && z.right !in {z, header, z.parent}
    && y.right !in {z, y, header, z.parent, z.left, z.right, y.parent}
    && if y == z.right then y.parent == z else y.parent !in {z, y, header, z.parent}
  }

  /** Gives `y` the children of `z` and takes it out of its own place (lines 499-510). */
  method AdoptChildren(z: Node, y: Node, header: Node) returns (x: Node?, xParent: Node)
    requires Relinkable(z, y, header)
    modifies y, z.left, z.right, y.parent, y.right
    ensures x == old(y.right) && xParent == if y == z.right then y else old(y.parent)
    ensures CellOf(y) ==
            old(CellOf(y)).(left := old(z.left), right := if y == z.right then old(y.right) else old(z.right))
    ensures CellOf(z) == old(CellOf(z))
    ensures CellOf(z.left) == old(CellOf(z.left)).(parent := y)
    ensures y != z.right && z.right != old(y.parent) ==>
              && CellOf(z.right) == old(CellOf(z.right)).(parent := y)
              && CellOf(old(y.parent)) == old(CellOf(y.parent)).(left := x)
    ensures y != z.right && z.right == old(y.parent) ==>
              CellOf(z.right) == old(CellOf(z.right)).(parent := y, left := x)
    ensures x != null ==>
              CellOf(x) == if y == z.right then old(CellOf(y.right)) else old(CellOf(y.right)).(parent := old(y.parent))
  {
    x := y.right;
    z.left.parent := y;
    y.left := z.left;
    if y != z.right {
      xParent := y.parent;
      if x != null {
        x.parent := y.parent;
      }
      y.parent.left := x;
      y.right := z.right;
      z.right.parent := y;
    } else {
      xParent := y;
    }
  }

  /** Puts `y` below `z`'s parent with `z`'s colour (lines 511-518). */
  method StandIn(z: Node, y: Node, header: Node)
    requires Hangs(z, header) && y !in {z, header, z.parent}
    modifies z, y, header, z.parent
    ensures CellOf(y) == old(CellOf(y)).(parent := old(z.parent), red := old(z.red))
    ensures CellOf(z) == old(CellOf(z)).(red := old(y.red))
    ensures CellOf(old(z.parent)) == Redirected(old(CellOf(z.parent)), old(z.parent) == header, z, y)
    ensures old(z.parent) != header ==> CellOf(header) == old(CellOf(header))
  {
    ReplaceInParent(z, y, header);
    y.parent := z.parent;
    y.red, z.red := z.red, y.red;
  }

  /** Puts `y`, the leftmost node of `z`'s right subtree, in the place of `z` (lines 497-518). */
  method Relink(z: Node, y: Node, header: Node) returns (x: Node?, xParent: Node)
    requires Relinkable(z, y, header)
    modifies z, y, header, z.parent, z.left, z.right, y.parent, y.right
    ensures x == old(y.right) && xParent == if y == old(z.right) then y else old(y.parent)
    ensures CellOf(y) ==
            Cell(old(z.parent), old(z.left), if y == old(z.right) then old(y.right) else old(z.right), old(z.red))
    ensures CellOf(z) == old(CellOf(z)).(red := old(y.red))
    ensures CellOf(old(z.left)) == old(CellOf(z.left)).(parent := y)
    ensures y != old(z.right) && old(z.right) != old(y.parent) ==>
              && CellOf(old(z.right)) == old(CellOf(z.right)).(parent := y)
              && CellOf(old(y.parent)) == old(CellOf(y.parent)).(left := x)
    ensures y != old(z.right) && old(z.right) == old(y.parent) ==>
              CellOf(old(z.right)) == old(CellOf(z.right)).(parent := y, left := x)
    ensures x != null ==> CellOf(x) == if y == old(z.right) then old(CellOf(y.right))
                                       else old(CellOf(y.right)).(parent := old(y.parent))
    ensures CellOf(old(z.parent)) == Redirected(old(CellOf(z.parent)), old(z.parent) == header, z, y)
    ensures old(z.parent) != header ==> CellOf(header) == old(CellOf(header))
  {
    x, xParent := AdoptChildren(z, y, header);
    StandIn(z, y, header);
  }

  /** Puts the only child of `z`, if any, in the place of `z` (lines 524-533). */
  method Splice(z: Node, header: Node) returns (x: Node?, xParent: Node)
    requires Hangs(z, header) && (z.left == null || z.right == null)
    requires z.left !in {z, header, z.parent} && z.right !in {z, header, z.parent}
    modifies header, z.parent, z.left, z.right
    ensures x == (if old(z.left) == null then old(z.right) else old(z.left)) && xParent == old(z.parent)
    ensures x != null ==> CellOf(x) == old(CellOf(if z.left == null then z.right else z.left)).(parent := old(z.parent))
    ensures CellOf(old(z.parent)) == Redirected(old(CellOf(z.parent)), old(z.parent) == header, z, x)
    ensures old(z.parent) != header ==> CellOf(header) == old(CellOf(header))
    ensures CellOf(z) == old(CellOf(z))
  {
    if z.left == null {
      x := z.right;
    } else {
      x := z.left;
    }
    xParent := z.parent;
    if x != null {
      x.parent := z.parent;
    }
    ReplaceInParent(z, x, header);
  }

  // ----- unlinking at a place of the tree -----

  /** The pointers around a node of the tree. */
  lemma NodePointers(mem: Memory, path: Path, t: Tree, header: Node)
    requires LaidAt(mem, path, t, header) && t.Branch?
    ensures var z, u := t.node, Above(path, header);
      && {z, u, header} + Nodes(t) + PathNodes(path) <= mem.Keys
      && mem[z] == Cell(u, Root(t.left), Root(t.right), t.red)
      && z != u && z != header && {z, u, header} !! Nodes(t.left) + Nodes(t.right)
      && Nodes(t.left) !! Nodes(t.right)
      && (t.left.Branch? ==> t.left.node in Nodes(t.left)) && (t.right.Branch? ==> t.right.node in Nodes(t.right))
      && (mem[header].parent == z <==> path == [])
      && (path == [] <==> u == header)
      && (path != [] ==> (mem[u].left == z <==> path[0].isLeft) && (mem[u].right == z <==> !path[0].isLeft))
  {
    LaidInMemory(mem, path, t, header);
    HeaderHoldsRoot(mem, path, t.node, header);
    assert path != [] && path[0].sibling.Branch? ==> path[0].sibling.node in PathNodes(path);
  }

  method SpliceAt(z: Node, header: Node, ghost nodes: set<Node>, ghost path: Path, ghost t: Tree)
    returns (x: Node?, xParent: Node)
    requires LaidAt(Snapshot(nodes), path, t, header) && t.Branch? && t.node == z && (t.left == Leaf || t.right == Leaf)
    modifies nodes
    ensures LaidAt(Snapshot(nodes), path, OnlyChild(t), header)
    ensures x == Root(OnlyChild(t)) && xParent == Above(path, header)
    ensures CellOf(z) == old(CellOf(z))
    ensures header.left == old(header.left) && header.right == old(header.right) && header.red == old(header.red)
  {
    ghost var mem := Snapshot(nodes);
    NodePointers(mem, path, t, header);
    LaidAtSpliced(mem, path, t, header);
    x, xParent := Splice(z, header);
    ghost var hung := HungIn(mem, path, Root(OnlyChild(t)), header);
    forall n | n in nodes ensures CellOf(n) == hung[n] {
    }
    assert Snapshot(nodes) == hung;
  }

  /** Every step of the path goes down to the left (right). */
  ghost predicate AllToward(path: Path, isLeft: bool) {
    forall f | f in path :: f.isLeft == isLeft
  }

  /** `s`, at the end of `spine` below `t`, holds the outermost node of `t` on one side. */
  ghost predicate Outermost(t: Tree, spine: Path, s: Tree, isLeft: bool) {
    && s.Branch? && Plug(spine, s) == t && AllToward(spine, isLeft)
    && (if isLeft then s.left else s.right) == Leaf
  }

  lemma OutwardStep(mem: Memory, path: Path, t: Tree, spine: Path, s: Tree, isLeft: bool, header: Node)
    returns (spine': Path)
    requires s.Branch? && Plug(spine, s) == t && AllToward(spine, isLeft)
    requires LaidAt(mem, spine + path, s, header) && (if isLeft then s.left else s.right).Branch?
    ensures var s' := if isLeft then s.left else s.right;
      && Plug(spine', s') == t && AllToward(spine', isLeft)
      && LaidAt(mem, spine' + path, s', header)
      && s'.node in mem && mem[s'.node].left == Root(s'.left) && mem[s'.node].right == Root(s'.right)
  {
    var f := Frame(isLeft, s.node, s.red, if isLeft then s.right else s.left);
    var s' := if isLeft then s.left else s.right;
    LaidAtChild(mem, f, spine + path, s', header);
    spine' := [f] + spine;
    assert [f] + (spine + path) == spine' + path;
    assert spine'[1..] == spine;
    NodePointers(mem, spine' + path, s', header);
  }

  /** The leftmost node of a subtree, and the way down to it. */
  method Minimum(x: Node, ghost header: Node, ghost nodes: set<Node>, ghost path: Path, ghost t: Tree)
      returns (m: Node, ghost spine: Path, ghost s: Tree)
    requires LaidAt(Snapshot(nodes), path, t, header) && t.Branch? && t.node == x
    ensures Outermost(t, spine, s, true) && s.node == m
    ensures InOrder(t) != [] && m == InOrder(t)[0]
  {
    m, spine, s := x, [], t;
    assert spine + path == path;
    NodePointers(Snapshot(nodes), path, t, header);
    while m.left != null
      invariant s.Branch? && s.node == m && m in nodes && Plug(spine, s) == t && AllToward(spine, true)
      invariant LaidAt(Snapshot(nodes), spine + path, s, header)
      invariant m.left == Root(s.left)
      decreases s
    {
      spine := OutwardStep(Snapshot(nodes), path, t, spine, s, true, header);
      m, s := m.left, s.left;
    }
    OutermostEnds(t, spine, s, true);
  }

  /** The rightmost node of a subtree, and the way down to it. */
  method Maximum(x: Node, ghost header: Node, ghost nodes: set<Node>, ghost path: Path, ghost t: Tree)
      returns (m: Node, ghost spine: Path, ghost s: Tree)
    requires LaidAt(Snapshot(nodes), path, t, header) && t.Branch? && t.node == x
    ensures Outermost(t, spine, s, false) && s.node == m
    ensures InOrder(t) != [] && m == InOrder(t)[|InOrder(t)| - 1]
  {
    m, spine, s := x, [], t;
    assert spine + path == path;
    NodePointers(Snapshot(nodes), path, t, header);
    while m.right != null
      invariant s.Branch? && s.node == m && m in nodes && Plug(spine, s) == t && AllToward(spine, false)
      invariant LaidAt(Snapshot(nodes), spine + path, s, header)
      invariant m.right == Root(s.right)
      decreases s
    {
      spine := OutwardStep(Snapshot(nodes), path, t, spine, s, false, header);
      m, s := m.right, s.right;
    }
    OutermostEnds(t, spine, s, false);
  }

  /** A node with two children, and the way from it down to its successor. */
  ghost predicate Succession(t: Tree, spine: Path, s: Tree) {
    t.Branch? && t.left.Branch? && t.right.Branch? && Outermost(t.right, spine, s, true)
  }

  /** The tree at the place once the successor is out of its old place. */
  ghost function WithoutSuccessor(t: Tree, spine: Path, s: Tree): Tree
    requires Succession(t, spine, s)
  {
    Branch(t.left, t.node, t.red, Plug(spine, s.right))
  }

  /** The same with the successor at the top. */
  ghost function WithSuccessorOnTop(t: Tree, spine: Path, s: Tree): Tree
    requires Succession(t, spine, s)
  {
    Branch(t.left, s.node, t.red, Plug(spine, s.right))
  }

  ghost function SuccessorPath(path: Path, t: Tree, spine: Path): Path
    requires t.Branch?
  {
    spine + ([Frame(false, t.node, t.red, t.left)] + path)
  }

  lemma {:induction false} PlugRoot(path: Path, t: Tree)
    requires path != []
    ensures Plug(path, t).Branch? && Plug(path, t).node == path[|path| - 1].node
    ensures Plug(path, t).node in PathNodes(path)
    decreases |path|
  {
    if |path| > 1 {
      PlugRoot(path[1..], Fill(path[0], t));
    }
  }

  lemma {:induction false} PathNodesPart(inner: Path, outer: Path)
    ensures PathNodes(inner + outer) == PathNodes(inner) + PathNodes(outer)
    decreases |inner|
  {
    if inner == [] {
      assert inner + outer == outer;
    } else {
      assert (inner + outer)[1..] == inner[1..] + outer;
      PathNodesPart(inner[1..], outer);
    }
  }

  lemma SuccessorPlace(mem: Memory, path: Path, t: Tree, spine: Path, s: Tree, header: Node)
    requires Succession(t, spine, s)
    ensures LaidAt(mem, path, t, header) <==> LaidAt(mem, SuccessorPath(path, t, spine), s, header)
    ensures LaidAt(mem, path, WithoutSuccessor(t, spine, s), header) <==>
            LaidAt(mem, SuccessorPath(path, t, spine), s.right, header)
  {
    var f := Frame(false, t.node, t.red, t.left);
    LaidAtPart(mem, spine, [f] + path, s, header);
    LaidAtChild(mem, f, path, t.right, header);
    LaidAtPart(mem, spine, [f] + path, s.right, header);
    LaidAtChild(mem, f, path, Plug(spine, s.right), header);
  }

  /** The nodes that relinking touches are all different, and where they point. */
  ghost predicate SuccessorAt(mem: Memory, path: Path, t: Tree, spine: Path, s: Tree, header: Node)
    requires Succession(t, spine, s)
  {
    var z, y, l, r, u, x := t.node, s.node, t.left.node, t.right.node, Above(path, header), Root(s.right);
    var p := if spine == [] then z else spine[0].node;
    && {z, y, l, r, u, p, header} + Nodes(s.right) <= mem.Keys
    && mem[z] == Cell(u, l, r, t.red)
    && mem[y] == Cell(p, null, x, s.red)
    && y !in {z, header, u, l} && l !in {z, header, u, r, p} && r !in {z, header, u}
    && x !in {z, y, header, u, l, r, p} && z != u && z != header
    && (spine == [] <==> y == r) && (spine != [] ==> p !in {z, y, header, u} && mem[p].left == y)
    && (s.right.Branch? ==> s.right.node in Nodes(s.right) && mem[s.right.node].parent == y)
    && (mem[header].parent == z <==> path == []) && (path == [] <==> u == header)
    && (path != [] ==> (mem[u].left == z <==> path[0].isLeft) && (mem[u].right == z <==> !path[0].isLeft))
  }

  lemma SuccessorPointers(mem: Memory, path: Path, t: Tree, spine: Path, s: Tree, header: Node)
    requires Succession(t, spine, s) && LaidAt(mem, path, t, header)
    ensures SuccessorAt(mem, path, t, spine, s, header)
  {
    NodePointers(mem, path, t, header);
    SuccessorPlace(mem, path, t, spine, s, header);
    var path' := SuccessorPath(path, t, spine);
    NodePointers(mem, path', s, header);
    NodesPlug(spine, s);
    assert Laid(mem, s.right, s.node) && Nodes(s.right) <= Nodes(s) <= Nodes(t.right);
    assert path'[0].node in PathNodes(path');
    if spine != [] {
      assert path'[0] == spine[0];
      assert spine[0] in spine;
      PlugRoot(spine, s);
      PathNodesPart(spine, [Frame(false, t.node, t.red, t.left)] + path);
    } else {
      assert path'[0] == Frame(false, t.node, t.red, t.left);
    }
  }

  /** What memory holds after the pointer changes of Relink. */
  ghost predicate RelinkedIn(mem: Memory, mem': Memory, path: Path, t: Tree, spine: Path, s: Tree, header: Node)
    requires Succession(t, spine, s) && mem'.Keys == mem.Keys
    requires {s.node, t.node, t.left.node, t.right.node, Above(path, header), header} <= mem.Keys
    requires s.right.Branch? ==> s.right.node in mem
    requires spine != [] ==> spine[0].node in mem
  {
    var z, y, l, r, u, x := t.node, s.node, t.left.node, t.right.node, Above(path, header), Root(s.right);
    var p := if spine == [] then z else spine[0].node;
    && mem'[y] == Cell(u, l, if spine == [] then x else r, t.red)
    && mem'[l] == mem[l].(parent := y)
    && (spine != [] && r != p ==> mem'[r] == mem[r].(parent := y) && mem'[p] == mem[p].(left := x))
    && (spine != [] && r == p ==> mem'[r] == mem[r].(parent := y, left := x))
    && (x != null ==> mem'[x] == if spine == [] then mem[x] else mem[x].(parent := p))
    && PointsDown(mem, mem', path, y, header)
    && forall n | n in mem && n !in {z, y, l, r, u, p, x} :: mem'[n] == mem[n]
  }

  /** Relinking is taking the successor out of its place, then letting it take over the other place. */
  lemma RelinkedInTwoStages(mem: Memory, mem': Memory, path: Path, t: Tree, spine: Path, s: Tree, header: Node)
    requires Succession(t, spine, s) && SuccessorAt(mem, path, t, spine, s, header) && mem'.Keys == mem.Keys
    requires {s.node, t.node, t.left.node, t.right.node, Above(path, header), header} <= mem.Keys
    requires s.right.Branch? ==> s.right.node in mem
    requires spine != [] ==> spine[0].node in mem
    requires RelinkedIn(mem, mem', path, t, spine, s, header)
    requires Above(SuccessorPath(path, t, spine), header) in mem
    ensures TakenOver(HungIn(mem, SuccessorPath(path, t, spine), Root(s.right), header), mem', path,
                      WithoutSuccessor(t, spine, s), s.node, header)
  {
    if spine == [] {
      ChildRelinked(mem, mem', path, t, spine, s, header);
    } else {
      DescendantRelinked(mem, mem', path, t, spine, s, header);
    }
  }

  lemma ChildRelinked(mem: Memory, mem': Memory, path: Path, t: Tree, spine: Path, s: Tree, header: Node)
    requires Succession(t, spine, s) && SuccessorAt(mem, path, t, spine, s, header) && mem'.Keys == mem.Keys
    requires {s.node, t.node, t.left.node, t.right.node, Above(path, header), header} <= mem.Keys
    requires s.right.Branch? ==> s.right.node in mem
    requires spine != [] ==> spine[0].node in mem
    requires RelinkedIn(mem, mem', path, t, spine, s, header)
    requires Above(SuccessorPath(path, t, spine), header) in mem
    requires spine == []
    ensures TakenOver(HungIn(mem, SuccessorPath(path, t, spine), Root(s.right), header), mem', path,
                      WithoutSuccessor(t, spine, s), s.node, header)
  {
    assert SuccessorPath(path, t, spine)[0] == Frame(false, t.node, t.red, t.left);
  }

  lemma DescendantRelinked(mem: Memory, mem': Memory, path: Path, t: Tree, spine: Path, s: Tree, header: Node)
    requires Succession(t, spine, s) && SuccessorAt(mem, path, t, spine, s, header) && mem'.Keys == mem.Keys
    requires {s.node, t.node, t.left.node, t.right.node, Above(path, header), header} <= mem.Keys
    requires s.right.Branch? ==> s.right.node in mem
    requires spine != [] ==> spine[0].node in mem
    requires RelinkedIn(mem, mem', path, t, spine, s, header)
    requires Above(SuccessorPath(path, t, spine), header) in mem
    requires spine != []
    ensures TakenOver(HungIn(mem, SuccessorPath(path, t, spine), Root(s.right), header), mem', path,
                      WithoutSuccessor(t, spine, s), s.node, header)
  {
    assert SuccessorPath(path, t, spine)[0] == spine[0] && spine[0] in spine;
    PlugRoot(spine, s.right);
    PlugRoot(spine, s);
  }

  lemma LaidAtRelinked(mem: Memory, mem': Memory, path: Path, t: Tree, spine: Path, s: Tree, header: Node)
    requires Succession(t, spine, s) && LaidAt(mem, path, t, header) && mem'.Keys == mem.Keys
    requires {s.node, t.node, t.left.node, t.right.node, Above(path, header), header} <= mem.Keys
    requires s.right.Branch? ==> s.right.node in mem
    requires spine != [] ==> spine[0].node in mem
    requires RelinkedIn(mem, mem', path, t, spine, s, header)
    ensures LaidAt(mem', path, WithSuccessorOnTop(t, spine, s), header)
  {
    var t1, place := WithoutSuccessor(t, spine, s), SuccessorPath(path, t, spine);
    SuccessorPlace(mem, path, t, spine, s, header);
    LaidAtSpliced(mem, place, s, header);
    var m1 := HungIn(mem, place, Root(s.right), header);
    SuccessorPlace(m1, path, t, spine, s, header);
    SuccessorPointers(mem, path, t, spine, s, header);
    RelinkedInTwoStages(mem, mem', path, t, spine, s, header);
    WithoutSuccessorNodes(mem, path, t, spine, s, header);
    LaidAtTakenOver(m1, mem', path, t1, s.node, header);
  }

  lemma WithoutSuccessorNodes(mem: Memory, path: Path, t: Tree, spine: Path, s: Tree, header: Node)
    requires Succession(t, spine, s) && LaidAt(mem, path, t, header)
    ensures s.node !in Nodes(WithoutSuccessor(t, spine, s)) + PathNodes(path) + {header}
  {
    SuccessorPlace(mem, path, t, spine, s, header);
    PathNodesPart(spine, [Frame(false, t.node, t.red, t.left)] + path);
    PathNodesPart([Frame(false, t.node, t.red, t.left)], path);
    NodesPlug(spine, s.right);
    assert s.node in Nodes(s);
  }

  lemma LaidAtVacated(mem: Memory, mem': Memory, path: Path, t: Tree, spine: Path, s: Tree, header: Node)
    requires Succession(t, spine, s) && LaidAt(mem, path, t, header) && mem'.Keys == mem.Keys
    requires {s.node, t.node, t.left.node, t.right.node, Above(path, header), header} <= mem.Keys
    requires s.right.Branch? ==> s.right.node in mem
    requires spine != [] ==> spine[0].node in mem
    requires RelinkedIn(mem, mem', path, t, spine, s, header)
    ensures LaidAt(mem', VacatedPath(path, t, spine, s), s.right, header)
    ensures Above(VacatedPath(path, t, spine, s), header) == if spine == [] then s.node else spine[0].node
  {
    var f := Frame(false, s.node, t.red, t.left);
    LaidAtRelinked(mem, mem', path, t, spine, s, header);
    LaidAtChild(mem', f, path, Plug(spine, s.right), header);
    LaidAtPart(mem', spine, [f] + path, s.right, header);
  }

  /** The place the successor leaves, once it stands where the erased node was. */
  ghost function VacatedPath(path: Path, t: Tree, spine: Path, s: Tree): Path
    requires Succession(t, spine, s)
  {
    spine + ([Frame(false, s.node, t.red, t.left)] + path)
  }

  lemma SuccessorRelinkable(header: Node, nodes: set<Node>, path: Path, t: Tree, spine: Path, s: Tree)
    requires Succession(t, spine, s) && SuccessorAt(Snapshot(nodes), path, t, spine, s, header)
    ensures {t.node, s.node, header} <= nodes && Relinkable(t.node, s.node, header)
  {
  }

  /** Relinking, in terms of the place. */
  method RelinkIn(z: Node, y: Node, header: Node, ghost nodes: set<Node>, ghost path: Path, ghost t: Tree,
                  ghost spine: Path, ghost s: Tree)
      returns (x: Node?, xParent: Node)
    requires Succession(t, spine, s) && t.node == z && s.node == y
    requires SuccessorAt(Snapshot(nodes), path, t, spine, s, header)
    modifies nodes
    ensures {s.node, t.node, t.left.node, t.right.node, Above(path, header), header} <= nodes
    ensures (s.right.Branch? ==> s.right.node in nodes) && (spine != [] ==> spine[0].node in nodes)
    ensures RelinkedIn(old(Snapshot(nodes)), Snapshot(nodes), path, t, spine, s, header)
    ensures x == Root(s.right) && xParent == if spine == [] then y else spine[0].node
    ensures z.red == s.red
    ensures header.left == old(header.left) && header.right == old(header.right) && header.red == old(header.red)
  {
    SuccessorRelinkable(header, nodes, path, t, spine, s);
    x, xParent := Relink(z, y, header);
  }

  method RelinkAt(z: Node, y: Node, header: Node, ghost nodes: set<Node>, ghost path: Path, ghost t: Tree,
                  ghost spine: Path, ghost s: Tree)
      returns (x: Node?, xParent: Node)
    requires Succession(t, spine, s) && t.node == z && s.node == y
    requires LaidAt(Snapshot(nodes), path, t, header)
    modifies nodes
    ensures LaidAt(Snapshot(nodes), VacatedPath(path, t, spine, s), s.right, header)
    ensures x == Root(s.right) && xParent == Above(VacatedPath(path, t, spine, s), header)
    ensures z.red == s.red
    ensures header.left == old(header.left) && header.right == old(header.right) && header.red == old(header.red)
  {
    ghost var mem := Snapshot(nodes);
    SuccessorPointers(mem, path, t, spine, s, header);
    x, xParent := RelinkIn(z, y, header, nodes, path, t, spine, s);
    LaidAtVacated(mem, Snapshot(nodes), path, t, spine, s, header);
  }

  // ----- what unlinking does to order and balance -----

  lemma {:induction false} OutermostBounds(spine: Path)
    ensures AllToward(spine, true) ==> Before(spine) == []
    ensures AllToward(spine, false) ==> After(spine) == []
    decreases |spine|
  {
    if spine != [] {
      assert spine[0] in spine && forall f | f in spine[1..] :: f in spine;
      OutermostBounds(spine[1..]);
    }
  }

  lemma OutermostEnds(t: Tree, spine: Path, s: Tree, isLeft: bool)
    requires Outermost(t, spine, s, isLeft)
    ensures InOrder(t) != [] && s.node == if isLeft then InOrder(t)[0] else InOrder(t)[|InOrder(t)| - 1]
  {
    InOrderPlug(spine, s);
    OutermostBounds(spine);
    if isLeft {
      assert InOrder(s) == [s.node] + InOrder(s.right);
    } else {
      assert InOrder(s) == InOrder(s.left) + [s.node];
    }
  }

  lemma RemovedAt(s: seq<Node>, k: nat)
    requires NoRepeats(s) && k < |s|
    ensures Removed(s, s[..k] + s[k + 1..], s[k])
  {
  }

  lemma Without<T>(b: seq<T>, l: seq<T>, z: T, r: seq<T>, a: seq<T>)
    ensures var s, k := b + (l + [z] + r) + a, |b| + |l|;
      k < |s| && s[k] == z && s[..k] + s[k + 1..] == b + (l + r) + a
  {
  }

  /** Dropping the top node of a subtree with at most one child drops it from the order. */
  lemma SplicedOrder(path: Path, t: Tree)
    requires t.Branch? && (t.left == Leaf || t.right == Leaf) && NoRepeats(OrderAt(path, t))
    ensures Removed(OrderAt(path, t), OrderAt(path, OnlyChild(t)), t.node)
  {
    var l, r := InOrder(t.left), InOrder(t.right);
    Without(Before(path), l, t.node, r, After(path));
    RemovedAt(OrderAt(path, t), |Before(path)| + |l|);
    assert InOrder(OnlyChild(t)) == l + r;
  }

  /** The node that stands in for the erased one came right after it. */
  lemma MiddleRemoved(b: seq<Node>, l: seq<Node>, x: Node, r: seq<Node>, a: seq<Node>)
    ensures var o, k := b + (l + [x] + r) + a, |b| + |l|;
      o[k] == x && o[..k] + o[k + 1..] == b + (l + r) + a
  {
  }

  lemma RelinkedOrder(path: Path, t: Tree, spine: Path, s: Tree)
    requires Succession(t, spine, s) && NoRepeats(OrderAt(path, t))
    ensures Removed(OrderAt(path, t), OrderAt(VacatedPath(path, t, spine, s), s.right), t.node)
    ensures First(OrderAt(path, t), t.node) == First(OrderAt(VacatedPath(path, t, spine, s), s.right), t.node) != t.node
    ensures Last(OrderAt(path, t), t.node) == Last(OrderAt(VacatedPath(path, t, spine, s), s.right), t.node) != t.node
  {
    var b, l, a, r := Before(path), InOrder(t.left), After(path), InOrder(Plug(spine, s.right));
    var f := Frame(false, s.node, t.red, t.left);
    SuccessorOrder(t, spine, s);
    OrderAtPart(spine, [f] + path, s.right);
    assert ([f] + path)[1..] == path;
    InOrderFill([f] + path, Plug(spine, s.right));
    var o, o', k := OrderAt(path, t), OrderAt(VacatedPath(path, t, spine, s), s.right), |b| + |l|;
    assert o == b + (l + [t.node] + ([s.node] + r)) + a;
    assert o' == b + (l + [s.node] + r) + a;
    MiddleRemoved(b, l, t.node, [s.node] + r, a);
    assert l + [s.node] + r == l + ([s.node] + r);
    RemovedAt(o, k);
    assert l != [] by {
      assert t.left.Branch?;
    }
    assert o[0] == o'[0] && o[|o| - 1] == o'[|o'| - 1];
  }

  lemma NodeInFront(b: seq<Node>, l: seq<Node>, n: Node, r: seq<Node>, a: seq<Node>)
    requires b == [] && l == []
    ensures b + (l + [n] + r) + a == [n] + (b + r + a)
  {
  }

  lemma SuccessorOrder(t: Tree, spine: Path, s: Tree)
    requires Succession(t, spine, s)
    ensures InOrder(t.right) == [s.node] + InOrder(Plug(spine, s.right))
  {
    InOrderPlug(spine, s);
    InOrderPlug(spine, s.right);
    OutermostBounds(spine);
    NodeInFront(Before(spine), InOrder(s.left), s.node, InOrder(s.right), After(spine));
  }

  /** Two paths that differ only in the nodes they pass. */
  ghost predicate SameShape(path: Path, path': Path) {
    |path| == |path'| && forall i | 0 <= i < |path| :: path'[i] == path[i].(node := path'[i].node)
  }

  lemma {:induction false} BalancedAroundSameShape(path: Path, path': Path, h: nat)
    requires SameShape(path, path') && BalancedAround(path, h)
    ensures BalancedAround(path', h)
    decreases |path|
  {
    if path != [] {
      assert |path| > 1 ==> path'[1] == path[1].(node := path'[1].node);
      BalancedAroundSameShape(path[1..], path'[1..], if path[0].red then h else h + 1);
    }
  }

  /** Losing a red node keeps the tree red-black; losing a black one leaves the place deficient. */
  lemma UnlinkedBalance(path: Path, path': Path, t: Tree) returns (h: nat)
    requires RedBlack(Plug(path, t)) && t.Branch? && (t.left == Leaf || t.right == Leaf)
    requires SameShape(path, path')
    ensures t.red ==> RedBlack(Plug(path', OnlyChild(t)))
    ensures !t.red ==> Deficient(path', OnlyChild(t), h)
  {
    BalancedAt(path, t);
    var k: nat :| Balanced(t, k) && BalancedAround(path, k);
    BalancedAroundSameShape(path, path', k);
    if t.red {
      h := k;
      BalancedPlug(path', OnlyChild(t), k);
    } else {
      h := k - 1;
    }
  }

  // ----- the two ends -----

  lemma EndsWithout(b: seq<Node>, l: seq<Node>, z: Node, r: seq<Node>, a: seq<Node>, header: Node)
    requires NoRepeats(b + (l + [z] + r) + a)
    ensures var s, s' := b + (l + [z] + r) + a, b + (l + r) + a;
      && (First(s, header) == z <==> b + l == [])
      && (Last(s, header) == z <==> r + a == [])
      && First(s', header) == (if b + l == [] then First(r + a, header) else First(s, header))
      && Last(s', header) == (if r + a == [] then Last(b + l, header) else Last(s, header))
  {
    var s, s', k := b + (l + [z] + r) + a, b + (l + r) + a, |b| + |l|;
    Without(b, l, z, r, a);
    assert s' == (b + l) + (r + a) && s[..k] == b + l && s[k + 1..] == r + a;
    assert s[0] == z ==> k == 0;
    assert s[|s| - 1] == z ==> k == |s| - 1;
  }

  /** The first (last) node once the top node of `t`, itself the first (last), is gone. */
  lemma NewEnds(path: Path, t: Tree, header: Node)
    requires t.Branch? && (t.left == Leaf || t.right == Leaf) && NoRepeats(OrderAt(path, t))
    ensures var s, s' := OrderAt(path, t), OrderAt(path, OnlyChild(t));
      && First(s', header) == (if First(s, header) != t.node then First(s, header)
                               else if t.right == Leaf then Above(path, header)
                               else First(InOrder(t.right), header))
      && Last(s', header) == (if Last(s, header) != t.node then Last(s, header)
                              else if t.left == Leaf then Above(path, header)
                              else Last(InOrder(t.left), header))
      && (First(s, header) == t.node ==> t.left == Leaf)
      && (Last(s, header) == t.node ==> t.right == Leaf)
  {
    var l, r := InOrder(t.left), InOrder(t.right);
    EndsWithout(Before(path), l, t.node, r, After(path), header);
    assert InOrder(OnlyChild(t)) == l + r;
    assert t.left.Branch? ==> l != [];
    assert t.right.Branch? ==> r != [];
    assert path != [] && path[0].isLeft ==> After(path)[0] == path[0].node;
    assert path != [] && !path[0].isLeft ==> Before(path)[|Before(path)| - 1] == path[0].node;
  }

  lemma LaidAtHeaderEnds(mem: Memory, mem': Memory, path: Path, t: Tree, header: Node)
    requires LaidAt(mem, path, t, header) && mem'.Keys == mem.Keys && header in mem
    requires mem'[header].parent == mem[header].parent
    requires forall n | n in mem && n != header :: mem'[n] == mem[n]
    ensures LaidAt(mem', path, t, header)
  {
    LaidInMemory(mem, path, t, header);
    LaidUnchanged(mem, mem', t, Above(path, header));
    LaidAroundUnchanged(mem, mem', path, Root(t), header);
  }

  /** Moves the header's leftmost and rightmost away from `z`, whose only child is now `x` at `path` (lines 534-549). */
  method UpdateEnds(z: Node, x: Node?, header: Node, ghost nodes: set<Node>, ghost path: Path, ghost c: Tree)
    requires LaidAt(Snapshot(nodes), path, c, header) && x == Root(c)
    requires z != header && z.parent != null && header in nodes
    requires header.left == z && z.right != null ==> c.Branch?
    requires header.right == z && z.left != null ==> c.Branch?
    modifies header
    ensures LaidAt(Snapshot(nodes), path, c, header)
    ensures header.left == if old(header.left) != z then old(header.left)
                           else if z.right == null then z.parent else First(InOrder(c), header)
    ensures header.right == if old(header.right) != z then old(header.right)
                            else if z.left == null then z.parent else Last(InOrder(c), header)
    ensures header.red == old(header.red)
  {
    ghost var mem := Snapshot(nodes);
    if header.left == z {
      if z.right == null {
        header.left := z.parent;
      } else {
        ghost var spine, s;
        header.left, spine, s := Minimum(x, header, nodes, path, c);
      }
    }
    LaidAtHeaderEnds(mem, Snapshot(nodes), path, c, header);
    if header.right == z {
      if z.left == null {
        header.right := z.parent;
      } else {
        ghost var spine, s;
        header.right, spine, s := Maximum(x, header, nodes, path, c);
      }
    }
    LaidAtHeaderEnds(mem, Snapshot(nodes), path, c, header);
  }

  /** Unlinks a node that has at most one child. */
  method EraseSingle(z: Node, header: Node, ghost nodes: set<Node>, ghost path: Path, ghost t: Tree)
    returns (x: Node?, xParent: Node)
    requires LaidAt(Snapshot(nodes), path, t, header) && t.Branch? && t.node == z && (t.left == Leaf || t.right == Leaf)
    requires NoRepeats(OrderAt(path, t))
    requires header.left == First(OrderAt(path, t), header) && header.right == Last(OrderAt(path, t), header)
    modifies nodes
    ensures LaidAt(Snapshot(nodes), path, OnlyChild(t), header)
    ensures x == Root(OnlyChild(t)) && xParent == Above(path, header) && z.red == t.red
    ensures header.left == First(OrderAt(path, OnlyChild(t)), header)
            && header.right == Last(OrderAt(path, OnlyChild(t)), header)
    ensures header.red == old(header.red)
  {
    NodePointers(Snapshot(nodes), path, t, header);
    NewEnds(path, t, header);
    x, xParent := SpliceAt(z, header, nodes, path, t);
    UpdateEnds(z, x, header, nodes, path, OnlyChild(t));
  }

  /** Unlinks a node that has two children, by way of its successor. */
  method EraseDouble(z: Node, header: Node, ghost nodes: set<Node>, ghost path: Path, ghost t: Tree)
      returns (x: Node?, xParent: Node, ghost spine: Path, ghost s: Tree)
    requires LaidAt(Snapshot(nodes), path, t, header) && t.Branch? && t.node == z && t.left.Branch? && t.right.Branch?
    modifies nodes
    ensures Succession(t, spine, s)
    ensures LaidAt(Snapshot(nodes), VacatedPath(path, t, spine, s), s.right, header)
    ensures x == Root(s.right) && xParent == Above(VacatedPath(path, t, spine, s), header) && z.red == s.red
    ensures header.left == old(header.left) && header.right == old(header.right) && header.red == old(header.red)
  {
    NodePointers(Snapshot(nodes), path, t, header);
    ghost var f := Frame(false, t.node, t.red, t.left);
    LaidAtChild(Snapshot(nodes), f, path, t.right, header);
    var y;
    y, spine, s := Minimum(z.right, header, nodes, [f] + path, t.right);
    x, xParent := RelinkAt(z, y, header, nodes, path, t, spine, s);
  }

  /** Removing one element of a sequence without repeats. */
  lemma RemovedElements(s: seq<Node>, s': seq<Node>, z: Node)
    requires NoRepeats(s) && Removed(s, s', z)
    ensures Elements(s') == Elements(s) - {z}
  {
    var k :| 0 <= k < |s| && s[k] == z;
    ElementsWithout(s, k);
  }

  lemma ElementsWithout(s: seq<Node>, k: nat)
    requires NoRepeats(s) && k < |s|
    ensures Elements(s[..k] + s[k + 1..]) == Elements(s) - {s[k]}
  {
    var s' := s[..k] + s[k + 1..];
    assert forall i | 0 <= i < |s'| :: s'[i] == s[if i < k then i else i + 1];
    forall n | n in Elements(s) - {s[k]} ensures n in Elements(s') {
      var i :| 0 <= i < |s| && s[i] == n;
      assert s'[if i < k then i else i - 1] == n;
    }
  }

  /** What unlinking a node leaves: the places and balance of what remains, the order without the
      node, and the header's ends. */
  ghost predicate Unlinked(mem: Memory, tree: Tree, z: Node, zRed: bool, path: Path, t: Tree, h: nat, header: Node) {
    && LaidAt(mem, path, t, header)
    && Removed(InOrder(tree), OrderAt(path, t), z)
    && (if zRed then RedBlack(Plug(path, t)) else Deficient(path, t, h))
  }

  lemma SingleUnlinked(mem: Memory, tree: Tree, z: Node, path: Path, t: Tree, header: Node) returns (h: nat)
    requires RedBlack(tree) && Distinct(tree) && Plug(path, t) == tree
    requires t.Branch? && t.node == z && (t.left == Leaf || t.right == Leaf)
    requires LaidAt(mem, path, OnlyChild(t), header)
    ensures Unlinked(mem, tree, z, t.red, path, OnlyChild(t), h, header)
  {
    InOrderPlug(path, t);
    InOrderNoRepeats(tree);
    SplicedOrder(path, t);
    h := UnlinkedBalance(path, path, t);
  }

  lemma DoubleUnlinked(mem: Memory, tree: Tree, z: Node, path: Path, t: Tree, spine: Path, s: Tree, header: Node)
    returns (h: nat)
    requires RedBlack(tree) && Distinct(tree) && Plug(path, t) == tree
    requires Succession(t, spine, s) && t.node == z
    requires LaidAt(mem, VacatedPath(path, t, spine, s), s.right, header)
    ensures Unlinked(mem, tree, z, s.red, VacatedPath(path, t, spine, s), s.right, h, header)
    ensures var o' := OrderAt(VacatedPath(path, t, spine, s), s.right);
      First(o', header) == First(InOrder(tree), header) && Last(o', header) == Last(InOrder(tree), header)
  {
    InOrderPlug(path, t);
    InOrderNoRepeats(tree);
    RelinkedOrder(path, t, spine, s);
    h := DoubleBalance(path, t, spine, s);
  }

  lemma DoubleBalance(path: Path, t: Tree, spine: Path, s: Tree) returns (h: nat)
    requires Succession(t, spine, s) && RedBlack(Plug(path, t))
    ensures s.red ==> RedBlack(Plug(VacatedPath(path, t, spine, s), s.right))
    ensures !s.red ==> Deficient(VacatedPath(path, t, spine, s), s.right, h)
  {
    var f := [Frame(false, t.node, t.red, t.left)];
    var place, vacated := SuccessorPath(path, t, spine), VacatedPath(path, t, spine, s);
    PlugPart(spine, f + path, s);
    assert (f + path)[1..] == path;
    assert SameShape(place, vacated);
    h := UnlinkedBalance(place, vacated, s);
  }

  lemma {:induction false} PlugPart(inner: Path, outer: Path, t: Tree)
    ensures Plug(inner + outer, t) == Plug(outer, Plug(inner, t))
    decreases |inner|
  {
    if inner == [] {
      assert inner + outer == outer;
    } else {
      assert (inner + outer)[1..] == inner[1..] + outer;
      PlugPart(inner[1..], outer, Fill(inner[0], t));
    }
  }

  /** Takes `z` out of the tree (lines 479-550). */
  method Unlink(z: Node, header: Node, ghost tree: Tree)
    returns (x: Node?, xParent: Node, ghost path: Path, ghost t: Tree, ghost h: nat)
    requires RbTree(tree, header) && z in Nodes(tree)
    modifies TreeNodes(tree, header)
    ensures Unlinked(Snapshot(TreeNodes(tree, header)), tree, z, z.red, path, t, h, header)
    ensures x == Root(t) && xParent == Above(path, header)
    ensures header.left == First(OrderAt(path, t), header) && header.right == Last(OrderAt(path, t), header)
            && header.red
  {
    ghost var nodes := TreeNodes(tree, header);
    ghost var place := PathTo([], tree, z);
    path, t := place.0, place.1;
    LaidAtPlug(Snapshot(nodes), path, t, header);
    InOrderPlug(path, t);
    InOrderNoRepeats(tree);
    NodePointers(Snapshot(nodes), path, t, header);
    if z.left == null || z.right == null {
      x, xParent := EraseSingle(z, header, nodes, path, t);
      h := SingleUnlinked(Snapshot(nodes), tree, z, path, t, header);
      t := OnlyChild(t);
    } else {
      ghost var spine, s;
      x, xParent, spine, s := EraseDouble(z, header, nodes, path, t);
      h := DoubleUnlinked(Snapshot(nodes), tree, z, path, t, spine, s, header);
      path, t := VacatedPath(path, t, spine, s), s.right;
    }
  }

  /** Erases `z` and restores the red-black conditions; the node returned is the one to free. */
  method RebalanceForErase(z: Node, header: Node, ghost tree: Tree) returns (y: Node, ghost tree': Tree)
    requires RbTree(tree, header) && z in Nodes(tree)
    modifies TreeNodes(tree, header)
    ensures y == z
    ensures RbTree(tree', header) && Nodes(tree') == Nodes(tree) - {z}
    ensures Removed(InOrder(tree), InOrder(tree'), z)
  {
    ghost var nodes := TreeNodes(tree, header);
    var x, xParent;
    ghost var path, t, h;
    x, xParent, path, t, h := Unlink(z, header, tree);
    y := z;
    InOrderPlug(path, t);
    if !y.red {
      tree' := RebalanceAfterErase(x, xParent, header, nodes, path, t, h);
    } else {
      LaidAtPlug(Snapshot(nodes), path, t, header);
      tree' := Plug(path, t);
    }
    InOrderElements(tree);
    InOrderElements(tree');
    InOrderNoRepeats(tree);
    RemovedElements(InOrder(tree), InOrder(tree'), z);
    LaidAtFewerNodes(nodes, tree', header);
  }

  /** A layout does not depend on nodes outside it. */
  lemma LaidAtFewerNodes(nodes: set<Node>, tree: Tree, header: Node)
    requires LaidAt(Snapshot(nodes), [], tree, header) && TreeNodes(tree, header) <= nodes
    ensures LaidAt(Snapshot(TreeNodes(tree, header)), [], tree, header)
  {
    LaidUnchanged(Snapshot(nodes), Snapshot(TreeNodes(tree, header)), tree, header);
  }
}
