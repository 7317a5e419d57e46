/** Tree shapes and how linked nodes lay them out in memory.

    The library keeps a red-black tree as nodes linked by parent, left and right pointers,
    with a header node standing above the root. Here a tree is a value (Tree), a place inside
    it is a list of Frames from that place up to the root, and memory is a map from nodes to
    the contents of their four fields. Laid says that memory lays out a given tree. */
module RbShapes {

  class Node {
    var parent: Node?
    var left: Node?
    var right: Node?
    var red: bool

    constructor ()
      ensures parent == null && left == null && right == null && !red
    {
      parent, left, right, red := null, null, null, false;
    }
  }

  /** The contents of one node's fields. */
  datatype Cell = Cell(parent: Node?, left: Node?, right: Node?, red: bool)

  type Memory = map<Node, Cell>

  ghost function CellOf(n: Node): Cell
    reads n
  {
    Cell(n.parent, n.left, n.right, n.red)
  }

  ghost function Snapshot(nodes: set<Node>): Memory
    reads nodes
  {
    map n | n in nodes :: CellOf(n)
  }

  datatype Tree = Leaf | Branch(left: Tree, node: Node, red: bool, right: Tree)

  /** One step from a subtree up to its parent: the subtree is the left child iff `isLeft`,
      and `sibling` is the parent's other child. */
  datatype Frame = Frame(isLeft: bool, node: Node, red: bool, sibling: Tree)

  /** The steps from a place in a tree up to the root, innermost first. */
  type Path = seq<Frame>

  function Root(t: Tree): Node? {
    if t.Leaf? then null else t.node
  }

  function InOrder(t: Tree): seq<Node> {
    match t
    case Leaf => []
    case Branch(l, n, _, r) => InOrder(l) + [n] + InOrder(r)
  }

  function Nodes(t: Tree): set<Node> {
    match t
    case Leaf => {}
    case Branch(l, n, _, r) => Nodes(l) + {n} + Nodes(r)
  }

  function PathNodes(path: Path): set<Node> {
    if path == [] then {}
    else {path[0].node} + Nodes(path[0].sibling) + PathNodes(path[1..])
  }

  /** No node is used twice. */
  ghost predicate Distinct(t: Tree) {
    match t
    case Leaf => true
    case Branch(l, n, _, r) =>
      n !in Nodes(l) && n !in Nodes(r) && Nodes(l) !! Nodes(r) && Distinct(l) && Distinct(r)
  }

  ghost predicate DistinctPath(path: Path) {
    path != [] ==>
      var f := path[0];
      && f.node !in Nodes(f.sibling)
      && f.node !in PathNodes(path[1..])
      && Nodes(f.sibling) !! PathNodes(path[1..])
      && Distinct(f.sibling)
      && DistinctPath(path[1..])
  }

  /** The part of the in-order sequence before (after) everything below a path. */
  function Before(path: Path): seq<Node> {
    if path == [] then []
    else Before(path[1..]) + if path[0].isLeft then [] else InOrder(path[0].sibling) + [path[0].node]
  }

  function After(path: Path): seq<Node> {
    if path == [] then []
    else (if path[0].isLeft then [path[0].node] + InOrder(path[0].sibling) else []) + After(path[1..])
  }

  /** The in-order sequence of the whole tree that has `t` at the end of `path`. */
  function OrderAt(path: Path, t: Tree): seq<Node> {
    Before(path) + InOrder(t) + After(path)
  }

  function Fill(f: Frame, t: Tree): Tree {
    if f.isLeft then Branch(t, f.node, f.red, f.sibling) else Branch(f.sibling, f.node, f.red, t)
  }

  /** The whole tree with `t` at the end of `path`. */
  function Plug(path: Path, t: Tree): Tree
    decreases |path|
  {
    if path == [] then t else Plug(path[1..], Fill(path[0], t))
  }

  /** The node just above a place: its parent node, or the header above the root. */
  function Above(path: Path, header: Node): Node {
    if path == [] then header else path[0].node
  }

  /** `mem` lays out `t`, with `parent` above its root. */
  ghost predicate Laid(mem: Memory, t: Tree, parent: Node) {
    match t
    case Leaf => true
    case Branch(l, n, red, r) =>
      && n in mem
      && mem[n] == Cell(parent, Root(l), Root(r), red)
      && Laid(mem, l, n)
      && Laid(mem, r, n)
  }

  /** `mem` lays out everything around the place `path`, where the pointer down to that place
      holds `hole`; the header's parent field holds the root. */
  ghost predicate LaidAround(mem: Memory, path: Path, hole: Node?, header: Node) {
    if path == [] then header in mem && mem[header].parent == hole
    else
      var f := path[0];
      && f.node in mem
      && mem[f.node] == Cell(Above(path[1..], header),
                             if f.isLeft then hole else Root(f.sibling),
                             if f.isLeft then Root(f.sibling) else hole,
                             f.red)
      && Laid(mem, f.sibling, f.node)
      && LaidAround(mem, path[1..], f.node, header)
  }

  ghost predicate DistinctAt(path: Path, t: Tree, header: Node) {
    && Distinct(t)
    && DistinctPath(path)
    && Nodes(t) !! PathNodes(path)
    && header !in Nodes(t)
    && header !in PathNodes(path)
  }

  /** `mem` lays out the tree that has `t` at the end of `path`, below `header`, and no node is used twice. */
  ghost predicate LaidAt(mem: Memory, path: Path, t: Tree, header: Node) {
    && DistinctAt(path, t, header)
    && Laid(mem, t, Above(path, header))
    && LaidAround(mem, path, Root(t), header)
  }

  // ----- memory changes that leave a layout alone -----

  lemma {:induction false} LaidUnchanged(mem: Memory, mem': Memory, t: Tree, parent: Node)
    requires Laid(mem, t, parent)
    requires forall n | n in Nodes(t) :: n in mem' && (n in mem ==> mem'[n] == mem[n])
    ensures Laid(mem', t, parent)
  {
    match t
    case Leaf =>
    case Branch(l, n, red, r) =>
      assert n in Nodes(t);
      LaidUnchanged(mem, mem', l, n);
      LaidUnchanged(mem, mem', r, n);
  }

  /** Only the root's parent field changed, so the tree now hangs below `parent'`. */
  lemma {:induction false} LaidReparented(mem: Memory, mem': Memory, t: Tree, parent: Node, parent': Node)
    requires Laid(mem, t, parent)
    requires Distinct(t)
    requires forall n | n in Nodes(t) ::
               n in mem' && (n in mem ==> mem'[n] == if n == Root(t) then mem[n].(parent := parent') else mem[n])
    ensures Laid(mem', t, parent')
  {
    match t
    case Leaf =>
    case Branch(l, n, red, r) =>
      assert n in Nodes(t);
      LaidUnchanged(mem, mem', l, n);
      LaidUnchanged(mem, mem', r, n);
  }

  lemma {:induction false} LaidAroundUnchanged(mem: Memory, mem': Memory, path: Path, hole: Node?, header: Node)
    requires LaidAround(mem, path, hole, header)
    requires forall n | n in PathNodes(path) :: n in mem' && (n in mem ==> mem'[n] == mem[n])
    requires header in mem' && header in mem && mem'[header].parent == mem[header].parent
    ensures LaidAround(mem', path, hole, header)
    decreases |path|
  {
    if path != [] {
      assert path[0].node in PathNodes(path);
      LaidUnchanged(mem, mem', path[0].sibling, path[0].node);
      LaidAroundUnchanged(mem, mem', path[1..], path[0].node, header);
    }
  }

  /** The one pointer down to the place now holds `v`; only the header's parent field matters above the root. */
  ghost predicate PointsDown(mem: Memory, mem': Memory, path: Path, v: Node?, header: Node)
    requires header in mem && header in mem' && Above(path, header) in mem && Above(path, header) in mem'
  {
    if path == [] then mem'[header].parent == v
    else
      var u := path[0].node;
      && mem'[header].parent == mem[header].parent
      && mem'[u] == if path[0].isLeft then mem[u].(left := v) else mem[u].(right := v)
  }

  /** Redirecting the one pointer down to the place keeps everything around it laid out. */
  lemma {:induction false} LaidAroundRedirected(mem: Memory, mem': Memory, path: Path, hole: Node?,
                                                hole': Node?, header: Node)
    requires LaidAround(mem, path, hole, header)
    requires DistinctPath(path) && header !in PathNodes(path)
    requires header in mem && header in mem' && Above(path, header) in mem && Above(path, header) in mem'
    requires PointsDown(mem, mem', path, hole', header)
    requires forall n | n in PathNodes(path) && n != Above(path, header) ::
               n in mem' && (n in mem ==> mem'[n] == mem[n])
    ensures LaidAround(mem', path, hole', header)
  {
    if path != [] {
      var f := path[0];
      LaidUnchanged(mem, mem', f.sibling, f.node);
      LaidAroundUnchanged(mem, mem', path[1..], f.node, header);
    }
  }

  /** Replacing the subtree at a place: enough that the new subtree is laid out and that the one
      pointer down to the place was redirected. */
  lemma LaidAtReplaced(mem: Memory, mem': Memory, path: Path, t: Tree, t': Tree, header: Node)
    requires LaidAt(mem, path, t, header)
    requires DistinctAt(path, t', header)
    requires header in mem && header in mem' && Above(path, header) in mem && Above(path, header) in mem'
    requires Laid(mem', t', Above(path, header))
    requires PointsDown(mem, mem', path, Root(t'), header)
    requires forall n | n in PathNodes(path) && n != Above(path, header) ::
               n in mem' && (n in mem ==> mem'[n] == mem[n])
    ensures LaidAt(mem', path, t', header)
  {
    LaidAroundRedirected(mem, mem', path, Root(t), Root(t'), header);
  }

  // ----- a layout's nodes are all in memory -----

  lemma {:induction false} LaidTreeInMemory(mem: Memory, t: Tree, parent: Node)
    requires Laid(mem, t, parent)
    ensures Nodes(t) <= mem.Keys
  {
    match t
    case Leaf =>
    case Branch(l, n, _, r) =>
      LaidTreeInMemory(mem, l, n);
      LaidTreeInMemory(mem, r, n);
  }

  lemma {:induction false} LaidPathInMemory(mem: Memory, path: Path, hole: Node?, header: Node)
    requires LaidAround(mem, path, hole, header)
    ensures PathNodes(path) + {header} <= mem.Keys
    decreases |path|
  {
    if path != [] {
      LaidTreeInMemory(mem, path[0].sibling, path[0].node);
      LaidPathInMemory(mem, path[1..], path[0].node, header);
    }
  }

  lemma LaidInMemory(mem: Memory, path: Path, t: Tree, header: Node)
    requires LaidAt(mem, path, t, header)
    ensures PathNodes(path) + Nodes(t) + {header} <= mem.Keys
  {
    LaidTreeInMemory(mem, t, Above(path, header));
    LaidPathInMemory(mem, path, Root(t), header);
  }

  lemma {:induction false} HeaderHoldsRoot(mem: Memory, path: Path, hole: Node?, header: Node)
    requires LaidAround(mem, path, hole, header)
    ensures header in mem
    ensures if path == [] then mem[header].parent == hole else mem[header].parent in PathNodes(path)
    decreases |path|
  {
    if path != [] {
      HeaderHoldsRoot(mem, path[1..], path[0].node, header);
    }
  }

  // ----- moving the place along the tree -----

  lemma LaidAtUp(mem: Memory, path: Path, t: Tree, header: Node)
    requires path != []
    ensures LaidAt(mem, path, t, header) <==> LaidAt(mem, path[1..], Fill(path[0], t), header)
  {
    var f := path[0];
    assert Nodes(Fill(f, t)) == Nodes(t) + {f.node} + Nodes(f.sibling);
    assert PathNodes(path) == {f.node} + Nodes(f.sibling) + PathNodes(path[1..]);
  }

  lemma {:induction false} LaidAtPlug(mem: Memory, path: Path, t: Tree, header: Node)
    ensures LaidAt(mem, path, t, header) <==> LaidAt(mem, [], Plug(path, t), header)
    decreases |path|
  {
    if path != [] {
      LaidAtUp(mem, path, t, header);
      LaidAtPlug(mem, path[1..], Fill(path[0], t), header);
    }
  }

  lemma {:induction false} InOrderPlug(path: Path, t: Tree)
    ensures InOrder(Plug(path, t)) == OrderAt(path, t)
    decreases |path|
  {
    if path != [] {
      InOrderPlug(path[1..], Fill(path[0], t));
      InOrderFill(path, t);
    }
  }

  lemma Regrouped<T>(b: seq<T>, o: seq<T>, n: seq<T>, s: seq<T>, a: seq<T>)
    ensures b + (o + n + s) + a == b + o + (n + s + a)
    ensures b + (s + n + o) + a == b + (s + n) + o + a
  {
  }

  lemma InOrderFill(path: Path, t: Tree)
    requires path != []
    ensures OrderAt(path[1..], Fill(path[0], t)) == OrderAt(path, t)
  {
    var f, a := path[0], After(path[1..]);
    Regrouped(Before(path[1..]), InOrder(t), [f.node], InOrder(f.sibling), a);
    if f.isLeft {
      assert Before(path) == Before(path[1..]) + [] == Before(path[1..]);
    } else {
      assert After(path) == [] + a == a;
    }
  }

  lemma {:induction false} NodesPlug(path: Path, t: Tree)
    ensures Nodes(Plug(path, t)) == PathNodes(path) + Nodes(t)
    decreases |path|
  {
    if path != [] {
      NodesPlug(path[1..], Fill(path[0], t));
    }
  }

  function Elements(s: seq<Node>): set<Node> {
    set n | n in s
  }

  lemma {:induction false} InOrderElements(t: Tree)
    ensures Elements(InOrder(t)) == Nodes(t)
  {
    match t
    case Leaf =>
    case Branch(l, x, _, r) =>
      InOrderElements(l);
      InOrderElements(r);
      assert Elements(InOrder(t)) == Elements(InOrder(l)) + {x} + Elements(InOrder(r));
  }

  /** The place of a node below `path`. */
  ghost function PathTo(path: Path, t: Tree, n: Node): (r: (Path, Tree))
    requires n in Nodes(t)
    ensures r.1.Branch? && r.1.node == n
    decreases t
    ensures Plug(r.0, r.1) == Plug(path, t)
  {
    if t.node == n then (path, t)
    else if n in Nodes(t.left) then PathTo([Frame(true, t.node, t.red, t.right)] + path, t.left, n)
    else PathTo([Frame(false, t.node, t.red, t.left)] + path, t.right, n)
  }

  // ----- rotations -----

  function RotatedLeft(t: Tree): Tree
    requires t.Branch? && t.right.Branch?
  {
    Branch(Branch(t.left, t.node, t.red, t.right.left), t.right.node, t.right.red, t.right.right)
  }

  function RotatedRight(t: Tree): Tree
    requires t.Branch? && t.left.Branch?
  {
    Branch(t.left.left, t.left.node, t.left.red, Branch(t.left.right, t.node, t.red, t.right))
  }

  lemma RotationsKeepOrder(t: Tree)
    requires t.Branch?
    ensures t.right.Branch? ==> InOrder(RotatedLeft(t)) == InOrder(t) && Nodes(RotatedLeft(t)) == Nodes(t)
    ensures t.left.Branch? ==> InOrder(RotatedRight(t)) == InOrder(t) && Nodes(RotatedRight(t)) == Nodes(t)
  {
    if t.right.Branch? {
      var l, m, r := t.left, t.right.left, t.right.right;
      JoinedOrder(InOrder(l), t.node, InOrder(m), t.right.node, InOrder(r));
      JoinedNodes(Nodes(l), {t.node}, Nodes(m), {t.right.node}, Nodes(r));
    }
    if t.left.Branch? {
      var l, m, r := t.left.left, t.left.right, t.right;
      JoinedOrder(InOrder(l), t.left.node, InOrder(m), t.node, InOrder(r));
      JoinedNodes(Nodes(l), {t.left.node}, Nodes(m), {t.node}, Nodes(r));
    }
  }

  /** Three subtrees and the two nodes between them, joined from the left or from the right. */
  lemma JoinedOrder(a: seq<Node>, n: Node, b: seq<Node>, m: Node, c: seq<Node>)
    ensures (a + [n] + b) + [m] + c == a + [n] + (b + [m] + c)
  {
  }

  lemma JoinedNodes(a: set<Node>, n: set<Node>, b: set<Node>, m: set<Node>, c: set<Node>)
    ensures (a + n + b) + m + c == a + n + (b + m + c)
  {
  }

  /** What memory holds at the nodes of `t` after the pointer changes of a left rotation. */
  ghost predicate LeftRotationAt(mem: Memory, mem': Memory, t: Tree, parent: Node)
    requires t.Branch? && t.right.Branch?
    requires Nodes(t) <= mem.Keys && Nodes(t) <= mem'.Keys
  {
    var x, y, b := t.node, t.right.node, t.right.left;
    assert y in Nodes(t.right) && Nodes(b) <= Nodes(t.right);
    && mem'[x] == mem[x].(parent := y, right := Root(b))
    && mem'[y] == mem[y].(parent := parent, left := x)
    && (b.Branch? ==> mem'[b.node] == mem[b.node].(parent := x))
    && forall n | n in Nodes(t) && n != x && n != y && n != Root(b) :: mem'[n] == mem[n]
  }

  ghost predicate RightRotationAt(mem: Memory, mem': Memory, t: Tree, parent: Node)
    requires t.Branch? && t.left.Branch?
    requires Nodes(t) <= mem.Keys && Nodes(t) <= mem'.Keys
  {
    var x, y, b := t.node, t.left.node, t.left.right;
    assert y in Nodes(t.left) && Nodes(b) <= Nodes(t.left);
    && mem'[x] == mem[x].(parent := y, left := Root(b))
    && mem'[y] == mem[y].(parent := parent, right := x)
    && (b.Branch? ==> mem'[b.node] == mem[b.node].(parent := x))
    && forall n | n in Nodes(t) && n != x && n != y && n != Root(b) :: mem'[n] == mem[n]
  }

  lemma LaidRotatedLeft(mem: Memory, mem': Memory, t: Tree, parent: Node)
    requires Laid(mem, t, parent) && Distinct(t)
    requires t.Branch? && t.right.Branch? && Nodes(t) <= mem.Keys && Nodes(t) <= mem'.Keys
    requires LeftRotationAt(mem, mem', t, parent)
    ensures Laid(mem', RotatedLeft(t), parent) && Distinct(RotatedLeft(t))
  {
    var x, y := t.node, t.right.node;
    assert Laid(mem, t.right, x) && Distinct(t.right);
    LaidUnchanged(mem, mem', t.left, x);
    LaidUnchanged(mem, mem', t.right.right, y);
    LaidReparented(mem, mem', t.right.left, y, x);
  }

  lemma LaidRotatedRight(mem: Memory, mem': Memory, t: Tree, parent: Node)
    requires Laid(mem, t, parent) && Distinct(t)
    requires t.Branch? && t.left.Branch? && Nodes(t) <= mem.Keys && Nodes(t) <= mem'.Keys
    requires RightRotationAt(mem, mem', t, parent)
    ensures Laid(mem', RotatedRight(t), parent) && Distinct(RotatedRight(t))
  {
    var x, y := t.node, t.left.node;
    assert Laid(mem, t.left, x) && Distinct(t.left);
    LaidUnchanged(mem, mem', t.right, x);
    LaidUnchanged(mem, mem', t.left.left, y);
    LaidReparented(mem, mem', t.left.right, y, x);
  }

  /** Where the pointers of a left rotation lead. */
  lemma LeftRotationPointers(mem: Memory, path: Path, t: Tree, header: Node)
    requires t.Branch? && t.right.Branch?
    requires LaidAt(mem, path, t, header)
    ensures var x, y, b, u := t.node, t.right.node, t.right.left, Above(path, header);
      && {x, y, u, header} + Nodes(b) + Nodes(t) <= mem.Keys
      && x != y && u != x && u != y && x != header && y != header && x !in Nodes(b) && y !in Nodes(b)
      && u !in Nodes(b) && header !in Nodes(b)
      && mem[x] == Cell(u, Root(t.left), y, t.red)
      && mem[y].left == Root(b)
      && (b.Branch? ==> b.node in Nodes(b))
      && (mem[header].parent == x <==> path == [])
      && (path != [] ==>
            u != header && (mem[u].left == x <==> path[0].isLeft) && (mem[u].right == x <==> !path[0].isLeft))
  {
    LaidInMemory(mem, path, t, header);
    HeaderHoldsRoot(mem, path, t.node, header);
    assert Laid(mem, t.right, t.node) && Distinct(t.right);
    assert path != [] && path[0].sibling.Branch? ==> path[0].sibling.node in PathNodes(path);
  }

  lemma LaidAtRotatedLeft(mem: Memory, mem': Memory, path: Path, t: Tree, header: Node)
    requires t.Branch? && t.right.Branch? && mem'.Keys == mem.Keys
             && Nodes(t) + {Above(path, header), header} <= mem.Keys
    requires LaidAt(mem, path, t, header)
    requires LeftRotationAt(mem, mem', t, Above(path, header))
    requires PointsDown(mem, mem', path, t.right.node, header)
    requires forall n | n in mem && n !in Nodes(t) && n != Above(path, header) :: mem'[n] == mem[n]
    ensures LaidAt(mem', path, RotatedLeft(t), header)
  {
    LaidInMemory(mem, path, t, header);
    LaidRotatedLeft(mem, mem', t, Above(path, header));
    RotationsKeepOrder(t);
    LaidAtReplaced(mem, mem', path, t, RotatedLeft(t), header);
  }

  /** Where the pointers of a right rotation lead. */
  lemma RightRotationPointers(mem: Memory, path: Path, t: Tree, header: Node)
    requires t.Branch? && t.left.Branch?
    requires LaidAt(mem, path, t, header)
    ensures var x, y, b, u := t.node, t.left.node, t.left.right, Above(path, header);
      && {x, y, u, header} + Nodes(b) + Nodes(t) <= mem.Keys
      && x != y && u != x && u != y && x != header && y != header && x !in Nodes(b) && y !in Nodes(b)
      && u !in Nodes(b) && header !in Nodes(b)
      && mem[x] == Cell(u, y, Root(t.right), t.red)
      && mem[y].right == Root(b)
      && (b.Branch? ==> b.node in Nodes(b))
      && (mem[header].parent == x <==> path == [])
      && (path != [] ==>
            u != header && (mem[u].left == x <==> path[0].isLeft) && (mem[u].right == x <==> !path[0].isLeft))
  {
    LaidInMemory(mem, path, t, header);
    HeaderHoldsRoot(mem, path, t.node, header);
    assert Laid(mem, t.left, t.node) && Distinct(t.left);
    assert path != [] && path[0].sibling.Branch? ==> path[0].sibling.node in PathNodes(path);
  }

  lemma LaidAtRotatedRight(mem: Memory, mem': Memory, path: Path, t: Tree, header: Node)
    requires t.Branch? && t.left.Branch? && mem'.Keys == mem.Keys
             && Nodes(t) + {Above(path, header), header} <= mem.Keys
    requires LaidAt(mem, path, t, header)
    requires RightRotationAt(mem, mem', t, Above(path, header))
    requires PointsDown(mem, mem', path, t.left.node, header)
    requires forall n | n in mem && n !in Nodes(t) && n != Above(path, header) :: mem'[n] == mem[n]
    ensures LaidAt(mem', path, RotatedRight(t), header)
  {
    LaidInMemory(mem, path, t, header);
    LaidRotatedRight(mem, mem', t, Above(path, header));
    RotationsKeepOrder(t);
    LaidAtReplaced(mem, mem', path, t, RotatedRight(t), header);
  }

  // ----- colour changes -----

  function Painted(t: Tree, red: bool): Tree {
    if t.Leaf? then t else t.(red := red)
  }

  function PaintedIn(mem: Memory, n: Node, red: bool): Memory
    requires n in mem
  {
    mem[n := mem[n].(red := red)]
  }

  lemma LaidAtPainted(mem: Memory, path: Path, t: Tree, red: bool, header: Node)
    requires LaidAt(mem, path, t, header) && t.Branch?
    ensures t.node in mem && LaidAt(PaintedIn(mem, t.node, red), path, Painted(t, red), header)
  {
    var mem' := PaintedIn(mem, t.node, red);
    LaidInMemory(mem, path, t, header);
    LaidUnchanged(mem, mem', t.left, t.node);
    LaidUnchanged(mem, mem', t.right, t.node);
    LaidAroundUnchanged(mem, mem', path, t.node, header);
  }

  lemma ParentPainted(mem: Memory, path: Path, t: Tree, red: bool, header: Node)
    requires LaidAt(mem, path, t, header) && path != []
    ensures path[0].node in mem
    ensures LaidAt(PaintedIn(mem, path[0].node, red), [path[0].(red := red)] + path[1..], t, header)
  {
    var f, path' := path[0], [path[0].(red := red)] + path[1..];
    assert path'[1..] == path[1..];
    LaidAtUp(mem, path, t, header);
    LaidAtPainted(mem, path[1..], Fill(f, t), red, header);
    LaidAtUp(PaintedIn(mem, f.node, red), path', t, header);
  }

  lemma GrandparentPainted(mem: Memory, path: Path, t: Tree, red: bool, header: Node)
    requires LaidAt(mem, path, t, header) && |path| >= 2
    ensures path[1].node in mem
    ensures LaidAt(PaintedIn(mem, path[1].node, red), [path[0], path[1].(red := red)] + path[2..], t, header)
  {
    var f, path' := path[0], [path[0], path[1].(red := red)] + path[2..];
    assert path'[1..] == [path[1].(red := red)] + path[1..][1..];
    LaidAtUp(mem, path, t, header);
    ParentPainted(mem, path[1..], Fill(f, t), red, header);
    LaidAtUp(PaintedIn(mem, path[1].node, red), path', t, header);
  }

  /** The place of a node's sibling. */
  function Across(path: Path, t: Tree): Path
    requires path != []
  {
    [Frame(!path[0].isLeft, path[0].node, path[0].red, t)] + path[1..]
  }

  lemma LaidAtAcross(mem: Memory, path: Path, t: Tree, header: Node)
    requires path != []
    ensures LaidAt(mem, path, t, header) <==> LaidAt(mem, Across(path, t), path[0].sibling, header)
  {
    LaidAtUp(mem, path, t, header);
    LaidAtUp(mem, Across(path, t), path[0].sibling, header);
    assert Across(path, t)[1..] == path[1..];
  }

  lemma SiblingPainted(mem: Memory, path: Path, t: Tree, red: bool, header: Node)
    requires LaidAt(mem, path, t, header) && path != [] && path[0].sibling.Branch?
    ensures path[0].sibling.node in mem
    ensures LaidAt(PaintedIn(mem, path[0].sibling.node, red),
                   [path[0].(sibling := Painted(path[0].sibling, red))] + path[1..], t, header)
  {
    var s := path[0].sibling;
    var path' := [path[0].(sibling := Painted(s, red))] + path[1..];
    LaidAtAcross(mem, path, t, header);
    LaidAtPainted(mem, Across(path, t), s, red, header);
    assert path'[1..] == path[1..];
    assert Across(path', t) == Across(path, t);
    LaidAtAcross(PaintedIn(mem, s.node, red), path', t, header);
  }

  // ----- order -----

  predicate NoRepeats<T(==)>(s: seq<T>) {
    forall i, j | 0 <= i < j < |s| :: s[i] != s[j]
  }

  lemma {:induction false} InOrderNoRepeats(t: Tree)
    requires Distinct(t)
    ensures NoRepeats(InOrder(t))
  {
    match t
    case Leaf =>
    case Branch(l, n, _, r) =>
      InOrderNoRepeats(l);
      InOrderNoRepeats(r);
      InOrderElements(l);
      InOrderElements(r);
      var s := InOrder(t);
      forall i, j | 0 <= i < j < |s| ensures s[i] != s[j] {
        var k := |InOrder(l)|;
        assert i < k ==> s[i] == InOrder(l)[i] && s[i] in Elements(InOrder(l));
        assert j < k ==> s[j] == InOrder(l)[j];
        assert i > k ==> s[i] == InOrder(r)[i - k - 1];
        assert j > k ==> s[j] == InOrder(r)[j - k - 1] && s[j] in Elements(InOrder(r));
      }
  }

  function ChildPainted(t: Tree, left: bool, red: bool): Tree
    requires t.Branch?
  {
    if left then t.(left := Painted(t.left, red)) else t.(right := Painted(t.right, red))
  }

  lemma LaidAtChildPainted(mem: Memory, path: Path, t: Tree, left: bool, red: bool, header: Node)
    requires LaidAt(mem, path, t, header) && t.Branch? && (if left then t.left else t.right).Branch?
    ensures var c := (if left then t.left else t.right).node;
      c in mem && LaidAt(PaintedIn(mem, c, red), path, ChildPainted(t, left, red), header)
  {
    var f := Frame(left, t.node, t.red, if left then t.right else t.left);
    var c := if left then t.left else t.right;
    assert Fill(f, c) == t && Fill(f, Painted(c, red)) == ChildPainted(t, left, red);
    LaidAtChild(mem, f, path, c, header);
    LaidAtPainted(mem, [f] + path, c, red, header);
    LaidAtChild(PaintedIn(mem, c.node, red), f, path, Painted(c, red), header);
  }

  /** Painting a child of the sibling. */
  lemma NephewPainted(mem: Memory, path: Path, t: Tree, left: bool, red: bool, header: Node)
    requires LaidAt(mem, path, t, header) && path != [] && path[0].sibling.Branch?
    requires (if left then path[0].sibling.left else path[0].sibling.right).Branch?
    ensures var w := path[0].sibling;
      var c := (if left then w.left else w.right).node;
      c in mem && LaidAt(PaintedIn(mem, c, red), [path[0].(sibling := ChildPainted(w, left, red))] + path[1..], t,
                         header)
  {
    var w := path[0].sibling;
    var path' := [path[0].(sibling := ChildPainted(w, left, red))] + path[1..];
    LaidAtAcross(mem, path, t, header);
    LaidAtChildPainted(mem, Across(path, t), w, left, red, header);
    assert path'[1..] == path[1..];
    assert Across(path', t) == Across(path, t);
    LaidAtAcross(PaintedIn(mem, (if left then w.left else w.right).node, red), path', t, header);
  }

  /** The place of a tree's left (right) subtree. */
  lemma LaidAtChild(mem: Memory, f: Frame, up: Path, t: Tree, header: Node)
    ensures LaidAt(mem, [f] + up, t, header) <==> LaidAt(mem, up, Fill(f, t), header)
  {
    var path := [f] + up;
    assert path[0] == f && path[1..] == up;
    LaidAtUp(mem, path, t, header);
  }

  lemma LaidAtGrandchild(mem: Memory, f: Frame, g: Frame, up: Path, t: Tree, header: Node)
    ensures LaidAt(mem, [f, g] + up, t, header) <==> LaidAt(mem, up, Fill(g, Fill(f, t)), header)
  {
    assert [f, g] + up == [f] + ([g] + up);
    LaidAtChild(mem, f, [g] + up, t, header);
    LaidAtChild(mem, g, up, Fill(f, t), header);
  }

  // ----- moving the place several levels at once -----

  lemma {:induction false} LaidAtPart(mem: Memory, inner: Path, outer: Path, t: Tree, header: Node)
    ensures LaidAt(mem, inner + outer, t, header) <==> LaidAt(mem, outer, Plug(inner, t), header)
    decreases |inner|
  {
    if inner == [] {
      assert inner + outer == outer;
    } else {
      assert inner + outer == [inner[0]] + (inner[1..] + outer);
      LaidAtChild(mem, inner[0], inner[1..] + outer, t, header);
      LaidAtPart(mem, inner[1..], outer, Fill(inner[0], t), header);
    }
  }

  lemma {:induction false} OrderAtPart(inner: Path, outer: Path, t: Tree)
    ensures OrderAt(inner + outer, t) == OrderAt(outer, Plug(inner, t))
    decreases |inner|
  {
    if inner == [] {
      assert inner + outer == outer;
    } else {
      assert inner + outer == [inner[0]] + (inner[1..] + outer);
      assert (inner + outer)[1..] == inner[1..] + outer;
      InOrderFill(inner + outer, t);
      OrderAtPart(inner[1..], outer, Fill(inner[0], t));
    }
  }
}
