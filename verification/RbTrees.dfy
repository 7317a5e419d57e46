/** The library's red-black tree: linking and unlinking nodes, and walking in order. */
module RbTrees {
  import opened RbShapes
  import opened RbBalance
  import opened RbRebalance

  function First(s: seq<Node>, header: Node): Node {
    if s == [] then header else s[0]
  }

  function Last(s: seq<Node>, header: Node): Node {
    if s == [] then header else s[|s| - 1]
  }

  /** The place where a new leaf goes: below `p`, or at the root of an empty tree. */
  ghost function LeafPlace(tree: Tree, p: Node, insertLeft: bool): (r: Path)
    ensures p !in Nodes(tree) ==> r == []
    ensures p in Nodes(tree) ==> r != [] && r[0].node == p && r[0].isLeft == insertLeft
  {
    if p !in Nodes(tree) then []
    else
      var (path, t) := PathTo([], tree, p);
      [Frame(insertLeft, p, t.red, if insertLeft then t.right else t.left)] + path
  }

  lemma LeafPlacePlugs(mem: Memory, tree: Tree, p: Node, insertLeft: bool, header: Node)
    requires LaidAt(mem, [], tree, header) && p in Nodes(tree)
    requires p in mem ==> (if insertLeft then mem[p].left else mem[p].right) == null
    ensures Plug(LeafPlace(tree, p, insertLeft), Leaf) == tree
  {
    var (up, t) := PathTo([], tree, p);
    var path := LeafPlace(tree, p, insertLeft);
    LaidAtPlug(mem, up, t, header);
    assert mem[p] == Cell(Above(up, header), Root(t.left), Root(t.right), t.red);
    assert path[1..] == up && Fill(path[0], Leaf) == t;
  }

  lemma LeafPlaceFits(tree: Tree, path: Path)
    requires Plug(path, Leaf) == tree && RedBlack(tree)
    ensures BalancedAround(path, 0)
    ensures InOrder(tree) == Before(path) + After(path)
    ensures Nodes(tree) == PathNodes(path)
  {
    BalancedAt(path, Leaf);
    InOrderPlug(path, Leaf);
    NodesPlug(path, Leaf);
    assert Before(path) + [] + After(path) == Before(path) + After(path);
  }

  /** `s'` is `s` with `x` put immediately before (left) or after `p`. */
  ghost predicate InsertedBeside(s: seq<Node>, s': seq<Node>, left: bool, x: Node, p: Node) {
    && p in s
    && forall k | 0 <= k < |s| && s[k] == p ::
         s' == if left then s[..k] + [x] + s[k..] else s[..k + 1] + [x] + s[k + 1..]
  }

  lemma InsertedEnds(s: seq<Node>, left: bool, k: nat, x: Node, header: Node)
    requires NoRepeats(s) && k < |s|
    ensures var s' := if left then s[..k] + [x] + s[k..] else s[..k + 1] + [x] + s[k + 1..];
      && First(s', header) == (if left && s[k] == First(s, header) then x else First(s, header))
      && Last(s', header) == (if !left && s[k] == Last(s, header) then x else Last(s, header))
      && InsertedBeside(s, s', left, x, s[k])
  {
    assert s[k] == s[0] ==> k == 0;
    assert s[k] == s[|s| - 1] ==> k == |s| - 1;
  }

  /** Where the new leaf lands in the order, and what that does to the two ends. */
  lemma InsertedOrder(s: seq<Node>, s': seq<Node>, path: Path, x: Node, header: Node)
    requires NoRepeats(s) && path != []
    requires s == Before(path) + After(path) && s' == Before(path) + [x] + After(path)
    ensures InsertedBeside(s, s', path[0].isLeft, x, path[0].node)
    ensures First(s', header) == (if path[0].isLeft && path[0].node == First(s, header) then x else First(s, header))
    ensures Last(s', header) == (if !path[0].isLeft && path[0].node == Last(s, header) then x else Last(s, header))
  {
    var p, b := path[0].node, |Before(path)|;
    if path[0].isLeft {
      assert After(path)[0] == p == s[b];
      InsertedEnds(s, true, b, x, header);
      assert s' == s[..b] + [x] + s[b..];
    } else {
      assert Before(path)[b - 1] == p == s[b - 1];
      InsertedEnds(s, false, b - 1, x, header);
      assert s' == s[..b] + [x] + s[b..];
    }
  }

  lemma ElementsInserted(b: seq<Node>, x: Node, a: seq<Node>)
    ensures Elements(b + [x] + a) == Elements(b + a) + {x}
  {
  }

  lemma LeafInserted(tree: Tree, tree': Tree, path: Path, x: Node, header: Node)
    requires Distinct(tree)
    requires InOrder(tree) == Before(path) + After(path)
    requires InOrder(tree') == OrderAt(path, Branch(Leaf, x, true, Leaf))
    ensures Nodes(tree') == Nodes(tree) + {x}
    ensures path == [] ==> InOrder(tree') == [x]
    ensures path != [] ==> InsertedBeside(InOrder(tree), InOrder(tree'), path[0].isLeft, x, path[0].node)
    ensures First(InOrder(tree'), header) ==
            if path == [] || (path[0].isLeft && path[0].node == First(InOrder(tree), header)) then x
            else First(InOrder(tree), header)
    ensures Last(InOrder(tree'), header) ==
            if path == [] || (!path[0].isLeft && path[0].node == Last(InOrder(tree), header)) then x
            else Last(InOrder(tree), header)
  {
    assert InOrder(Branch(Leaf, x, true, Leaf)) == [x];
    InOrderElements(tree);
    InOrderElements(tree');
    ElementsInserted(Before(path), x, After(path));
    InOrderNoRepeats(tree);
    if path != [] {
      InsertedOrder(InOrder(tree), InOrder(tree'), path, x, header);
    }
  }

  /** The nodes of `tree` and its header. */
  ghost function TreeNodes(tree: Tree, header: Node): set<Node> {
    Nodes(tree) + {header}
  }

  /** Below `header` memory holds `tree`, a red-black tree; the header points at the root and at
      the two ends of the order, or at itself when the tree is empty, and is red. */
  ghost predicate RbTree(tree: Tree, header: Node)
    reads TreeNodes(tree, header)
  {
    && LaidAt(Snapshot(TreeNodes(tree, header)), [], tree, header)
    && RedBlack(tree)
    && header.red
    && header.left == First(InOrder(tree), header)
    && header.right == Last(InOrder(tree), header)
  }

  /** Initialises `x` and makes it a child of `p`, keeping the header's leftmost and rightmost. */
  method Link(insertLeft: bool, x: Node, p: Node, header: Node)
    requires x != p && x != header && (p == header ==> insertLeft)
    modifies x, p, header
    ensures CellOf(x) == Cell(p, null, null, true)
    ensures p != header ==>
              && header.parent == old(header.parent)
              && CellOf(p) == if insertLeft then old(CellOf(p)).(left := x) else old(CellOf(p)).(right := x)
    ensures p == header ==> header.parent == x
    ensures header.red == old(header.red)
    ensures header.left == if p == header || (insertLeft && p == old(header.left)) then x else old(header.left)
    ensures header.right == if p == header || (!insertLeft && p == old(header.right)) then x else old(header.right)
  {
    x.parent := p;
    x.left := null;
    x.right := null;
    x.red := true;
    if insertLeft {
      p.left := x;
      if p == header {
        header.parent := x;
        header.right := x;
      } else if p == header.left {
        header.left := x;
      }
    } else {
      p.right := x;
      if p == header.right {
        header.right := x;
      }
    }
  }

  /** Links `x` in below `p` and says what place of the tree it took. */
  method LinkLeaf(insertLeft: bool, x: Node, p: Node, header: Node, ghost tree: Tree) returns (ghost path: Path)
    requires RbTree(tree, header) && x !in TreeNodes(tree, header) && p in TreeNodes(tree, header)
    requires p == header ==> insertLeft && tree == Leaf
    requires p != header ==> (if insertLeft then p.left else p.right) == null
    modifies x, p, header
    ensures LaidAt(Snapshot(TreeNodes(tree, header) + {x}), path, Branch(Leaf, x, true, Leaf), header)
    ensures BalancedAround(path, 0)
    ensures InOrder(tree) == Before(path) + After(path)
    ensures path == [] <==> p == header
    ensures path != [] ==> path[0].isLeft == insertLeft && path[0].node == p
    ensures header.red
    ensures header.left == if p == header || (insertLeft && p == old(header.left)) then x else old(header.left)
    ensures header.right == if p == header || (!insertLeft && p == old(header.right)) then x else old(header.right)
  {
    ghost var nodes := TreeNodes(tree, header);
    ghost var mem := Snapshot(nodes);
    path := LeafPlace(tree, p, insertLeft);
    assert Plug(path, Leaf) == tree by {
      if p != header {
        LeafPlacePlugs(mem, tree, p, insertLeft, header);
      }
    }
    LaidAtPlug(mem, path, Leaf, header);
    LeafPlaceFits(tree, path);
    Link(insertLeft, x, p, header);
    LaidAtReplaced(mem, Snapshot(nodes + {x}), path, Leaf, Branch(Leaf, x, true, Leaf), header);
  }

  /** Inserts `x` as a child of `p`, on the given side, and restores the red-black conditions. */
  method InsertAndRebalance(insertLeft: bool, x: Node, p: Node, header: Node, ghost tree: Tree)
    returns (ghost tree': Tree)
    requires RbTree(tree, header) && x !in TreeNodes(tree, header) && p in TreeNodes(tree, header)
    requires p == header ==> insertLeft && tree == Leaf
    requires p != header ==> (if insertLeft then p.left else p.right) == null
    modifies TreeNodes(tree, header), x
    ensures RbTree(tree', header) && Nodes(tree') == Nodes(tree) + {x}
    ensures p == header ==> InOrder(tree') == [x]
    ensures p != header ==> InsertedBeside(InOrder(tree), InOrder(tree'), insertLeft, x, p)
  {
    ghost var path := LinkLeaf(insertLeft, x, p, header, tree);
    ghost var nodes := TreeNodes(tree, header) + {x};
    tree' := RebalanceAfterInsert(x, header, nodes, path, Branch(Leaf, x, true, Leaf), 0);
    LeafInserted(tree, tree', path, x, header);
    assert TreeNodes(tree', header) == nodes;
  }
}
