/** The red-black conditions, and the recolouring and rotation steps that restore them. */
module RbBalance {
  import opened RbShapes

  predicate BlackRoot(t: Tree) {
    t.Leaf? || !t.red
  }

  /** No red node has a red child, and every way down to a leaf passes `h` black nodes. */
  ghost predicate Balanced(t: Tree, h: nat) {
    match t
    case Leaf => h == 0
    case Branch(l, _, red, r) =>
      if red then BlackRoot(l) && BlackRoot(r) && Balanced(l, h) && Balanced(r, h)
      else h > 0 && Balanced(l, h - 1) && Balanced(r, h - 1)
  }

  ghost function BlackHeight(t: Tree): nat {
    if t.Leaf? then 0 else BlackHeight(t.left) + if t.red then 0 else 1
  }

  ghost predicate RedBlack(t: Tree) {
    BlackRoot(t) && Balanced(t, BlackHeight(t))
  }

  /** Everything around a place is balanced, provided the place gets a subtree of black height `h`
      with a black root where the node above is red. */
  ghost predicate BalancedAround(path: Path, h: nat)
    decreases |path|
  {
    path != [] ==>
      var f := path[0];
      && Balanced(f.sibling, h)
      && (f.red ==> BlackRoot(f.sibling) && |path| > 1 && !path[1].red)
      && BalancedAround(path[1..], if f.red then h else h + 1)
  }

  lemma {:induction false} BalancedHeight(t: Tree, h: nat)
    requires Balanced(t, h)
    ensures h == BlackHeight(t)
  {
    if t.Branch? {
      BalancedHeight(t.left, if t.red then h else h - 1);
    }
  }

  /** A balanced subtree in balanced surroundings makes a red-black tree. */
  lemma {:induction false} BalancedPlug(path: Path, t: Tree, h: nat)
    requires Balanced(t, h) && BalancedAround(path, h)
    requires path == [] || path[0].red ==> BlackRoot(t)
    ensures RedBlack(Plug(path, t))
    decreases |path|
  {
    if path == [] {
      BalancedHeight(t, h);
    } else {
      BalancedPlug(path[1..], Fill(path[0], t), if path[0].red then h else h + 1);
    }
  }

  /** The converse: a place in a red-black tree. */
  lemma {:induction false} BalancedAt(path: Path, t: Tree)
    requires RedBlack(Plug(path, t))
    ensures exists h: nat :: Balanced(t, h) && BalancedAround(path, h)
    ensures path == [] || path[0].red ==> BlackRoot(t)
    decreases |path|
  {
    if path == [] {
      assert Balanced(t, BlackHeight(t)) && BalancedAround(path, BlackHeight(t));
    } else {
      BalancedAt(path[1..], Fill(path[0], t));
      var h: nat :| Balanced(Fill(path[0], t), h) && BalancedAround(path[1..], h);
      var k := if path[0].red then h else h - 1;
      assert Balanced(t, k) && BalancedAround(path, k);
    }
  }

  // ----- insertion -----

  /** One turn of the insertion loop, for a red `t` below a red node. With a red uncle the trouble
      moves two levels up; otherwise one or two rotations end it. */
  function InsertStep(path: Path, t: Tree): (Path, Tree)
    requires |path| >= 2 && t.Branch?
  {
    var p, g, up := path[0], path[1], path[2..];
    if !BlackRoot(g.sibling) then
      (up, Fill(g.(red := true, sibling := Painted(g.sibling, false)), Fill(p.(red := false), t)))
    else if p.isLeft == g.isLeft then
      ([Frame(g.isLeft, p.node, false, Fill(g.(red := true), p.sibling))] + up, t)
    else if g.isLeft then
      ([Frame(true, t.node, false, Branch(t.right, g.node, true, g.sibling))] + up,
       Branch(p.sibling, p.node, p.red, t.left))
    else
      ([Frame(false, t.node, false, Branch(g.sibling, g.node, true, t.left))] + up,
       Branch(t.right, p.node, p.red, p.sibling))
  }

  lemma InsertStepBalances(path: Path, t: Tree, h: nat) returns (h': nat)
    requires |path| >= 2 && t.Branch? && t.red && path[0].red
    requires Balanced(t, h) && BalancedAround(path, h)
    ensures var (path', t') := InsertStep(path, t);
      && t'.Branch? && t'.red
      && Balanced(t', h') && BalancedAround(path', h')
      && |path'| < |path|
  {
    var p, g, up := path[0], path[1], path[2..];
    assert path[1..][0] == g && path[1..][1..] == up;
    var (path', t') := InsertStep(path, t);
    h' := if !BlackRoot(g.sibling) then h + 1 else h;
    if BlackRoot(g.sibling) {
      assert path'[1..] == up;
    }
  }

  lemma InsertStepKeepsOrder(path: Path, t: Tree)
    requires |path| >= 2 && t.Branch?
    ensures var (path', t') := InsertStep(path, t);
      OrderAt(path', t') == OrderAt(path, t)
  {
    var p, g, up := path[0], path[1], path[2..];
    var (path', t') := InsertStep(path, t);
    assert path[1..][0] == g && path[1..][1..] == up;
    InOrderFill(path, t);
    InOrderFill(path[1..], Fill(p, t));
    assert OrderAt(up, Fill(g, Fill(p, t))) == OrderAt(path, t);
    if BlackRoot(g.sibling) {
      assert path'[1..] == up;
      InOrderFill(path', t');
      InsertStepKeepsLocalOrder(path, t);
    } else {
      PaintedKeepsOrder(g.sibling, false);
      assert InOrder(t') == InOrder(Fill(g, Fill(p, t)));
    }
  }

  lemma PaintedKeepsOrder(t: Tree, red: bool)
    ensures InOrder(Painted(t, red)) == InOrder(t)
  {
  }

  /** The rotated subtree holds the same nodes in the same order. */
  lemma InsertStepKeepsLocalOrder(path: Path, t: Tree)
    requires |path| >= 2 && t.Branch? && BlackRoot(path[1].sibling)
    ensures var (path', t') := InsertStep(path, t);
      InOrder(Fill(path'[0], t')) == InOrder(Fill(path[1], Fill(path[0], t)))
  {
    var p, g := path[0], path[1];
    RotationsKeepOrder(Fill(p, t));
    if p.isLeft == g.isLeft {
      RotationsKeepOrder(Fill(g, Fill(p, t)));
    } else if g.isLeft {
      RotationsKeepOrder(Fill(g, RotatedLeft(Fill(p, t))));
    } else {
      RotationsKeepOrder(Fill(g, RotatedRight(Fill(p, t))));
    }
  }

  // ----- erasure -----

  /** A tree read in the direction away from its left (right) neighbour. */
  function Join(isLeft: bool, near: Tree, node: Node, red: bool, far: Tree): Tree {
    if isLeft then Branch(near, node, red, far) else Branch(far, node, red, near)
  }

  function Near(isLeft: bool, t: Tree): Tree
    requires t.Branch?
  {
    if isLeft then t.left else t.right
  }

  function Far(isLeft: bool, t: Tree): Tree
    requires t.Branch?
  {
    if isLeft then t.right else t.left
  }

  /** The place lacks one black node: its surroundings want black height `h + 1`, and `t` gives it
      only once its root is painted black. */
  ghost predicate Deficient(path: Path, t: Tree, h: nat) {
    && BalancedAround(path, h + 1)
    && if BlackRoot(t) then Balanced(t, h) else Balanced(Painted(t, false), h + 1)
  }

  /** A red sibling: paint it black and the parent red, and turn the parent towards the place. */
  function AfterRedSibling(path: Path): Path
    requires path != [] && path[0].sibling.Branch?
  {
    var f, w := path[0], path[0].sibling;
    [Frame(f.isLeft, f.node, true, Near(f.isLeft, w)), Frame(f.isLeft, w.node, false, Far(f.isLeft, w))] + path[1..]
  }

  /** A black sibling with black children: paint it red and move the lack one level up. */
  function AfterBlackSibling(path: Path, t: Tree): (Path, Tree)
    requires path != []
  {
    (path[1..], Fill(path[0].(sibling := Painted(path[0].sibling, true)), t))
  }

  /** A sibling whose near child is red and far child black: turn it away from the place. */
  function AfterRedNear(path: Path): Path
    requires path != [] && path[0].sibling.Branch? && Near(path[0].isLeft, path[0].sibling).Branch?
  {
    var f, w := path[0], path[0].sibling;
    var n := Near(f.isLeft, w);
    [f.(sibling := Join(f.isLeft, Near(f.isLeft, n), n.node, false,
                        Join(f.isLeft, Far(f.isLeft, n), w.node, true, Far(f.isLeft, w))))] + path[1..]
  }

  /** A sibling whose far child is red: it takes the parent's colour and place. */
  function AfterRedFar(path: Path): Path
    requires path != [] && path[0].sibling.Branch?
  {
    var f, w := path[0], path[0].sibling;
    [Frame(f.isLeft, f.node, false, Near(f.isLeft, w)),
     Frame(f.isLeft, w.node, f.red, Painted(Far(f.isLeft, w), false))] + path[1..]
  }

  lemma DeficientHasSibling(path: Path, t: Tree, h: nat)
    requires Deficient(path, t, h) && path != []
    ensures path[0].sibling.Branch?
  {
  }

  lemma RedSiblingBalances(path: Path, t: Tree, h: nat)
    requires Deficient(path, t, h) && BlackRoot(t) && path != [] && !BlackRoot(path[0].sibling)
    ensures var path' := AfterRedSibling(path);
      && Deficient(path', t, h) && path'[0].sibling.Branch? && !path'[0].sibling.red
      && path'[0].red && path'[1..][1..] == path[1..]
  {
    var path' := AfterRedSibling(path);
    assert path'[1..][0] == path'[1] && path'[1..][1..] == path[1..];
  }

  lemma BlackSiblingBalances(path: Path, t: Tree, h: nat) returns (h': nat)
    requires Deficient(path, t, h) && BlackRoot(t) && path != [] && BlackRoot(path[0].sibling)
    requires var w := path[0].sibling; w.Branch? ==> BlackRoot(w.left) && BlackRoot(w.right)
    ensures var (path', t') := AfterBlackSibling(path, t);
      Deficient(path', t', h') && t'.Branch?
  {
    h' := if path[0].red then h else h + 1;
  }

  lemma RedNearBalances(path: Path, t: Tree, h: nat)
    requires Deficient(path, t, h) && BlackRoot(t) && path != [] && BlackRoot(path[0].sibling)
    requires path[0].sibling.Branch? && !BlackRoot(Near(path[0].isLeft, path[0].sibling))
             && BlackRoot(Far(path[0].isLeft, path[0].sibling))
    ensures var path' := AfterRedNear(path);
      && Deficient(path', t, h) && BlackRoot(path'[0].sibling)
      && path'[0].sibling.Branch? && !BlackRoot(Far(path'[0].isLeft, path'[0].sibling))
      && |path'| == |path|
  {
    assert AfterRedNear(path)[1..] == path[1..];
    assert Balanced(Near(path[0].isLeft, path[0].sibling), h);
  }

  lemma RedFarBalances(path: Path, t: Tree, h: nat)
    requires Deficient(path, t, h) && BlackRoot(t) && path != [] && BlackRoot(path[0].sibling)
    requires path[0].sibling.Branch? && !BlackRoot(Far(path[0].isLeft, path[0].sibling))
    ensures var path' := AfterRedFar(path);
      BalancedAround(path', h) && Balanced(t, h) && path' != [] && !path'[0].red
  {
    var path' := AfterRedFar(path);
    assert path'[1..][0] == path'[1] && path'[1..][1..] == path[1..];
    assert Balanced(Far(path[0].isLeft, path[0].sibling), h);
  }

  /** Filling two frames one after the other. */
  lemma TwoFrames(f: Frame, g: Frame, up: Path, t: Tree)
    ensures OrderAt([f, g] + up, t) == OrderAt(up, Fill(g, Fill(f, t)))
  {
    var path := [f, g] + up;
    assert path[1..] == [g] + up && path[1..][1..] == up;
    InOrderFill(path, t);
    InOrderFill(path[1..], Fill(f, t));
  }

  lemma SameOrderFilled(path: Path, t: Tree, f: Frame, g: Frame)
    requires path != [] && InOrder(Fill(g, Fill(f, t))) == InOrder(Fill(path[0], t))
    ensures OrderAt([f, g] + path[1..], t) == OrderAt(path, t)
  {
    InOrderFill(path, t);
    TwoFrames(f, g, path[1..], t);
  }

  lemma RedSiblingKeepsOrder(path: Path, t: Tree)
    requires path != [] && path[0].sibling.Branch?
    ensures OrderAt(AfterRedSibling(path), t) == OrderAt(path, t)
  {
    var path' := AfterRedSibling(path);
    RotationsKeepOrder(Fill(path[0], t));
    SameOrderFilled(path, t, path'[0], path'[1]);
  }

  lemma RedFarKeepsOrder(path: Path, t: Tree)
    requires path != [] && path[0].sibling.Branch?
    ensures OrderAt(AfterRedFar(path), t) == OrderAt(path, t)
  {
    var path' := AfterRedFar(path);
    RotationsKeepOrder(Fill(path[0], t));
    PaintedKeepsOrder(Far(path[0].isLeft, path[0].sibling), false);
    SameOrderFilled(path, t, path'[0], path'[1]);
  }

  lemma BlackSiblingKeepsOrder(path: Path, t: Tree)
    requires path != []
    ensures var (path', t') := AfterBlackSibling(path, t); OrderAt(path', t') == OrderAt(path, t)
  {
    var (path', t') := AfterBlackSibling(path, t);
    InOrderFill(path, t);
    PaintedKeepsOrder(path[0].sibling, true);
    assert InOrder(t') == InOrder(Fill(path[0], t));
  }

  lemma RedNearKeepsOrder(path: Path, t: Tree)
    requires path != [] && path[0].sibling.Branch? && Near(path[0].isLeft, path[0].sibling).Branch?
    ensures OrderAt(AfterRedNear(path), t) == OrderAt(path, t)
  {
    var path' := AfterRedNear(path);
    assert path'[1..] == path[1..];
    InOrderFill(path, t);
    InOrderFill(path', t);
    var w := path[0].sibling;
    RotationsKeepOrder(w);
    assert InOrder(path'[0].sibling) == InOrder(if path[0].isLeft then RotatedRight(w) else RotatedLeft(w));
  }
}
