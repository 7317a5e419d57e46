/** Where "." and ".." lead (src/drivers/filesystems.cpp, lines 128-166), and what a path has in common
    with the one that is left without them. */
module FileWalks {
  import opened Options
  import opened Paths
  import opened FileTree

  predicate IsName(part: Path) {
    part != DOT && part != DOT_DOT
  }

  /** Children have their directory as parent (src/drivers/filesystems/jolietIso.cpp, line 106), and the
      roots of file systems, which are what is mounted, themselves (line 38). */
  predicate Wired(tree: Tree) {
    && Closed(tree)
    && (forall n, i | n in tree && 0 <= i < |tree[n].children| :: HasParent(tree, tree[n].children[i], n))
    && forall n | n in tree && tree[n].mounted.Some? :: tree[n].isDirectory && IsRoot(tree, tree[n].mounted.value)
  }

  predicate HasParent(tree: Tree, child: nat, n: nat) {
    child in tree && tree[child].parent == Some(n)
  }

  predicate IsRoot(tree: Tree, n: nat) {
    n in tree && tree[n].isDirectory && tree[n].parent == Some(n) && tree[n].mounted.None?
  }

  /** A walk ends at a directory that can be read. */
  predicate Reaches(tree: Tree, unread: Unread, root: nat, parts: seq<Path>, d: nat)
    requires Closed(tree) && root in tree
  {
    && Walk(tree, unread, root, parts) == Found(Some(d))
    && d in tree && tree[d].isDirectory && Through(tree, d) !in unread
  }

  lemma OneMore(tree: Tree, unread: Unread, root: nat, parts: seq<Path>, part: Path)
    requires Closed(tree) && root in tree
    ensures var info := Walk(tree, unread, root, parts);
      Walk(tree, unread, root, parts + [part]) == if info.Failed? then info else Step(tree, unread, info.node, part)
  {
    assert (parts + [part])[..|parts|] == parts;
  }

  lemma {:induction false} SameAfter(tree: Tree, unread: Unread, root: nat, a: seq<Path>, b: seq<Path>, more: seq<Path>)
    requires Closed(tree) && root in tree && Walk(tree, unread, root, a) == Walk(tree, unread, root, b)
    ensures Walk(tree, unread, root, a + more) == Walk(tree, unread, root, b + more)
    decreases |more|
  {
    if more == [] {
      assert a + more == a && b + more == b;
    } else {
      var first, rest := more[0], more[1..];
      OneMore(tree, unread, root, a, first);
      OneMore(tree, unread, root, b, first);
      SameAfter(tree, unread, root, a + [first], b + [first], rest);
      FirstMoved(a, more);
      FirstMoved(b, more);
    }
  }

  /** A further "." leads to the directory itself, or to what is mounted on it. */
  lemma DotStays(tree: Tree, unread: Unread, root: nat, parts: seq<Path>, d: nat)
    requires Closed(tree) && root in tree && Reaches(tree, unread, root, parts, d)
    ensures Walk(tree, unread, root, parts + [DOT])
            == Found(Some(if tree[d].mounted.Some? then tree[d].mounted.value else d))
  {
    OneMore(tree, unread, root, parts, DOT);
  }

  /** So "." can be left out wherever nothing is mounted. */
  lemma DotLeftOut(tree: Tree, unread: Unread, root: nat, parts: seq<Path>, d: nat, more: seq<Path>)
    requires Closed(tree) && root in tree && Reaches(tree, unread, root, parts, d) && tree[d].mounted.None?
    ensures Walk(tree, unread, root, parts + [DOT] + more) == Walk(tree, unread, root, parts + more)
  {
    DotStays(tree, unread, root, parts, d);
    SameAfter(tree, unread, root, parts + [DOT], parts, more);
  }

  lemma NameLeads(tree: Tree, unread: Unread, root: nat, parts: seq<Path>, name: Path, d: nat)
    requires Wired(tree) && root in tree && Walk(tree, unread, root, parts) == Found(Some(d)) && IsName(name)
    requires Walk(tree, unread, root, parts + [name]).Found?
    ensures d in tree && tree[d].isDirectory && Through(tree, d) in tree && Through(tree, d) !in unread
    ensures var info := Walk(tree, unread, root, parts + [name]);
      && info.node.Some? && HasParent(tree, info.node.value, Through(tree, d))
      && tree[info.node.value].name == name
  {
    OneMore(tree, unread, root, parts, name);
    assert ClosedAt(tree, tree[d]);
    IsChild(tree, Through(tree, d), name, 0);
  }

  /** The first child of the name is found, and none only if there is none. */
  lemma {:induction false} IsChild(tree: Tree, d: nat, name: Path, i: nat)
    requires Closed(tree) && d in tree && i <= |tree[d].children|
    ensures var child := ChildFrom(tree, d, name, i);
      if child.None? then forall j | i <= j < |tree[d].children| :: !NameAt(tree, d, j, name)
      else exists k | i <= k < |tree[d].children| ::
             && tree[d].children[k] == child.value && NameAt(tree, d, k, name)
             && forall j | i <= j < k :: !NameAt(tree, d, j, name)
    decreases |tree[d].children| - i
  {
    if i < |tree[d].children| && !NameAt(tree, d, i, name) {
      IsChild(tree, d, name, i + 1);
    }
  }

  /** From a directory to one of its children and up again leads back, to what is mounted on the
      directory if anything is, exactly if nothing is mounted on the child, or that same directory. */
  lemma UpLeadsBackIff(tree: Tree, unread: Unread, root: nat, parts: seq<Path>, name: Path, d: nat, c: nat)
    requires Wired(tree) && root in tree && Walk(tree, unread, root, parts) == Found(Some(d)) && IsName(name)
    requires Reaches(tree, unread, root, parts + [name], c)
    ensures d in tree
    ensures Walk(tree, unread, root, parts + [name, DOT_DOT]) == Found(Some(Through(tree, d))) <==>
            tree[c].mounted.None? || tree[c].mounted.value == Through(tree, d)
  {
    NameLeads(tree, unread, root, parts, name, d);
    OneMore(tree, unread, root, parts + [name], DOT_DOT);
    assert parts + [name, DOT_DOT] == parts + [name] + [DOT_DOT];
  }

  /** So a name and ".." can be left out wherever nothing is mounted on either directory. */
  lemma PairLeftOut(tree: Tree, unread: Unread, root: nat, parts: seq<Path>, name: Path, d: nat, c: nat,
                    more: seq<Path>)
    requires Wired(tree) && root in tree && Walk(tree, unread, root, parts) == Found(Some(d)) && IsName(name)
    requires Reaches(tree, unread, root, parts + [name], c)
    requires d in tree && tree[d].mounted.None? && tree[c].mounted.None?
    ensures Walk(tree, unread, root, parts + [name, DOT_DOT] + more) == Walk(tree, unread, root, parts + more)
  {
    UpLeadsBackIff(tree, unread, root, parts, name, d, c);
    SameAfter(tree, unread, root, parts + [name, DOT_DOT], parts, more);
  }

  // ----- paths without "." and ".." -----

  /** ".." takes the last name off, and at the root does nothing. */
  function Then(names: seq<Path>, part: Path): seq<Path> {
    if part == DOT then names
    else if part != DOT_DOT then names + [part]
    else if names == [] then []
    else names[..|names| - 1]
  }

  /** What is left of a path. */
  function Normal(parts: seq<Path>): seq<Path> {
    if parts == [] then [] else Then(Normal(parts[..|parts| - 1]), parts[|parts| - 1])
  }

  predicate AllNames(parts: seq<Path>) {
    forall i | 0 <= i < |parts| :: IsName(parts[i])
  }

  /** Only names are left; and if there were only names, all of them. */
  lemma {:induction false} NormalHasNames(parts: seq<Path>)
    ensures AllNames(Normal(parts)) && |Normal(parts)| <= |parts|
    ensures Normal(parts) == parts <==> AllNames(parts)
  {
    if parts != [] {
      var before, part := parts[..|parts| - 1], parts[|parts| - 1];
      NormalHasNames(before);
      ThenHasNames(before, Normal(before), part);
      assert parts == before + [part];
    }
  }

  lemma ThenHasNames(before: seq<Path>, names: seq<Path>, part: Path)
    requires AllNames(names) && |names| <= |before| && (names == before <==> AllNames(before))
    ensures AllNames(Then(names, part)) && |Then(names, part)| <= |before| + 1
    ensures Then(names, part) == before + [part] <==> AllNames(before + [part])
  {
    var more := before + [part];
    assert more[|before|] == part;
    if AllNames(more) {
      assert forall i | 0 <= i < |before| :: before[i] == more[i];
    }
  }

  lemma NormalOneMore(parts: seq<Path>, part: Path)
    ensures Normal(parts + [part]) == Then(Normal(parts), part)
  {
    assert (parts + [part])[..|parts|] == parts;
  }

  lemma {:induction false} NormalSameAfter(a: seq<Path>, b: seq<Path>, more: seq<Path>)
    requires Normal(a) == Normal(b)
    ensures Normal(a + more) == Normal(b + more)
    decreases |more|
  {
    if more == [] {
      assert a + more == a && b + more == b;
    } else {
      var first, rest := more[0], more[1..];
      NormalOneMore(a, first);
      NormalOneMore(b, first);
      NormalSameAfter(a + [first], b + [first], rest);
      FirstMoved(a, more);
      FirstMoved(b, more);
    }
  }

  lemma FirstMoved(a: seq<Path>, more: seq<Path>)
    requires more != []
    ensures a + [more[0]] + more[1..] == a + more
  {
  }

  /** What is left does not change if a "." is taken out of a path, or a name and the ".." behind it. */
  lemma NormalLeavesOut(parts: seq<Path>, name: Path, more: seq<Path>)
    requires IsName(name)
    ensures Normal(parts + [DOT] + more) == Normal(parts + more)
    ensures Normal(parts + [name, DOT_DOT] + more) == Normal(parts + more)
  {
    NormalOneMore(parts, DOT);
    NormalSameAfter(parts + [DOT], parts, more);
    NormalOneMore(parts, name);
    NormalOneMore(parts + [name], DOT_DOT);
    assert parts + [name, DOT_DOT] == parts + [name] + [DOT_DOT];
    NormalSameAfter(parts + [name, DOT_DOT], parts, more);
  }

  /** Nothing is mounted on the node, and it is not mounted anywhere. */
  predicate Unmounted(tree: Tree, c: nat) {
    c in tree && tree[c].mounted.None? && forall n | n in tree :: tree[n].mounted != Some(c)
  }

  /** Where a path goes up, nothing is mounted. */
  predicate UpWithinMounts(tree: Tree, unread: Unread, root: nat, parts: seq<Path>)
    requires Closed(tree) && root in tree
  {
    forall i | 0 <= i < |parts| && parts[i] == DOT_DOT :: UpFrom(tree, Walk(tree, unread, root, parts[..i]))
  }

  predicate UpFrom(tree: Tree, info: Info) {
    info.Found? && info.node.Some? && Unmounted(tree, info.node.value)
  }

  /** The same node, or one of them is mounted on the other. */
  predicate SamePlace(tree: Tree, a: Info, b: Info) {
    && a.Found? && b.Found? && a.node.Some? && b.node.Some? && a.node.value in tree && b.node.value in tree
    && Through(tree, a.node.value) == Through(tree, b.node.value)
  }

  /** If a path leads somewhere, what is left of it without "." and ".." leads to the same place. */
  lemma {:induction false} NormalLeadsThere(tree: Tree, unread: Unread, root: nat, parts: seq<Path>)
    requires Wired(tree) && root in tree && tree[root].parent == Some(root)
    requires Walk(tree, unread, root, parts).Found? && UpWithinMounts(tree, unread, root, parts)
    ensures SamePlace(tree, Walk(tree, unread, root, parts), Walk(tree, unread, root, Normal(parts)))
    decreases |parts|
  {
    if parts != [] {
      var before, part := parts[..|parts| - 1], parts[|parts| - 1];
      assert parts == before + [part];
      OneMore(tree, unread, root, before, part);
      assert UpWithinMounts(tree, unread, root, before) by {
        assert forall i | 0 <= i < |before| :: parts[..i] == before[..i] && parts[i] == before[i];
      }
      NormalLeadsThere(tree, unread, root, before);
      NormalOneMore(before, part);
      if part == DOT {
        DotKeepsPlace(tree, unread, root, before);
      } else if part == DOT_DOT {
        assert UpFrom(tree, Walk(tree, unread, root, parts[..|before|]));
        UpKeepsPlace(tree, unread, root, before);
      } else {
        OneMore(tree, unread, root, Normal(before), part);
        var a, b := Walk(tree, unread, root, before), Walk(tree, unread, root, Normal(before));
        NameLeads(tree, unread, root, before, part, a.node.value);
      }
    }
  }

  lemma DotKeepsPlace(tree: Tree, unread: Unread, root: nat, before: seq<Path>)
    requires Wired(tree) && root in tree && Walk(tree, unread, root, before + [DOT]).Found?
    requires var b := Walk(tree, unread, root, Normal(before)); SamePlace(tree, Walk(tree, unread, root, before), b)
    ensures SamePlace(tree, Walk(tree, unread, root, before + [DOT]), Walk(tree, unread, root, Normal(before)))
  {
    OneMore(tree, unread, root, before, DOT);
    assert ClosedAt(tree, tree[Walk(tree, unread, root, before).node.value]);
  }

  lemma UpKeepsPlace(tree: Tree, unread: Unread, root: nat, before: seq<Path>)
    requires Wired(tree) && root in tree && tree[root].parent == Some(root)
    requires Walk(tree, unread, root, before + [DOT_DOT]).Found? && UpFrom(tree, Walk(tree, unread, root, before))
    requires var b := Walk(tree, unread, root, Normal(before)); SamePlace(tree, Walk(tree, unread, root, before), b)
    ensures var b := Walk(tree, unread, root, Normal(before + [DOT_DOT]));
      SamePlace(tree, Walk(tree, unread, root, before + [DOT_DOT]), b)
  {
    OneMore(tree, unread, root, before, DOT_DOT);
    NormalOneMore(before, DOT_DOT);
    var normal := Normal(before);
    if normal != [] {
      NormalHasNames(before);
      LastLeftOut(tree, unread, root, normal, Walk(tree, unread, root, before).node.value);
    }
  }

  /** From a child where nothing is mounted, up is where the walk was before. */
  lemma LastLeftOut(tree: Tree, unread: Unread, root: nat, names: seq<Path>, c: nat)
    requires Wired(tree) && root in tree && names != [] && IsName(names[|names| - 1]) && Unmounted(tree, c)
    requires SamePlace(tree, Found(Some(c)), Walk(tree, unread, root, names))
    ensures SamePlace(tree, Found(tree[c].parent), Walk(tree, unread, root, names[..|names| - 1]))
  {
    var init, name := names[..|names| - 1], names[|names| - 1];
    assert names == init + [name];
    OneMore(tree, unread, root, init, name);
    var info := Walk(tree, unread, root, init);
    assert info.Found? && info.node.Some?;
    NameLeads(tree, unread, root, init, name, info.node.value);
  }

  /** Where nothing is mounted anywhere, it leads to the same node. */
  lemma NormalLeadsToSame(tree: Tree, unread: Unread, root: nat, parts: seq<Path>)
    requires Wired(tree) && root in tree && tree[root].parent == Some(root)
    requires Walk(tree, unread, root, parts).Found? && forall n | n in tree :: tree[n].mounted.None?
    ensures Walk(tree, unread, root, Normal(parts)) == Walk(tree, unread, root, parts)
    decreases |parts|
  {
    forall i | 0 <= i < |parts| && parts[i] == DOT_DOT ensures UpFrom(tree, Walk(tree, unread, root, parts[..i])) {
      StartFound(tree, unread, root, parts, i + 1);
    }
    NormalLeadsThere(tree, unread, root, parts);
  }

  lemma {:induction false} StartFound(tree: Tree, unread: Unread, root: nat, parts: seq<Path>, n: nat)
    requires Closed(tree) && root in tree && 0 < n <= |parts| && Walk(tree, unread, root, parts).Found?
    ensures Walk(tree, unread, root, parts[..n]).Found?
    ensures var info := Walk(tree, unread, root, parts[..n - 1]); info.Found? && info.node.Some?
  {
    if Walk(tree, unread, root, parts[..n]).Failed? {
      FailedWalk(tree, unread, root, parts, n);
    }
    assert parts[..n][..n - 1] == parts[..n - 1];
  }
}
