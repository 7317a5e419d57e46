/** Finding files by path (src/drivers/filesystems.cpp, lines 53-204). Nodes are numbered. The tree
    has the children that every directory has once they have been read from its device; at each
    call the device may fail for some nodes. */
module FileTree {
  import opened Options
  import opened Paths

  datatype Node =
    Node(name: Path, isDirectory: bool, isFile: bool, mounted: Option<nat>, parent: Option<nat>, children: seq<nat>)

  type Tree = map<nat, Node>

  /** Nodes refer to nodes. */
  predicate Closed(tree: Tree) {
    forall n | n in tree :: ClosedAt(tree, tree[n])
  }

  predicate ClosedAt(tree: Tree, node: Node) {
    && (node.mounted.Some? ==> node.mounted.value in tree) && (node.parent.Some? ==> node.parent.value in tree)
    && forall i | 0 <= i < |node.children| :: node.children[i] in tree
  }

  datatype Status = InvalidPath | IOError | NotDirectory | NotFile | NoSuchDirectoryOrFile

  /** How reading a directory fails (src/drivers/filesystems/jolietIso.cpp, lines 70-122). */
  type Failure = s: Status | s == IOError || s == NotDirectory witness IOError

  /** The directories whose children cannot be had, and why. */
  type Unread = map<nat, Failure>

  /** A node, or the missing parent of a root; or what went wrong. */
  datatype Info = Found(node: Option<nat>) | Failed(status: Status)

  const DOT: Path := [0x2e]
  const DOT_DOT: Path := [0x2e, 0x2e]

  predicate IsIn(tree: Tree, info: Info) {
    info.Found? && info.node.Some? ==> info.node.value in tree
  }

  predicate NameAt(tree: Tree, d: nat, i: nat, name: Path)
    requires d in tree && i < |tree[d].children|
  {
    tree[d].children[i] in tree && tree[tree[d].children[i]].name == name
  }

  /** The first child of a name from the i-th on. */
  function ChildFrom(tree: Tree, d: nat, name: Path, i: nat): Option<nat>
    requires d in tree && i <= |tree[d].children|
    decreases |tree[d].children| - i
  {
    if i == |tree[d].children| then None
    else if NameAt(tree, d, i, name) then Some(tree[d].children[i])
    else ChildFrom(tree, d, name, i + 1)
  }

  /** The node a directory stands for: what is mounted there, if anything. */
  function Through(tree: Tree, n: nat): nat
    requires n in tree
  {
    if tree[n].mounted.Some? then tree[n].mounted.value else n
  }

  /** From a node to the one that a part of a path names there (lines 131-165). */
  function Step(tree: Tree, unread: Unread, current: Option<nat>, part: Path): Info
    requires Closed(tree) && IsIn(tree, Found(current))
  {
    if current.Some? && tree[current.value].isDirectory then
      assert ClosedAt(tree, tree[current.value]);
      var d := Through(tree, current.value);
      if d in unread then Failed(unread[d])
      else if part == DOT then Found(Some(d))
      else if part == DOT_DOT then Found(tree[d].parent)
      else match ChildFrom(tree, d, part, 0)
        case Some(child) => Found(Some(child))
        case None => Failed(NoSuchDirectoryOrFile)
    else Failed(NotDirectory)
  }

  lemma {:induction false} ChildIn(tree: Tree, d: nat, name: Path, i: nat)
    requires Closed(tree) && d in tree && i <= |tree[d].children| && ChildFrom(tree, d, name, i).Some?
    ensures ChildFrom(tree, d, name, i).value in tree && tree[ChildFrom(tree, d, name, i).value].name == name
    decreases |tree[d].children| - i
  {
    if !NameAt(tree, d, i, name) {
      ChildIn(tree, d, name, i + 1);
    }
  }

  lemma StepIn(tree: Tree, unread: Unread, current: Option<nat>, part: Path)
    requires Closed(tree) && IsIn(tree, Found(current))
    ensures IsIn(tree, Step(tree, unread, current, part))
  {
    if current.Some? && tree[current.value].isDirectory {
      assert ClosedAt(tree, tree[current.value]);
      var d := Through(tree, current.value);
      assert ClosedAt(tree, tree[d]);
      if ChildFrom(tree, d, part, 0).Some? {
        ChildIn(tree, d, part, 0);
      }
    }
  }

  function Walk(tree: Tree, unread: Unread, root: nat, parts: seq<Path>): (info: Info)
    requires Closed(tree) && root in tree
    ensures IsIn(tree, info)
  {
    if parts == [] then Found(Some(root))
    else
      match Walk(tree, unread, root, parts[..|parts| - 1])
      case Failed(status) => Failed(status)
      case Found(node) =>
        var part := parts[|parts| - 1];
        StepIn(tree, unread, node, part);
        Step(tree, unread, node, part)
  }

  /** The directory that a walk leads to. */
  function DirectoryOf(tree: Tree, unread: Unread, info: Info): Info
    requires IsIn(tree, info)
  {
    match info
    case Failed(status) => Failed(status)
    case Found(node) =>
      if node.None? || !tree[node.value].isDirectory then Failed(NotDirectory)
      else if node.value in unread then Failed(unread[node.value])
      else info
  }

  /** Panicked stands for the creation of a file, which is not written yet. */
  datatype Opening = Opened(node: nat) | Refused(status: Status) | Panicked

  /** Looking a file up in its parent directory, among the children from the i-th on (lines 69-88). */
  function FileAmong(tree: Tree, d: nat, name: Path, i: nat, found: Option<nat>): Opening
    requires d in tree && i <= |tree[d].children|
    decreases |tree[d].children| - i
  {
    if i == |tree[d].children| then (if found.Some? then Opened(found.value) else Refused(NoSuchDirectoryOrFile))
    else if NameAt(tree, d, i, name) then
      var child := tree[d].children[i];
      if tree[child].isFile then FileAmong(tree, d, name, i + 1, Some(child)) else Refused(NotFile)
    else FileAmong(tree, d, name, i + 1, found)
  }

  /** No two children have the same name. */
  predicate UniqueNames(tree: Tree, d: nat)
    requires d in tree
  {
    forall i, j | 0 <= i < j < |tree[d].children| && tree[d].children[i] in tree ::
      !NameAt(tree, d, j, tree[tree[d].children[i]].name)
  }

  /** Looking a file up in its parent directory. */
  function FileIn(tree: Tree, unread: Unread, parent: Info, name: Path): Opening
    requires IsIn(tree, parent)
  {
    match DirectoryOf(tree, unread, parent)
    case Failed(status) => Refused(status)
    case Found(d) => FileAmong(tree, d.value, name, 0, None)
  }

  /** What opening makes of the node that a whole path leads to. */
  function AsFile(tree: Tree, info: Info): Opening
    requires IsIn(tree, info)
  {
    match info
    case Failed(status) => Refused(status)
    case Found(node) => if node.Some? && tree[node.value].isFile then Opened(node.value) else Refused(NotFile)
  }

  lemma {:induction false} NoneAmong(tree: Tree, d: nat, name: Path, i: nat, found: Option<nat>)
    requires d in tree && i <= |tree[d].children| && forall j | i <= j < |tree[d].children| :: !NameAt(tree, d, j, name)
    ensures FileAmong(tree, d, name, i, found) == if found.Some? then Opened(found.value)
                                                  else Refused(NoSuchDirectoryOrFile)
    decreases |tree[d].children| - i
  {
    if i < |tree[d].children| {
      NoneAmong(tree, d, name, i + 1, found);
    }
  }

  lemma {:induction false} AmongIsChild(tree: Tree, d: nat, name: Path, i: nat)
    requires Closed(tree) && d in tree && i <= |tree[d].children| && UniqueNames(tree, d)
    ensures FileAmong(tree, d, name, i, None) ==
            match ChildFrom(tree, d, name, i)
            case None => Refused(NoSuchDirectoryOrFile)
            case Some(child) => if child in tree && tree[child].isFile then Opened(child) else Refused(NotFile)
    decreases |tree[d].children| - i
  {
    if i < |tree[d].children| {
      if NameAt(tree, d, i, name) {
        NoneAmong(tree, d, name, i + 1, Some(tree[d].children[i]));
      } else {
        AmongIsChild(tree, d, name, i + 1);
      }
    }
  }

  /** What a directory gives for a name whose child, if any, is known. */
  lemma AmongIs(tree: Tree, d: nat, name: Path)
    requires Closed(tree) && d in tree && UniqueNames(tree, d)
    ensures var child := ChildFrom(tree, d, name, 0);
      && (child.Some? ==> child.value in tree)
      && FileAmong(tree, d, name, 0, None) ==
           if child.None? then Refused(NoSuchDirectoryOrFile)
           else if tree[child.value].isFile then Opened(child.value) else Refused(NotFile)
  {
    AmongIsChild(tree, d, name, 0);
    if ChildFrom(tree, d, name, 0).Some? {
      ChildIn(tree, d, name, 0);
    }
  }

  predicate NoneNamed(tree: Tree, d: nat, name: Path, i: nat)
    requires d in tree
  {
    forall j: nat | i <= j < |tree[d].children| :: !NameAt(tree, d, j, name)
  }

  /** No child of a name is anything but a file. */
  predicate OnlyFilesNamed(tree: Tree, d: nat, name: Path, i: nat)
    requires d in tree
  {
    forall j | i <= j < |tree[d].children| && NameAt(tree, d, j, name) :: tree[tree[d].children[j]].isFile
  }

  /** A child is the last of its name. */
  predicate IsLastNamed(tree: Tree, d: nat, name: Path, i: nat, n: nat)
    requires d in tree
  {
    exists k: nat | i <= k < |tree[d].children| ::
      NameAt(tree, d, k, name) && tree[d].children[k] == n && NoneNamed(tree, d, name, k + 1)
  }

  /** The last child of a name is opened if all of that name are files; one that is not is an error. */
  lemma {:induction false} LastFileIsOpened(tree: Tree, d: nat, name: Path, i: nat, found: Option<nat>)
    requires d in tree && i <= |tree[d].children|
    ensures var r := FileAmong(tree, d, name, i, found);
      && (r == Refused(NotFile) <==> !OnlyFilesNamed(tree, d, name, i))
      && (r == Refused(NoSuchDirectoryOrFile) <==> NoneNamed(tree, d, name, i) && found.None?)
      && (r.Opened? <==> OnlyFilesNamed(tree, d, name, i) && !(NoneNamed(tree, d, name, i) && found.None?))
      && (r.Opened? ==>
            IsLastNamed(tree, d, name, i, r.node) || (NoneNamed(tree, d, name, i) && found == Some(r.node)))
    decreases |tree[d].children| - i
  {
    if i < |tree[d].children| {
      if NameAt(tree, d, i, name) {
        if tree[tree[d].children[i]].isFile {
          LastFileIsOpened(tree, d, name, i + 1, Some(tree[d].children[i]));
        }
      } else {
        LastFileIsOpened(tree, d, name, i + 1, found);
      }
    }
  }

  /** Two directories treat a name alike: neither has it, both have the same child for it, or both have
      children that are no files. */
  predicate SameFor(tree: Tree, d: nat, t: nat, name: Path)
    requires d in tree && t in tree
  {
    match (ChildFrom(tree, d, name, 0), ChildFrom(tree, t, name, 0))
    case (None, None) => true
    case (Some(a), Some(b)) => a == b || (a in tree && !tree[a].isFile && b in tree && !tree[b].isFile)
    case _ => false
  }

  /** Nothing is mounted on the parent; or neither it nor what is mounted there can be read, for the
      same reason; or both can, and treat the name alike. */
  predicate MountIsHarmless(tree: Tree, unread: Unread, d: nat, name: Path)
    requires Closed(tree) && d in tree
  {
    assert ClosedAt(tree, tree[d]);
    var t := Through(tree, d);
    || tree[d].mounted.None?
    || (d in unread && t in unread && unread[d] == unread[t])
    || (d !in unread && t !in unread && SameFor(tree, d, t, name))
  }

  /** Looking up the parent and then the name finds what a walk along the whole path finds exactly if
      no directory is the parent, or what is mounted there does not matter. */
  lemma OpenAgreesWithWalkIff(tree: Tree, unread: Unread, root: nat, parts: seq<Path>, name: Path)
    requires Closed(tree) && root in tree && parts != [] && parts[|parts| - 1] == name && name != DOT && name != DOT_DOT
    requires var parent := Walk(tree, unread, root, parts[..|parts| - 1]);
      parent.Found? && parent.node.Some? ==> UniqueNames(tree, parent.node.value)
    ensures var parent := Walk(tree, unread, root, parts[..|parts| - 1]);
      FileIn(tree, unread, parent, name) == AsFile(tree, Walk(tree, unread, root, parts)) <==>
        (parent.Found? && parent.node.Some? && tree[parent.node.value].isDirectory ==>
           MountIsHarmless(tree, unread, parent.node.value, name))
  {
    var parent := Walk(tree, unread, root, parts[..|parts| - 1]);
    if parent.Found? && parent.node.Some? {
      var d := parent.node.value;
      assert ClosedAt(tree, tree[d]);
      AmongIs(tree, d, name);
      if ChildFrom(tree, Through(tree, d), name, 0).Some? {
        ChildIn(tree, Through(tree, d), name, 0);
      }
    }
  }

  /** So a file below a mount point that has no child of its name is found by a walk, but not by
      opening it. */
  lemma MountedParentMissesFile(tree: Tree, unread: Unread, root: nat, parts: seq<Path>, name: Path, d: nat)
    requires Closed(tree) && root in tree && parts != [] && parts[|parts| - 1] == name && name != DOT && name != DOT_DOT
    requires Walk(tree, unread, root, parts[..|parts| - 1]) == Found(Some(d)) && d in tree && UniqueNames(tree, d)
    requires tree[d].isDirectory && tree[d].mounted.Some? && d !in unread && tree[d].mounted.value !in unread
    requires tree[d].mounted.value in tree && ChildFrom(tree, d, name, 0).None?
    requires var file := ChildFrom(tree, tree[d].mounted.value, name, 0);
      file.Some? && file.value in tree && tree[file.value].isFile
    ensures AsFile(tree, Walk(tree, unread, root, parts))
            == Opened(ChildFrom(tree, tree[d].mounted.value, name, 0).value)
    ensures OpeningOf(tree, unread, root, parts, false) == Refused(NoSuchDirectoryOrFile)
  {
    AmongIs(tree, d, name);
  }

  class FileSystem {
    const tree: Tree
    const root: nat
    /** The directories whose children have been read. */
    var created: set<nat>
    /** The open file descriptors of each node, and the next descriptor to be made. */
    var descriptors: map<nat, seq<nat>>
    var next: nat

    ghost predicate Valid()
      reads this
    {
      && Closed(tree) && root in tree && descriptors.Keys == tree.Keys
      && forall n, i | n in tree && 0 <= i < |descriptors[n]| :: descriptors[n][i] < next
    }

    /** What cannot be read if the device fails for some nodes. */
    ghost function UnreadWith(device: Unread): Unread
      reads this`created
    {
      map n | n in device && n !in created :: device[n]
    }

    constructor (tree: Tree, root: nat)
      requires Closed(tree) && root in tree
      ensures Valid() && this.tree == tree && this.root == root && created == {}
      ensures forall n | n in tree :: descriptors[n] == []
    {
      this.tree, this.root, created := tree, root, {};
      descriptors := map n | n in tree :: [];
      next := 0;
    }

    /** The first child of a name (lines 149-156). */
    method FindChild(d: nat, name: Path) returns (child: Option<nat>)
      requires Closed(tree) && d in tree
      ensures child == ChildFrom(tree, d, name, 0)
    {
      var children := tree[d].children;
      assert ClosedAt(tree, tree[d]);
      for i := 0 to |children|
        invariant ChildFrom(tree, d, name, 0) == ChildFrom(tree, d, name, i)
      {
        if tree[children[i]].name == name {
          return Some(children[i]);
        }
      }
      child := None;
    }

    /** Has a directory's children read unless they have been (lines 135-143). */
    method ReadChildren(d: nat, device: Unread) returns (failure: Option<Failure>)
      modifies this`created
      ensures failure == if d in old(UnreadWith(device)) then Some(device[d]) else None
      ensures created == if failure.Some? then old(created) else old(created) + {d}
      ensures UnreadWith(device) == old(UnreadWith(device))
    {
      if d in created {
        return None;
      }
      if d in device {
        return Some(device[d]);
      }
      created := created + {d};
      failure := None;
    }

    /** Finds the node of a path (lines 119-171). */
    method GetInfo(path: Path, device: Unread) returns (info: Info)
      requires Valid()
      modifies this`created
      ensures IsIn(tree, info) && old(created) <= created && UnreadWith(device) == old(UnreadWith(device))
      ensures !IsAbsolute(path) ==> info == Failed(InvalidPath)
      ensures IsAbsolute(path) ==>
                forall parts | IsSplit(path, parts) :: info == Walk(tree, old(UnreadWith(device)), root, parts)
    {
      var valid := IsValidAbsolutePath(path);
      if !valid {
        return Failed(InvalidPath);
      }
      var pathParts := SplitAbsolutePath(path);
      forall parts | IsSplit(path, parts) ensures parts == pathParts {
        SplitOnce(path, parts, pathParts);
      }
      info := FollowParts(pathParts, device);
    }

    /** Follows the parts of a path from the root (lines 128-166). */
    method FollowParts(pathParts: seq<Path>, device: Unread) returns (info: Info)
      requires Valid()
      modifies this`created
      ensures old(created) <= created && UnreadWith(device) == old(UnreadWith(device))
      ensures info == Walk(tree, old(UnreadWith(device)), root, pathParts)
    {
      ghost var unread := UnreadWith(device);
      var currentNode := Some(root);
      for i := 0 to |pathParts|
        invariant old(created) <= created && UnreadWith(device) == unread
        invariant IsIn(tree, Found(currentNode)) && Walk(tree, unread, root, pathParts[..i]) == Found(currentNode)
      {
        assert pathParts[..i + 1][..i] == pathParts[..i];
        var step := StepTo(currentNode, pathParts[i], device);
        if step.Failed? {
          FailedWalk(tree, unread, root, pathParts, i + 1);
          return step;
        }
        currentNode := step.node;
      }
      assert pathParts[..|pathParts|] == pathParts;
      info := Found(currentNode);
    }

    /** From a node to the one that a part of a path names there (lines 131-165). */
    method StepTo(currentNode: Option<nat>, part: Path, device: Unread) returns (step: Info)
      requires Valid() && IsIn(tree, Found(currentNode))
      modifies this`created
      ensures old(created) <= created && UnreadWith(device) == old(UnreadWith(device))
      ensures step == Step(tree, old(UnreadWith(device)), currentNode, part) && IsIn(tree, step)
    {
      StepIn(tree, UnreadWith(device), currentNode, part);
      if currentNode.Some? && tree[currentNode.value].isDirectory {
        assert ClosedAt(tree, tree[currentNode.value]);
        var d := currentNode.value;
        if tree[d].mounted.Some? {
          d := tree[d].mounted.value;
        }
        var failure := ReadChildren(d, device);
        if failure.Some? {
          return Failed(failure.value);
        }
        if part == DOT {
          return Found(Some(d));
        } else if part == DOT_DOT {
          return Found(tree[d].parent);
        }
        var child := FindChild(d, part);
        if child.None? {
          return Failed(NoSuchDirectoryOrFile);
        }
        return Found(child);
      }
      step := Failed(NotDirectory);
    }

    /** The directory of a path that ends in a slash (lines 173-204). */
    method ReadDirectory(path: Path, device: Unread) returns (info: Info)
      requires Valid()
      modifies this`created
      ensures IsIn(tree, info) && (info.Found? ==> info.node.Some?)
      ensures old(created) <= created && UnreadWith(device) == old(UnreadWith(device))
      ensures IsAbsolute(path) && Trailing(path) == [SLASH] ==>
                var unread := old(UnreadWith(device));
                forall parts | IsSplit(path, parts) ::
                    info == DirectoryOf(tree, unread, Walk(tree, unread, root, parts))
      ensures !IsAbsolute(path) || Trailing(path) != [SLASH] ==> info == Failed(InvalidPath)
    {
      if path == [] || path[|path| - 1] != SLASH {
        return Failed(InvalidPath);
      }
      info := GetInfo(path, device);
      if info.Failed? {
        return;
      }
      if info.node.None? || !tree[info.node.value].isDirectory {
        return Failed(NotDirectory);
      }
      var failure := ReadChildren(info.node.value, device);
      if failure.Some? {
        info := Failed(failure.value);
      }
    }

    /** The file of a name among a directory's children (lines 69-79). */
    method FindFile(d: nat, name: Path) returns (r: Opening)
      requires Closed(tree) && d in tree
      ensures r == FileAmong(tree, d, name, 0, None) && (r.Opened? ==> r.node in tree)
    {
      var children := tree[d].children;
      assert ClosedAt(tree, tree[d]);
      var fileNode := None;
      for i := 0 to |children|
        invariant FileAmong(tree, d, name, 0, None) == FileAmong(tree, d, name, i, fileNode)
        invariant fileNode.Some? ==> fileNode.value in tree
      {
        if tree[children[i]].name == name {
          if tree[children[i]].isFile {
            fileNode := Some(children[i]);
          } else {
            return Refused(NotFile);
          }
        }
      }
      r := if fileNode.Some? then Opened(fileNode.value) else Refused(NoSuchDirectoryOrFile);
    }

    /** Looks a file up in its parent directory (lines 63-88). */
    method Lookup(path: Path, create: bool, device: Unread) returns (r: Opening)
      requires Valid() && IsAbsolute(path) && Trailing(path) != [SLASH]
      modifies this`created
      ensures old(created) <= created && UnreadWith(device) == old(UnreadWith(device))
      ensures forall parts | IsSplit(path, parts) ::
                parts != [] && r == OpeningOf(tree, old(UnreadWith(device)), root, parts, create)
      ensures r.Opened? ==> r.node in tree
    {
      var parent, name := SplitParentDirectory(path);
      assert path != [SLASH];
      assert forall parts | IsSplit(path, parts) :: IsParentSplit(parts, parent, name);
      var directory := ReadDirectory(parent, device);
      var pathParts := SplitAbsolutePath(path);
      assert IsParentSplit(pathParts, parent, name) && IsSplit(parent, pathParts[..|pathParts| - 1]);
      forall parts | IsSplit(path, parts) ensures parts == pathParts {
        SplitOnce(path, parts, pathParts);
      }
      if directory.Failed? {
        return Refused(directory.status);
      }
      r := FindFile(directory.node.value, name);
      if r == Refused(NoSuchDirectoryOrFile) && create {
        r := Panicked;
      }
    }

    /** Opens a file (lines 53-98); `create` is the CreateIfNotExists flag. */
    method OpenFile(path: Path, create: bool, device: Unread) returns (r: Opening, descriptor: nat)
      requires Valid()
      modifies this
      ensures Valid() && old(created) <= created && UnreadWith(device) == old(UnreadWith(device))
      ensures !IsAbsolute(path) || Trailing(path) == [SLASH] ==> r == Refused(InvalidPath)
      ensures IsAbsolute(path) && Trailing(path) != [SLASH] ==>
                forall parts | IsSplit(path, parts) ::
                  parts != [] && r == OpeningOf(tree, old(UnreadWith(device)), root, parts, create)
      ensures r.Opened? ==>
                && r.node in tree && descriptor == old(next) && next == old(next) + 1
                && descriptors == old(descriptors)[r.node := old(descriptors)[r.node] + [descriptor]]
      ensures !r.Opened? ==> descriptors == old(descriptors) && next == old(next)
    {
      descriptor := 0;
      var valid := IsValidAbsolutePath(path);
      if !valid || path[|path| - 1] == SLASH {
        return Refused(InvalidPath), 0;
      }
      r := Lookup(path, create, device);
      if r.Opened? {
        descriptor := next;
        descriptors := descriptors[r.node := descriptors[r.node] + [descriptor]];
        next := next + 1;
      }
    }

    /** Closes a descriptor of a node (lines 100-117). */
    method CloseFile(node: nat, descriptor: nat) returns (closed: bool)
      requires Valid() && node in tree
      modifies this`descriptors
      ensures Valid() && (closed <==> descriptor in old(descriptors)[node])
      ensures !closed ==> descriptors == old(descriptors)
      ensures closed ==>
                exists i | 0 <= i < |old(descriptors)[node]| ::
                  && old(descriptors)[node][i] == descriptor && descriptor !in old(descriptors)[node][..i]
                  && descriptors ==
                     old(descriptors)[node := old(descriptors)[node][..i] + old(descriptors)[node][i + 1..]]
    {
      var open := descriptors[node];
      for i := 0 to |open|
        invariant descriptor !in open[..i]
      {
        if open[i] == descriptor {
          descriptors := descriptors[node := open[..i] + open[i + 1..]];
          return true;
        }
        assert open[..i + 1] == open[..i] + [open[i]];
      }
      assert open[..|open|] == open;
      closed := false;
    }

    /** Closing a file right after opening it restores every node's descriptors. */
    method OpenAndClose(path: Path, device: Unread) returns (r: Opening)
      requires Valid()
      modifies this
      ensures Valid() && descriptors == old(descriptors)
    {
      var descriptor;
      r, descriptor := OpenFile(path, false, device);
      if r.Opened? {
        ghost var before := old(descriptors)[r.node];
        assert descriptors[r.node][|before|] == descriptor && descriptors[r.node][..|before|] == before;
        assert descriptor !in before;
        var closed := CloseFile(r.node, descriptor);
        assert descriptors[r.node] == before;
      }
    }
  }

  /** What opening the file of a path's parts gives. */
  function OpeningOf(tree: Tree, unread: Unread, root: nat, parts: seq<Path>, create: bool): Opening
    requires Closed(tree) && root in tree && parts != []
  {
    var parent := Walk(tree, unread, root, parts[..|parts| - 1]);
    var opening := FileIn(tree, unread, parent, parts[|parts| - 1]);
    if opening == Refused(NoSuchDirectoryOrFile) && create && DirectoryOf(tree, unread, parent).Found? then Panicked
    else opening
  }

  lemma {:induction false} FailedWalk(tree: Tree, unread: Unread, root: nat, parts: seq<Path>, n: nat)
    requires Closed(tree) && root in tree && n <= |parts| && Walk(tree, unread, root, parts[..n]).Failed?
    ensures Walk(tree, unread, root, parts) == Walk(tree, unread, root, parts[..n])
    decreases |parts| - n
  {
    if n == |parts| {
      assert parts[..n] == parts;
    } else {
      assert parts[..n + 1][..n] == parts[..n];
      FailedWalk(tree, unread, root, parts, n + 1);
    }
  }
}
