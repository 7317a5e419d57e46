/** Absolute paths and their parts (src/drivers/filesystems.cpp, lines 206-237 and 263-288). */
module Paths {
  import opened Unicode

  const SLASH: Byte := 0x2f
  const BACKSLASH: Byte := 0x5c
  const BAR: Byte := 0x7c

  type Path = seq<Byte>

  predicate AllowedAt(path: Path, i: nat)
    requires 0 < i < |path|
  {
    && !(path[i] == SLASH && path[i - 1] == SLASH)
    && path[i] > 0x1f && path[i] != BACKSLASH && path[i] != BAR
  }

  predicate IsAbsolute(path: Path) {
    && IsValid(path) && path != [] && path[0] == SLASH
    && forall i | 0 < i < |path| :: AllowedAt(path, i)
  }

  method IsValidAbsolutePath(path: Path) returns (valid: bool)
    ensures valid <==> IsAbsolute(path)
  {
    var utf8 := Scan(path);
    if !utf8 {
      return false;
    }
    if |path| == 0 || path[0] != SLASH {
      return false;
    }
    for i := 1 to |path|
      invariant forall k | 0 < k < i :: AllowedAt(path, k)
    {
      if path[i] == SLASH && path[i - 1] == SLASH {
        assert !AllowedAt(path, i);
        return false;
      }
      if path[i] <= 0x1f || path[i] == BACKSLASH || path[i] == BAR {
        assert !AllowedAt(path, i);
        return false;
      }
    }
    valid := true;
  }

  // ----- parts -----

  predicate IsPart(part: Path) {
    part != [] && SLASH !in part
  }

  /** Each part with a slash before it. */
  function JoinParts(parts: seq<Path>): Path {
    if parts == [] then [] else JoinParts(parts[..|parts| - 1]) + [SLASH] + parts[|parts| - 1]
  }

  function Trailing(path: Path): Path {
    if path != [] && path[|path| - 1] == SLASH then [SLASH] else []
  }

  /** The parts, put together again, are the path. */
  ghost predicate IsSplit(path: Path, parts: seq<Path>) {
    path == JoinParts(parts) + Trailing(path) && forall i | 0 <= i < |parts| :: IsPart(parts[i])
  }

  /** There is only one way to split a path. */
  lemma SplitOnce(path: Path, a: seq<Path>, b: seq<Path>)
    requires IsSplit(path, a) && IsSplit(path, b)
    ensures a == b
  {
    var t := Trailing(path);
    assert JoinParts(a) == path[..|path| - |t|] && JoinParts(b) == path[..|path| - |t|];
    SameParts(a, b);
  }

  lemma {:induction false} SameParts(a: seq<Path>, b: seq<Path>)
    requires JoinParts(a) == JoinParts(b)
    requires (forall i | 0 <= i < |a| :: IsPart(a[i])) && forall i | 0 <= i < |b| :: IsPart(b[i])
    ensures a == b
    decreases |a|
  {
    if a != [] && b != [] {
      var m, n := |a| - 1, |b| - 1;
      SameLastPart(JoinParts(a[..m]), a[m], JoinParts(b[..n]), b[n]);
      SameParts(a[..m], b[..n]);
      assert a == a[..m] + [a[m]] && b == b[..n] + [b[n]];
    }
  }

  /** What stands behind the last slash is known. */
  lemma SameLastPart(x: Path, part: Path, x': Path, part': Path)
    requires x + [SLASH] + part == x' + [SLASH] + part' && SLASH !in part && SLASH !in part'
    ensures x == x' && part == part'
  {
    var s := x + [SLASH] + part;
    assert s[|x|] == SLASH && s[|x'|] == SLASH;
    assert x == s[..|x|] && x' == s[..|x'|];
    assert part == s[|x| + 1..] && part' == s[|x'| + 1..];
  }

  lemma LastIn(path: Path, pos: nat)
    requires path != [] && pos <= |path|
    ensures pos < |path| ==> path[|path| - 1] in path[pos..]
  {
    assert pos < |path| ==> path[pos..][|path| - 1 - pos] == path[|path| - 1];
  }

  lemma JoinOnePart(parts: seq<Path>, part: Path)
    ensures JoinParts(parts + [part]) == JoinParts(parts) + [SLASH] + part
  {
    assert (parts + [part])[..|parts|] == parts;
  }

  /** The path up to n is the parts found so far and the beginning of one from `pos` on. */
  ghost predicate SplitSoFar(path: Path, parts: seq<Path>, pos: nat, n: nat) {
    && 1 <= pos <= n <= |path| && path[pos - 1] == SLASH && path[..pos - 1] == JoinParts(parts)
    && SLASH !in path[pos..n] && forall i | 0 <= i < |parts| :: IsPart(parts[i])
  }

  /** The parts of a path (lines 223-237). */
  method SplitAbsolutePath(path: Path) returns (parts: seq<Path>)
    requires IsAbsolute(path)
    ensures IsSplit(path, parts)
  {
    parts := [];
    var pos, currentPos := 1, 1;
    while currentPos < |path|
      invariant SplitSoFar(path, parts, pos, currentPos)
    {
      SplitOneMore(path, parts, pos, currentPos);
      if SLASH == path[currentPos] {
        parts := parts + [path[pos..currentPos]];
        pos := currentPos + 1;
      }
      currentPos := currentPos + 1;
    }
    SplitDone(path, parts, pos);
    if path[|path| - 1] != SLASH {
      parts := parts + [path[pos..]];
    }
  }

  lemma SplitOneMore(path: Path, parts: seq<Path>, pos: nat, n: nat)
    requires IsAbsolute(path) && n < |path| && SplitSoFar(path, parts, pos, n)
    ensures if path[n] == SLASH then SplitSoFar(path, parts + [path[pos..n]], n + 1, n + 1)
            else SplitSoFar(path, parts, pos, n + 1)
  {
    assert AllowedAt(path, n);
    assert path[pos..n + 1] == path[pos..n] + [path[n]];
    PushPart(path, parts, pos, n);
  }

  lemma SplitDone(path: Path, parts: seq<Path>, pos: nat)
    requires path != [] && SplitSoFar(path, parts, pos, |path|)
    ensures IsSplit(path, if path[|path| - 1] == SLASH then parts else parts + [path[pos..]])
  {
    assert path[pos..|path|] == path[pos..] && path[..|path|] == path;
    LastIn(path, pos);
    if path[|path| - 1] == SLASH {
      assert path == path[..pos - 1] + [SLASH];
    } else {
      PushPart(path, parts, pos, |path|);
      assert path + [] == path;
    }
  }

  lemma PushPart(path: Path, parts: seq<Path>, pos: nat, n: nat)
    requires 1 <= pos <= n <= |path| && path[pos - 1] == SLASH && path[..pos - 1] == JoinParts(parts)
    ensures path[..n] == JoinParts(parts + [path[pos..n]])
  {
    JoinOnePart(parts, path[pos..n]);
    assert path[..n] == path[..pos - 1] + [SLASH] + path[pos..n];
  }

  // ----- the parent directory -----

  /** The path's last part is the name, and the parts before it are the parent's, which ends in a slash. */
  ghost predicate IsParentSplit(parts: seq<Path>, parent: Path, name: Path) {
    && IsAbsolute(parent) && Trailing(parent) == [SLASH]
    && parts != [] && IsSplit(parent, parts[..|parts| - 1]) && parts[|parts| - 1] == name
  }

  lemma ContinuesAt(s: Path, n: nat, k: nat)
    requires 0 < k < n <= |s| && AllContinue(s[1..n])
    ensures IsContinuation(s[k])
  {
    assert s[1..n][k - 1] == s[k];
  }

  /** A string cut after an ASCII byte is still UTF-8. */
  lemma {:induction false} CutValid(s: Path, k: nat)
    requires IsValid(s) && k < |s| && s[k] < 128
    ensures IsValid(s[..k + 1])
    decreases |s|
  {
    var n := Lead(s[0]);
    if 0 < k < n {
      ContinuesAt(s, n, k);
    }
    if k > 0 {
      CutValid(s[n..], k - n);
      assert s[..k + 1][n..] == s[n..][..k - n + 1] && s[..k + 1][1..n] == s[1..n];
    }
  }

  lemma CutAbsolute(path: Path, k: nat)
    requires IsAbsolute(path) && k < |path| && path[k] == SLASH
    ensures IsAbsolute(path[..k + 1]) && Trailing(path[..k + 1]) == [SLASH]
  {
    CutValid(path, k);
    var cut := path[..k + 1];
    forall i | 0 < i < |cut| ensures AllowedAt(cut, i) {
      assert AllowedAt(path, i);
    }
  }

  /** Where the last slash before the last part stands. */
  lemma LastSlash(path: Path, parts: seq<Path>, k: nat)
    requires IsAbsolute(path) && path != [SLASH] && IsSplit(path, parts)
    requires var end := |path| - |Trailing(path)|; k < end && path[k] == SLASH && SLASH !in path[k + 1..end]
    ensures parts != [] && JoinParts(parts[..|parts| - 1]) == path[..k]
    ensures parts[|parts| - 1] == path[k + 1..|path| - |Trailing(path)|]
  {
    var end := |path| - |Trailing(path)|;
    assert JoinParts(parts) == path[..end];
    var m := |parts| - 1;
    assert path[..end] == path[..k] + [SLASH] + path[k + 1..end];
    SameLastPart(JoinParts(parts[..m]), parts[m], path[..k], path[k + 1..end]);
  }

  /** The parent directory's path and the name in it (lines 206-221). */
  method SplitParentDirectory(path: Path) returns (parent: Path, name: Path)
    requires IsAbsolute(path)
    ensures path == [SLASH] ==> parent == path && name == []
    ensures path != [SLASH] ==> forall parts | IsSplit(path, parts) :: IsParentSplit(parts, parent, name)
  {
    if path == [SLASH] {
      return path, [];
    }
    var isDir := path[|path| - 1] == SLASH;
    var length := |path| - if isDir then 2 else 1;
    ghost var end := length + 1;
    assert isDir ==> |path| >= 2;
    assert path[0] in path[0..end];
    while length >= 0
      invariant -1 <= length < end <= |path| && SLASH !in path[length + 1..end]
    {
      if path[length] == SLASH {
        break;
      }
      assert path[length..end] == [path[length]] + path[length + 1..end];
      length := length - 1;
    }
    parent := path[..length + 1];
    name := path[length + 1..length + 1 + (|path| - length - if isDir then 2 else 1)];
    CutAbsolute(path, length);
    forall parts | IsSplit(path, parts) ensures IsParentSplit(parts, parent, name) {
      LastSlash(path, parts, length);
      assert parent == path[..length] + [SLASH];
    }
  }

  // ----- which paths are accepted -----

  /** Some bytes that are UTF-8, none of them a control character, "/", "\\" or "|". */
  predicate IsProper(part: Path) {
    part != [] && IsValid(part)
    && forall i | 0 <= i < |part| :: part[i] >= 0x20 && part[i] != 0x2f && part[i] != 0x5c && part[i] != 0x7c
  }

  predicate AllProper(parts: seq<Path>) {
    forall i | 0 <= i < |parts| :: IsProper(parts[i])
  }

  lemma {:induction false} ValidConcat(a: Path, b: Path)
    requires IsValid(a) && IsValid(b)
    ensures IsValid(a + b)
    decreases |a|
  {
    if a == [] {
      assert a + b == b;
    } else {
      var n := Lead(a[0]);
      ValidConcat(a[n..], b);
      assert (a + b)[1..n] == a[1..n] && (a + b)[n..] == a[n..] + b;
    }
  }

  /** A string cut at an ASCII byte is two strings of UTF-8. */
  lemma {:induction false} CutBoth(s: Path, k: nat)
    requires IsValid(s) && k < |s| && s[k] < 128
    ensures IsValid(s[..k]) && IsValid(s[k + 1..])
    decreases |s|
  {
    var n := Lead(s[0]);
    if 0 < k < n {
      ContinuesAt(s, n, k);
    }
    if k > 0 {
      CutBoth(s[n..], k - n);
      assert s[..k][n..] == s[n..][..k - n] && s[..k][1..n] == s[1..n] && s[n..][k - n + 1..] == s[k + 1..];
    }
  }

  lemma {:induction false} ValidParts(parts: seq<Path>)
    requires IsValid(JoinParts(parts))
    ensures forall i | 0 <= i < |parts| :: IsValid(parts[i])
  {
    if parts != [] {
      var before, part := parts[..|parts| - 1], parts[|parts| - 1];
      var s, k := JoinParts(parts), |JoinParts(before)|;
      assert s[..k] == JoinParts(before) && s[k] == SLASH && s[k + 1..] == part;
      CutBoth(s, k);
      ValidParts(before);
    }
  }

  /** Every byte of a part stands in the path, behind the first slash. */
  lemma {:induction false} PartIn(parts: seq<Path>, i: nat, k: nat)
    requires i < |parts| && k < |parts[i]|
    ensures exists j | 0 < j < |JoinParts(parts)| :: JoinParts(parts)[j] == parts[i][k]
    decreases |parts|
  {
    var before, part := parts[..|parts| - 1], parts[|parts| - 1];
    if i < |before| {
      PartIn(before, i, k);
      var j :| 0 < j < |JoinParts(before)| && JoinParts(before)[j] == before[i][k];
      assert JoinParts(parts)[j] == parts[i][k];
    } else {
      assert JoinParts(parts)[|JoinParts(before)| + 1 + k] == part[k];
    }
  }

  lemma AbsoluteIsProper(path: Path, parts: seq<Path>)
    requires IsAbsolute(path) && IsSplit(path, parts)
    ensures AllProper(parts)
  {
    var joined := JoinParts(parts);
    assert IsValid(joined) by {
      if Trailing(path) == [SLASH] {
        CutBoth(path, |joined|);
        assert path[..|joined|] == joined;
      } else {
        assert path == joined;
      }
    }
    ValidParts(parts);
    forall i, k | 0 <= i < |parts| && 0 <= k < |parts[i]|
      ensures parts[i][k] >= 0x20 && parts[i][k] != 0x2f && parts[i][k] != 0x5c && parts[i][k] != 0x7c
    {
      PartIn(parts, i, k);
      var j :| 0 < j < |joined| && joined[j] == parts[i][k];
      assert AllowedAt(path, j) && path[j] == joined[j];
      assert IsPart(parts[i]);
    }
  }

  lemma RootIsAbsolute()
    ensures IsAbsolute([SLASH])
  {
    assert [SLASH][1..] == [];
  }

  lemma SlashAppended(path: Path)
    requires IsAbsolute(path) && path[|path| - 1] != SLASH
    ensures IsAbsolute(path + [SLASH])
  {
    assert IsValid([SLASH]);
    ValidConcat(path, [SLASH]);
    forall i | 0 < i < |path + [SLASH]| ensures AllowedAt(path + [SLASH], i) {
      assert i < |path| ==> AllowedAt(path, i);
    }
  }

  lemma ProperAppended(path: Path, name: Path)
    requires IsAbsolute(path) && path[|path| - 1] == SLASH && IsProper(name)
    ensures IsAbsolute(path + name) && (path + name)[|path + name| - 1] != SLASH
  {
    ValidConcat(path, name);
    forall i | 0 < i < |path + name| ensures AllowedAt(path + name, i) {
      assert i < |path| ==> AllowedAt(path, i);
      assert i >= |path| ==> (path + name)[i] == name[i - |path|];
    }
  }

  lemma {:induction false} ProperIsAbsolute(parts: seq<Path>)
    requires AllProper(parts) && parts != []
    ensures IsAbsolute(JoinParts(parts)) && JoinParts(parts)[|JoinParts(parts)| - 1] != SLASH
  {
    var before, part := parts[..|parts| - 1], parts[|parts| - 1];
    assert IsProper(part);
    if before == [] {
      RootIsAbsolute();
      assert JoinParts(before) + [SLASH] == [SLASH];
    } else {
      ProperIsAbsolute(before);
      SlashAppended(JoinParts(before));
    }
    ProperAppended(JoinParts(before) + [SLASH], part);
  }

  /** A path is accepted exactly if all its parts are names: some bytes of UTF-8 without a control
      character, slash, backslash or bar. */
  lemma AbsoluteIffProper(path: Path, parts: seq<Path>)
    requires IsSplit(path, parts)
    ensures IsAbsolute(path) <==> path != [] && AllProper(parts)
  {
    if IsAbsolute(path) {
      AbsoluteIsProper(path, parts);
    }
    if path != [] && AllProper(parts) {
      if parts == [] {
        RootIsAbsolute();
        assert path == [SLASH];
      } else {
        ProperIsAbsolute(parts);
        if Trailing(path) == [SLASH] {
          SlashAppended(JoinParts(parts));
        } else {
          assert path == JoinParts(parts);
        }
      }
    }
  }
}
