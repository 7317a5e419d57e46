/** The shape of the page tables below the top-level table, slot 510 aside, and the four ways in
    which the kernel edits them. A table is named by the indexes that lead to it from the top. */
module PageTree {
  import opened Options
  import opened PageWalk

  type Path = seq<nat>

  /** The frame that holds each table. */
  type Tables = map<Path, nat>

  /** The indexes of an address from the top down to a level; at level 0, of the page itself. */
  function PathTo(address: nat, level: nat): (p: Path)
    requires level <= 4
    ensures |p| == 4 - level && forall i | 0 <= i < |p| :: p[i] < 512
    decreases 4 - level
  {
    if level == 4 then [] else PathTo(address, level + 1) + [Index(address, level + 1)]
  }

  /** Entry i of the table p belongs to the tree, unlike the self-referencing entry. */
  predicate InTree(p: Path, i: nat) {
    i < 512 && (p == [] ==> i != RECURSIVE_ENTRY)
  }

  /** A table other than the root hangs below another table. */
  ghost predicate Hangs(tables: Tables, p: Path) {
    p != [] ==> p[..|p| - 1] in tables && InTree(p[..|p| - 1], p[|p| - 1])
  }

  /** The entries of an upper table point at exactly the tables below it. */
  ghost predicate Points(ram: Ram, tables: Tables, p: Path, i: nat) {
    && p in tables && tables[p] in ram && i < |ram[tables[p]]|
    && var e := ram[tables[p]][i];
       && (e.present <==> p + [i] in tables)
       && (e.present ==> e.frame == tables[p + [i]])
  }

  ghost predicate InRam(ram: Ram, tables: Tables, p: Path)
    requires p in tables
  {
    |p| <= 3 && tables[p] in ram && |ram[tables[p]]| == 512
  }

  ghost predicate OneParent(tables: Tables) {
    forall p, q | p in tables && q in tables && tables[p] == tables[q] :: p == q
  }

  ghost predicate Tree(ram: Ram, root: nat, tables: Tables) {
    && [] in tables && tables[[]] == root
    && SelfMapped(ram, root)
    && OneParent(tables)
    && (forall p {:trigger InRam(ram, tables, p)} | p in tables :: InRam(ram, tables, p))
    && (forall p {:trigger Hangs(tables, p)} | p in tables :: Hangs(tables, p))
    && forall p, i {:trigger Points(ram, tables, p, i)} | p in tables && |p| < 3 && InTree(p, i) ::
        Points(ram, tables, p, i)
  }

  /** The leaf entry that maps a page, if present. */
  function MappedAt(ram: Ram, tables: Tables, q: Path): Option<Entry>
    requires |q| == 4
  {
    if q[..3] in tables && tables[q[..3]] in ram && q[3] < |ram[tables[q[..3]]]| && ram[tables[q[..3]]][q[3]].present
    then Some(ram[tables[q[..3]]][q[3]])
    else None
  }

  function FrameOf(e: Option<Entry>): Option<nat> {
    if e.Some? then Some(e.value.frame) else None
  }

  /** No table below the root is empty. */
  ghost predicate Occupied(ram: Ram, tables: Tables, p: Path) {
    p in tables && tables[p] in ram && exists i: nat | i < |ram[tables[p]]| :: ram[tables[p]][i].present
  }

  ghost predicate NoneEmpty(ram: Ram, tables: Tables) {
    forall p {:trigger Occupied(ram, tables, p)} | p in tables && p != [] :: Occupied(ram, tables, p)
  }

  /** The walk of an address outside slot 510 goes through the tables on its path. */
  lemma {:induction false} LevelFrameIsTable(ram: Ram, root: nat, tables: Tables, address: nat, level: nat)
    requires Tree(ram, root, tables) && 1 <= level <= 4 && Index(address, 4) != RECURSIVE_ENTRY
    ensures LevelFrame(ram, root, address, level) ==
            if PathTo(address, level) in tables then Some(tables[PathTo(address, level)]) else None
    decreases 4 - level
  {
    if level < 4 {
      LevelFrameIsTable(ram, root, tables, address, level + 1);
      var up, i := PathTo(address, level + 1), Index(address, level + 1);
      if up in tables {
        assert InRam(ram, tables, up);
        assert InTree(up, i) && Points(ram, tables, up, i);
      } else {
        var p := PathTo(address, level);
        assert p[..|p| - 1] == up;
        assert p in tables ==> Hangs(tables, p);
      }
    }
  }

  lemma LevelZeroIsMapped(ram: Ram, root: nat, tables: Tables, address: nat)
    requires Tree(ram, root, tables) && Index(address, 4) != RECURSIVE_ENTRY
    ensures LevelFrame(ram, root, address, 0) == FrameOf(MappedAt(ram, tables, PathTo(address, 0)))
  {
    LevelFrameIsTable(ram, root, tables, address, 1);
    var q := PathTo(address, 0);
    assert q[..3] == PathTo(address, 1) && q[3] == Index(address, 1);
  }

  // ----- the edits -----

  function WithEntry(ram: Ram, frame: nat, i: nat, e: Entry): Ram
    requires frame in ram && i < |ram[frame]|
  {
    ram[frame := ram[frame][i := e]]
  }

  predicate AllAbsent(table: seq<Entry>) {
    forall i | 0 <= i < |table| :: !table[i].present
  }

  /** Every page but one is mapped as before. */
  ghost predicate SameMapping(ram: Ram, tables: Tables, ram': Ram, tables': Tables, except: set<Path>) {
    forall q: Path | |q| == 4 && q !in except :: MappedAt(ram', tables', q) == MappedAt(ram, tables, q)
  }

  /** A new, empty table goes below the table `up`. */
  lemma TableAdded(ram: Ram, ram': Ram, root: nat, tables: Tables, up: Path, i: nat, f: nat, e: Entry)
    requires Tree(ram, root, tables) && up in tables && |up| < 3 && InTree(up, i) && up + [i] !in tables
    requires f in ram && f !in tables.Values && e.present && e.frame == f
    requires tables[up] in ram && i < |ram[tables[up]]|
    requires ram'.Keys == ram.Keys && |ram'[f]| == 512 && AllAbsent(ram'[f])
    requires forall g | g in ram && g != f :: ram'[g] == WithEntry(ram, tables[up], i, e)[g]
    ensures Tree(ram', root, tables[up + [i] := f])
    ensures SameMapping(ram, tables, ram', tables[up + [i] := f], {})
  {
    var p, tables' := up + [i], tables[up + [i] := f];
    assert InRam(ram, tables, up);
    forall q | q in tables' ensures InRam(ram', tables', q) && Hangs(tables', q) {
      if q == p {
        assert p[..|p| - 1] == up;
      } else {
        assert InRam(ram, tables, q) && Hangs(tables, q);
      }
    }
    forall q: Path, k: nat | q in tables' && |q| < 3 && InTree(q, k) ensures Points(ram', tables', q, k) {
      AddedPoints(ram, ram', root, tables, up, i, f, e, q, k);
    }
    assert root in tables.Values;
    forall q: Path | |q| == 4 ensures MappedAt(ram', tables', q) == MappedAt(ram, tables, q) {
      if q[..3] in tables {
        assert InRam(ram, tables, q[..3]);
      }
    }
  }

  lemma AddedPoints(ram: Ram, ram': Ram, root: nat, tables: Tables, up: Path, i: nat, f: nat, e: Entry, q: Path, k: nat)
    requires Tree(ram, root, tables) && up in tables && |up| < 3 && InTree(up, i) && up + [i] !in tables
    requires f in ram && f !in tables.Values && e.present && e.frame == f
    requires tables[up] in ram && i < |ram[tables[up]]|
    requires ram'.Keys == ram.Keys && |ram'[f]| == 512 && AllAbsent(ram'[f])
    requires forall g | g in ram && g != f :: ram'[g] == WithEntry(ram, tables[up], i, e)[g]
    requires q in tables[up + [i] := f] && |q| < 3 && InTree(q, k) && tables[up + [i] := f][q] in ram'
    requires k < |ram'[tables[up + [i] := f][q]]|
    ensures Points(ram', tables[up + [i] := f], q, k)
  {
    var p, tables' := up + [i], tables[up + [i] := f];
    if q == p {
      assert (p + [k])[..|p|] == p;
      assert p + [k] in tables ==> Hangs(tables, p + [k]);
      assert p + [k] != p;
    } else {
      assert Points(ram, tables, q, k);
      assert q + [k] == p ==> q == up && k == i by {
        assert (q + [k])[..|q|] == q && (up + [i])[..|up|] == up;
      }
    }
  }

  /** A leaf entry changes: only that page is mapped differently. */
  lemma LeafChanged(ram: Ram, root: nat, tables: Tables, p: Path, i: nat, e: Entry)
    requires Tree(ram, root, tables) && p in tables && |p| == 3 && i < 512
    requires tables[p] in ram && i < |ram[tables[p]]|
    ensures Tree(WithEntry(ram, tables[p], i, e), root, tables)
    ensures SameMapping(ram, tables, WithEntry(ram, tables[p], i, e), tables, {p + [i]})
    ensures MappedAt(WithEntry(ram, tables[p], i, e), tables, p + [i]) == if e.present then Some(e) else None
  {
    var ram' := WithEntry(ram, tables[p], i, e);
    assert tables[[]] == root;
    forall q | q in tables ensures InRam(ram', tables, q) && Hangs(tables, q) {
      assert InRam(ram, tables, q) && Hangs(tables, q);
    }
    forall q: Path, k: nat | q in tables && |q| < 3 && InTree(q, k) ensures Points(ram', tables, q, k) {
      assert InRam(ram, tables, q) && Points(ram, tables, q, k);
    }
    forall q: Path | |q| == 4 && q !in {p + [i]} ensures MappedAt(ram', tables, q) == MappedAt(ram, tables, q) {
      if q[..3] in tables {
        assert InRam(ram, tables, q[..3]);
        assert q == q[..3] + [q[3]];
      }
    }
    assert (p + [i])[..3] == p;
  }

  lemma EmptyHasNoChild(ram: Ram, root: nat, tables: Tables, p: Path, q: Path)
    requires Tree(ram, root, tables) && p in tables && p != [] && q in tables
    requires tables[p] in ram && AllAbsent(ram[tables[p]])
    ensures q != [] ==> q[..|q| - 1] != p
  {
    if q != [] {
      var u, k := q[..|q| - 1], q[|q| - 1];
      assert q == u + [k];
      assert Hangs(tables, q) && InRam(ram, tables, q) && InRam(ram, tables, u);
      assert Points(ram, tables, u, k);
    }
  }

  /** An empty table is taken out from below `up`: no page is mapped differently. */
  lemma TableRemoved(ram: Ram, root: nat, tables: Tables, up: Path, i: nat, e: Entry)
    requires Tree(ram, root, tables) && up in tables && |up| < 3 && InTree(up, i) && up + [i] in tables
    requires tables[up + [i]] in ram && AllAbsent(ram[tables[up + [i]]]) && !e.present
    requires tables[up] in ram && i < |ram[tables[up]]|
    ensures Tree(WithEntry(ram, tables[up], i, e), root, tables - {up + [i]})
    ensures SameMapping(ram, tables, WithEntry(ram, tables[up], i, e), tables - {up + [i]}, {})
  {
    var p, ram', tables' := up + [i], WithEntry(ram, tables[up], i, e), tables - {up + [i]};
    assert InRam(ram, tables, up) && InRam(ram, tables, p);
    forall q | q in tables' ensures InRam(ram', tables', q) && Hangs(tables', q) {
      assert InRam(ram, tables, q) && Hangs(tables, q);
      EmptyHasNoChild(ram, root, tables, p, q);
    }
    forall q: Path, k: nat | q in tables' && |q| < 3 && InTree(q, k) ensures Points(ram', tables', q, k) {
      assert InRam(ram, tables, q) && Points(ram, tables, q, k);
      assert q + [k] == p ==> q == up && k == i by {
        assert (q + [k])[..|q|] == q && (up + [i])[..|up|] == up;
      }
    }
    forall q: Path | |q| == 4 ensures MappedAt(ram', tables', q) == MappedAt(ram, tables, q) {
      if q[..3] in tables {
        assert InRam(ram, tables, q[..3]);
      }
    }
  }

  /** Writing an entry of a table leaves the walk down to its level alone. */
  lemma {:induction false} WalkAboveEntry(ram: Ram, ram': Ram, root: nat, tables: Tables, address: nat, p: Path,
                                          i: nat, e: Entry, k: nat)
    requires Tree(ram, root, tables) && 1 <= k <= 4 && 4 - k <= |p| && Index(address, 4) != RECURSIVE_ENTRY
    requires Wrote(ram, ram', tables, p, i, e)
    ensures LevelFrame(ram', root, address, k) == LevelFrame(ram, root, address, k)
    decreases 4 - k
  {
    if k < 4 {
      var up, n := PathTo(address, k + 1), Index(address, k + 1);
      WalkAboveEntry(ram, ram', root, tables, address, p, i, e, k + 1);
      LevelFrameIsTable(ram, root, tables, address, k + 1);
      FollowElsewhere(ram, ram', tables, up, n, p, i, e);
      OneLevelDown(ram, root, address, k);
      OneLevelDown(ram', root, address, k);
    }
  }

  lemma OneLevelDown(ram: Ram, root: nat, address: nat, k: nat)
    requires k < 4
    ensures LevelFrame(ram, root, address, k)
            == Follow(ram, LevelFrame(ram, root, address, k + 1), Index(address, k + 1))
  {
  }

  /** Entry i of the table p was written. */
  ghost predicate Wrote(ram: Ram, ram': Ram, tables: Tables, p: Path, i: nat, e: Entry) {
    p in tables && tables[p] in ram && i < |ram[tables[p]]| && ram' == WithEntry(ram, tables[p], i, e)
  }

  /** Following an entry of one table is not affected by writing an entry of another. */
  lemma FollowElsewhere(ram: Ram, ram': Ram, tables: Tables, p: Path, i: nat, q: Path, k: nat, e: Entry)
    requires OneParent(tables) && p != q && Wrote(ram, ram', tables, q, k, e)
    ensures var g := if p in tables then Some(tables[p]) else None;
      Follow(ram', g, i) == Follow(ram, g, i)
  {
  }

  lemma SelfMappedKept(ram: Ram, root: nat, tables: Tables, p: Path, i: nat, e: Entry)
    requires Tree(ram, root, tables) && p in tables && InTree(p, i)
    requires tables[p] in ram && i < |ram[tables[p]]|
    ensures SelfMapped(WithEntry(ram, tables[p], i, e), root)
  {
    assert tables[[]] == root;
  }

  // ----- which tables there are -----

  /** With no empty table, a table exists exactly when some page below it is mapped. */
  lemma {:induction false} TableHasPage(ram: Ram, root: nat, tables: Tables, p: Path) returns (q: Path)
    requires Tree(ram, root, tables) && NoneEmpty(ram, tables) && p in tables && p != []
    ensures |q| == 4 && p <= q && MappedAt(ram, tables, q).Some?
    decreases 3 - |p|
  {
    assert InRam(ram, tables, p) && Occupied(ram, tables, p);
    var i: nat :| i < |ram[tables[p]]| && ram[tables[p]][i].present;
    if |p| == 3 {
      q := p + [i];
      assert q[..3] == p;
    } else {
      assert Points(ram, tables, p, i);
      q := TableHasPage(ram, root, tables, p + [i]);
      assert p <= p + [i];
    }
  }

  lemma {:induction false} PageHasTables(ram: Ram, root: nat, tables: Tables, p: Path, q: Path)
    requires Tree(ram, root, tables) && |q| == 4 && MappedAt(ram, tables, q).Some? && p <= q && |p| <= 3
    ensures p in tables
    decreases 3 - |p|
  {
    if |p| == 3 {
      assert p == q[..3];
    } else {
      var p' := q[..|p| + 1];
      PageHasTables(ram, root, tables, p', q);
      assert Hangs(tables, p') && p'[..|p'| - 1] == p;
    }
  }

  /** Two trees that grew from, or shrank to, parts of one tree and map pages alike have the same tables. */
  lemma SameMappingSameTables(ram: Ram, tables: Tables, ram': Ram, tables': Tables, root: nat)
    requires Tree(ram, root, tables) && NoneEmpty(ram, tables)
    requires Tree(ram', root, tables') && NoneEmpty(ram', tables')
    requires SameMapping(ram, tables, ram', tables', {})
    ensures tables.Keys == tables'.Keys
  {
    forall p | p in tables ensures p in tables' {
      if p != [] {
        assert InRam(ram, tables, p);
        var q := TableHasPage(ram, root, tables, p);
        PageHasTables(ram', root, tables', p, q);
      }
    }
    forall p | p in tables' ensures p in tables {
      if p != [] {
        assert InRam(ram', tables', p);
        var q := TableHasPage(ram', root, tables', p);
        assert MappedAt(ram', tables', q) == MappedAt(ram, tables, q);
        PageHasTables(ram, root, tables, p, q);
      }
    }
  }

  // ----- pages -----

  lemma PathIndexes(address: nat)
    ensures PathTo(address, 0) == [Index(address, 4), Index(address, 3), Index(address, 2), Index(address, 1)]
  {
    assert PathTo(address, 3) == [Index(address, 4)];
    assert PathTo(address, 2) == [Index(address, 4), Index(address, 3)];
    assert PathTo(address, 1) == [Index(address, 4), Index(address, 3), Index(address, 2)];
  }

  /** Two canonical addresses with the same four indexes lie in the same page. */
  lemma SamePathSamePage(a: nat, b: nat)
    requires IsCanonical(a) && IsCanonical(b) && PathTo(a, 0) == PathTo(b, 0)
    ensures a / 4096 == b / 4096
  {
    PathIndexes(a);
    PathIndexes(b);
    assert Index(a, 1) == Index(b, 1) && Index(a, 2) == Index(b, 2) && Index(a, 3) == Index(b, 3)
           && Index(a, 4) == Index(b, 4);
    var low := ((Index(a, 4) * 512 + Index(a, 3)) * 512 + Index(a, 2)) * 512 + Index(a, 1);
    FourIndexes(a);
    FourIndexes(b);
    CanonicalPage(a / 4096, a, low);
    CanonicalPage(b / 4096, b, low);
  }

  /** The low 36 bits of a page number are its four indexes. */
  lemma FourIndexes(a: nat)
    ensures a / 4096 == a / 0x80_0000_0000 / 512 * 0x10_0000_0000 +
                          (((Index(a, 4) * 512 + Index(a, 3)) * 512 + Index(a, 2)) * 512 + Index(a, 1))
  {
    ShiftedTwice(a);
    var n, q1, q2, q3 := a / 4096, a / 0x20_0000, a / 0x4000_0000, a / 0x80_0000_0000;
    assert n == q1 * 512 + Index(a, 1);
    assert q1 == q2 * 512 + Index(a, 2);
    assert q2 == q3 * 512 + Index(a, 3);
    assert q3 == q3 / 512 * 512 + Index(a, 4);
  }

  /** The page number of a canonical address is known from its low 36 bits. */
  lemma CanonicalPage(n: nat, a: nat, low: nat)
    requires IsCanonical(a) && n == a / 4096 && low < 0x10_0000_0000
    requires n == a / 0x80_0000_0000 / 512 * 0x10_0000_0000 + low
    ensures n == if low < 0x8_0000_0000 then low else 0xf_fff0_0000_0000 + low
  {
  }

  function PageAddress(address: nat, i: nat): nat {
    address + 4096 * i
  }

  /** The path of the i-th page from an address. */
  function PageAt(address: nat, i: nat): (q: Path)
    ensures |q| == 4
    decreases i
  {
    if i == 0 then PathTo(address, 0) else PageAt(address + 4096, i - 1)
  }

  lemma {:induction false} PageAtIs(address: nat, i: nat)
    ensures PageAt(address, i) == PathTo(PageAddress(address, i), 0)
    decreases i
  {
    if i > 0 {
      PageAtIs(address + 4096, i - 1);
      assert PageAddress(address + 4096, i - 1) == PageAddress(address, i);
    }
  }

  /** The paths of `n` consecutive pages. */
  ghost function PathsOf(address: nat, n: nat): set<Path>
  {
    if n == 0 then {} else PathsOf(address, n - 1) + {PageAt(address, n - 1)}
  }

  ghost predicate IsPage(q: Path, address: nat, i: nat) {
    q == PageAt(address, i)
  }

  lemma {:induction false} PathsOfIs(address: nat, n: nat, q: Path)
    ensures q in PathsOf(address, n) <==> exists i: nat | i < n :: IsPage(q, address, i)
  {
    if n > 0 {
      PathsOfIs(address, n - 1, q);
      assert q in PathsOf(address, n) <==> q in PathsOf(address, n - 1) || IsPage(q, address, n - 1);
    }
  }

  ghost predicate AllCanonical(address: nat, n: nat) {
    forall i: nat {:trigger IsCanonical(PageAddress(address, i))} | i < n :: IsCanonical(PageAddress(address, i))
  }

  lemma SamePageSameNumber(address: nat, n: nat, i: nat, j: nat)
    requires AllCanonical(address, n) && i < n && j < n && PageAt(address, i) == PageAt(address, j)
    ensures i == j
  {
    PageAtIs(address, i);
    PageAtIs(address, j);
    assert IsCanonical(PageAddress(address, i)) && IsCanonical(PageAddress(address, j));
    SamePathSamePage(PageAddress(address, i), PageAddress(address, j));
    SameNumber(address, i, j);
  }

  lemma SameNumber(address: nat, i: nat, j: nat)
    requires PageAddress(address, i) / 4096 == PageAddress(address, j) / 4096
    ensures i == j
  {
    assert PageAddress(address, i) / 4096 == address / 4096 + i;
    assert PageAddress(address, j) / 4096 == address / 4096 + j;
  }

  lemma NextPageIsNew(address: nat, n: nat)
    requires AllCanonical(address, n + 1)
    ensures PageAt(address, n) !in PathsOf(address, n)
  {
    var q := PageAt(address, n);
    PathsOfIs(address, n, q);
    if q in PathsOf(address, n) {
      var i: nat :| i < n && IsPage(q, address, i);
      SamePageSameNumber(address, n + 1, i, n);
    }
  }

  /** Canonical pages have different paths. */
  lemma PagesDiffer(address: nat, n: nat, i: nat, j: nat)
    requires AllCanonical(address, n) && i < n && j < n && i != j
    ensures PageAt(address, i) != PageAt(address, j)
  {
    if PageAt(address, i) == PageAt(address, j) {
      SamePageSameNumber(address, n, i, j);
    }
  }
}
