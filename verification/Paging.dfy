/** The page-table editor (src/boot/virtualmemmgmt.cpp, lines 484-584). It reaches every table by
    ordinary loads and stores through the self-referencing entry. */
module Paging {
  import opened Options
  import opened BuddyBits
  import opened Physical
  import opened PageWalk
  import opened PageTree

  datatype CrawlResult = CrawlResult(isCanonical: bool, indexes: seq<nat>, tables: seq<nat>,
                                     physicalTables: seq<Option<nat>>)

  const ABSENT: Entry := Entry(false, false, false, false, 0)

  function EmptyTable(): (t: seq<Entry>)
    ensures |t| == 512 && AllAbsent(t)
  {
    seq(512, _ => ABSENT)
  }

  /** The permissions asked for. */
  datatype Flags = Flags(writable: bool, cacheDisable: bool, executable: bool)

  /** Panicked stands for the kernel stopping. */
  datatype Outcome = Done | Failed | Panicked

  /** The arguments that mapping accepts. */
  predicate Aligned(address: nat, physicalAddress: nat, count: nat) {
    count != 0 && physicalAddress % 4096 == 0 && address % 4096 == 0
  }

  /** How far a range was gone through: to its end, or to its first page that is not canonical. */
  ghost predicate Stopped(address: nat, count: nat, n: nat, outcome: Outcome) {
    match outcome
    case Done => n == count && AllCanonical(address, count)
    case Failed => n < count && AllCanonical(address, n) && !IsCanonical(PageAddress(address, n))
    case Panicked => n < count && AllCanonical(address, n + 1)
  }

  /** No page of a range lies in the slot of the self-referencing entry. */
  ghost predicate AvoidsSelf(address: nat, count: nat) {
    forall i: nat {:trigger Index(PageAddress(address, i), 4)} | i < count && IsCanonical(PageAddress(address, i)) ::
      Index(PageAddress(address, i), 4) != RECURSIVE_ENTRY
  }

  /** Which pages are in use, what memory holds, and where the tables are. */
  datatype State = State(pages: seq<bool>, ram: Ram, tables: Tables)

  /** The frames of the tables in `tables'` but not in `tables`. */
  ghost function NewFrames(tables: Tables, tables': Tables): set<nat> {
    tables'.Values - tables.Values
  }

  ghost predicate Extends(tables: Tables, tables': Tables) {
    forall p | p in tables :: p in tables' && tables'[p] == tables[p]
  }

  /** Tables were added, each in a frame that was free and now is used; no other frame changed. The
      frames are at or above 1 MiB, so that as many fewer are free there. */
  ghost predicate Grew(pages: seq<bool>, tables: Tables, pages': seq<bool>, tables': Tables) {
    && |pages'| == |pages|
    && Extends(tables, tables')
    && FreeAbove(pages') + |tables'.Keys| == FreeAbove(pages) + |tables.Keys|
    && forall f: nat | f < |pages| ::
         pages'[f] == (pages[f] || f in NewFrames(tables, tables')) && (pages[f] ==> f !in NewFrames(tables, tables'))
  }

  /** Frame f holds a table's worth of memory exactly if it is below `total`. */
  ghost predicate Covers(ram: Ram, total: nat, f: nat) {
    if f < total then f in ram && |ram[f]| == 512 else f !in ram
  }

  ghost predicate AllCovered(ram: Ram, total: nat) {
    forall f: nat :: Covers(ram, total, f)
  }

  ghost predicate UsedFrame(tables: Tables, pages: seq<bool>, p: Path)
    requires p in tables
  {
    tables[p] < |pages| && pages[tables[p]]
  }

  /** Every table's frame is marked used. */
  ghost predicate AllUsed(tables: Tables, pages: seq<bool>) {
    forall p {:trigger UsedFrame(tables, pages, p)} | p in tables :: UsedFrame(tables, pages, p)
  }

  lemma CoveredKept(ram: Ram, ram': Ram, total: nat)
    requires AllCovered(ram, total) && SameFrames(ram, ram')
    ensures AllCovered(ram', total)
  {
    forall f: nat ensures Covers(ram', total, f) {
      assert Covers(ram, total, f);
    }
  }

  lemma UsedWithNew(tables: Tables, pages: seq<bool>, f: nat)
    requires AllUsed(tables, pages) && f < |pages| && !pages[f]
    ensures AllUsed(tables, pages[f := true]) && f !in tables.Values
  {
    forall q | q in tables ensures tables[q] != f && UsedFrame(tables, pages[f := true], q) {
      assert UsedFrame(tables, pages, q);
    }
  }

  lemma UsedWithOne(tables: Tables, pages: seq<bool>, p: Path, f: nat)
    requires AllUsed(tables, pages) && f < |pages| && pages[f]
    ensures AllUsed(tables[p := f], pages)
  {
    forall q | q in tables && q != p ensures UsedFrame(tables[p := f], pages, q) {
      assert UsedFrame(tables, pages, q);
    }
  }

  lemma UsedWithout(tables: Tables, pages: seq<bool>, p: Path)
    requires AllUsed(tables, pages) && OneParent(tables) && p in tables
    ensures tables[p] < |pages| && AllUsed(tables - {p}, pages) && tables[p] !in (tables - {p}).Values
  {
    assert UsedFrame(tables, pages, p);
    forall q | q in tables - {p} ensures UsedFrame(tables - {p}, pages, q) {
      assert UsedFrame(tables, pages, q);
    }
  }

  lemma UsedWhenGiven(tables: Tables, pages: seq<bool>, f: nat)
    requires AllUsed(tables, pages) && f !in tables.Values
    ensures AllUsed(tables, Released(pages, f))
  {
    forall q | q in tables ensures UsedFrame(tables, Released(pages, f), q) {
      assert UsedFrame(tables, pages, q) && tables[q] in tables.Values;
    }
  }

  /** The same frames, each still the size of a table. */
  ghost predicate SameFrames(ram: Ram, ram': Ram) {
    ram'.Keys == ram.Keys && forall f | f in ram && |ram[f]| == 512 :: |ram'[f]| == 512
  }

  /** A new, empty table p hangs below `up` by a writable entry; the others lost no entries and no page
      is mapped differently. */
  ghost predicate Linked(ram: Ram, tables: Tables, ram': Ram, tables': Tables, up: Path, p: Path) {
    && SameFrames(ram, ram')
    && SameMapping(ram, tables, ram', tables', {})
    && p in tables' && tables'[p] in ram' && AllAbsent(ram'[tables'[p]])
    && Occupied(ram', tables', up) && PassableBelow(ram, tables, ram', tables', up, p)
    && forall q | q in tables && Occupied(ram, tables, q) :: Occupied(ram', tables', q)
  }

  /** The entry of the table `up` that points at the new table p below it can be written through, and
      is as cacheable and executable as it was. */
  ghost predicate PassableBelow(ram: Ram, tables: Tables, ram': Ram, tables': Tables, up: Path, p: Path) {
    && p != [] && up in tables && tables[up] in ram && p[|p| - 1] < |ram[tables[up]]|
    && up in tables' && tables'[up] in ram' && p[|p| - 1] < |ram'[tables'[up]]|
    && var e, e' := ram[tables[up]][p[|p| - 1]], ram'[tables'[up]][p[|p| - 1]];
       e'.present && e'.writable && e'.cacheDisable == e.cacheDisable && e'.executeDisable == e.executeDisable
  }

  lemma TableLinked(ram: Ram, ram': Ram, root: nat, tables: Tables, up: Path, i: nat, f: nat, e: Entry)
    requires Tree(ram, root, tables) && up in tables && |up| < 3 && InTree(up, i) && up + [i] !in tables
    requires f in ram && f !in tables.Values && e.present && e.writable && e.frame == f
    requires tables[up] in ram && i < |ram[tables[up]]|
    requires e.cacheDisable == ram[tables[up]][i].cacheDisable && e.executeDisable == ram[tables[up]][i].executeDisable
    requires ram' == WithEntry(ram, tables[up], i, e)[f := EmptyTable()]
    ensures Tree(ram', root, tables[up + [i] := f])
    ensures Linked(ram, tables, ram', tables[up + [i] := f], up, up + [i])
  {
    var p, tables' := up + [i], tables[up + [i] := f];
    TableAdded(ram, ram', root, tables, up, i, f, e);
    assert tables[up] in tables.Values;
    assert ram'[tables'[up]][i].present;
    forall q | q in tables && Occupied(ram, tables, q) ensures Occupied(ram', tables', q) {
      assert tables[q] in tables.Values;
      var k: nat :| k < |ram[tables[q]]| && ram[tables[q]][k].present;
      assert ram'[tables'[q]][k].present;
    }
  }

  /** No table below the root is empty, except perhaps one. */
  ghost predicate NoneEmptyBut(ram: Ram, tables: Tables, p: Path) {
    forall q {:trigger Occupied(ram, tables, q)} | q in tables && q != [] && q != p :: Occupied(ram, tables, q)
  }

  class PageTables {
    const root: nat
    const physical: PhysicalMemory
    var ram: Ram
    ghost var tables: Tables

    ghost predicate Valid()
      reads this, physical, physical.bitmaps
    {
      && physical.Valid()
      && AllCovered(ram, physical.total)
      && Tree(ram, root, tables)
      && |physical.bits| > 0 && AllUsed(tables, physical.bits[0])
    }

    ghost function Now(): State
      requires |physical.bits| > 0
      reads this`ram, this`tables, physical`bits
    {
      State(physical.bits[0], ram, tables)
    }

    /** A top-level table with nothing but the self-referencing entry (lines 120-123). */
    constructor (physical: PhysicalMemory, root: nat, ram: Ram)
      requires physical.Valid() && root < physical.total && physical.bits[0][root]
      requires AllCovered(ram, physical.total) && Covers(ram, physical.total, root) && AllAbsent(ram[root])
      ensures Valid() && this.physical == physical && this.root == root && tables == map[[] := root]
    {
      this.physical := physical;
      this.root := root;
      this.ram := ram[root := ram[root][RECURSIVE_ENTRY := Entry(true, true, false, true, root)]];
      tables := map[[] := root];
      new;
      assert InRam(this.ram, tables, []);
      CoveredKept(ram, this.ram, physical.total);
      forall p, i | p in tables && |p| < 3 && InTree(p, i) ensures Points(this.ram, tables, p, i) {
        assert p + [i] != [];
      }
    }

    /** Crawls the tables for an address, reading each entry through its window (lines 605-663). */
    method Crawl(address: nat) returns (c: CrawlResult)
      requires SelfMapped(ram, root) && address < ADDRESS_LIMIT
      ensures c.isCanonical == IsCanonical(address)
      ensures |c.indexes| == 5 && c.indexes[0] == address % 4096 && forall i | 1 <= i <= 4 ::
                c.indexes[i] == Index(address, i)
      ensures |c.tables| == 5 && forall i | 1 <= i <= 4 :: c.tables[i] == Window(address, i)
      ensures |c.physicalTables| == 5 && forall i | 0 <= i <= 4 ::
                c.physicalTables[i] == if c.isCanonical then LevelFrame(ram, root, address, i) else None
    {
      var indexes, windows := SplitAddress(address);
      var physicalTables: seq<Option<nat>> := [None, None, None, None, None];
      if IsCanonical(address) {
        physicalTables := WalkWindows(address, indexes, windows);
      }
      c := CrawlResult(IsCanonical(address), indexes, windows, physicalTables);
    }

    /** Reads the entry of each level through its window until one is absent (lines 652-661). */
    method WalkWindows(address: nat, indexes: seq<nat>, windows: seq<nat>) returns (physicalTables: seq<Option<nat>>)
      requires SelfMapped(ram, root)
      requires |indexes| == 5 && |windows| == 5
      requires forall i | 1 <= i <= 4 :: indexes[i] == Index(address, i) && windows[i] == Window(address, i)
      ensures |physicalTables| == 5 && forall i | 0 <= i <= 4 :: physicalTables[i] == LevelFrame(ram, root, address, i)
    {
      physicalTables := [None, None, None, None, Some(root)];
      var i: nat := 4;
      while i >= 1
        invariant i <= 4 && |physicalTables| == 5
        invariant forall k | i <= k <= 4 :: physicalTables[k] == LevelFrame(ram, root, address, k)
        invariant forall k | 0 <= k < i :: physicalTables[k] == None
      {
        var entry := LoadEntry(address, i, windows[i], indexes[i]);
        if entry.Some? && entry.value.present {
          physicalTables := physicalTables[i - 1 := Some(entry.value.frame)];
        } else {
          MissingBelow(ram, root, address, i - 1);
          break;
        }
        i := i - 1;
      }
    }

    /** Reads an entry of the table at a level; none if the window is not mapped. */
    method LoadEntry(address: nat, level: nat, window: nat, index: nat) returns (entry: Option<Entry>)
      requires SelfMapped(ram, root) && 1 <= level <= 4 && window == Window(address, level) && index < 512
      ensures var f := LevelFrame(ram, root, address, level);
        && Follow(ram, f, index) == (if entry.Some? && entry.value.present then Some(entry.value.frame) else None)
        && (f.Some? && f.value in ram && |ram[f.value]| == 512 ==> entry == Some(ram[f.value][index]))
    {
      LoadThroughWindow(ram, root, address, level, index);
      entry := Load(ram, root, window, index);
    }

    /** Writes an entry of the table at a level through its window. */
    method StoreEntry(address: nat, level: nat, index: nat, e: Entry)
      requires SelfMapped(ram, root) && 1 <= level <= 4 && index < 512
      requires var f := LevelFrame(ram, root, address, level); f.Some? && f.value in ram && |ram[f.value]| == 512
      modifies this`ram
      ensures ram == WithEntry(old(ram), LevelFrame(old(ram), root, address, level).value, index, e)
    {
      WindowLeadsToTable(ram, root, address, level, 8 * index);
      EntryAddress(LevelFrame(ram, root, address, level).value, index);
      var physicalAddress := Translate(ram, root, Window(address, level) + 8 * index).value;
      var f, i := physicalAddress / 4096, physicalAddress % 4096 / 8;
      ram := ram[f := ram[f][i := e]];
    }

    /** Clears the table at a level through its window. */
    method ZeroTable(address: nat, level: nat)
      requires SelfMapped(ram, root) && 1 <= level <= 4
      requires var f := LevelFrame(ram, root, address, level); f.Some? && f.value in ram
      modifies this`ram
      ensures ram == old(ram)[LevelFrame(old(ram), root, address, level).value := EmptyTable()]
    {
      WindowLeadsToTable(ram, root, address, level, 0);
      var f := Translate(ram, root, Window(address, level)).value / 4096;
      ram := ram[f := EmptyTable()];
    }

    /** Takes one free page for a table (lines 507-519); none if there is none. */
    method TakeFrame() returns (f: Option<nat>)
      requires physical.Valid()
      modifies physical`available, physical`bits, physical.bitmaps
      ensures physical.Valid()
      ensures OnlySet(old(physical.bits), physical.bits)
      ensures f.None? ==> NoFit(old(physical.bits[0]), 1) && physical.bits == old(physical.bits)
      ensures f.Some? ==>
                && FIRST_PAGE <= f.value < physical.total && !old(physical.bits[0])[f.value]
                && physical.bits[0] == old(physical.bits[0])[f.value := true]
    {
      NoneFree(physical.bits[0]);
      OnlySetReflexive(physical.bits);
      var request := physical.RequestPages(1, true);
      if request.Refused? {
        return None;
      }
      f := Some(request.page);
      MarkedOnlySets(old(physical.bits), request.page, 1);
      assert physical.bits[0] == old(physical.bits[0])[request.page := true] by {
        forall p | 0 <= p < |old(physical.bits[0])|
            ensures physical.bits[0][p] == (p == request.page || old(physical.bits[0])[p]) {
          MarkedPage(old(physical.bits), request.page, 1, true, p);
        }
      }
    }

    /** Points the entry above at a new table and clears the table (lines 520-523). */
    method LinkTable(address: nat, level: nat, f: nat)
      requires Tree(ram, root, tables) && 1 <= level <= 3 && Index(address, 4) != RECURSIVE_ENTRY
      requires PathTo(address, level + 1) in tables && PathTo(address, level) !in tables
      requires f in ram && f !in tables.Values
      modifies this`ram, this`tables
      ensures tables == old(tables)[PathTo(address, level) := f] && Tree(ram, root, tables)
      ensures Linked(old(ram), old(tables), ram, tables, PathTo(address, level + 1), PathTo(address, level))
    {
      ghost var up, p, i := PathTo(address, level + 1), PathTo(address, level), Index(address, level + 1);
      ghost var ram0, tables0 := ram, tables;
      assert InRam(ram, tables, up);
      LevelFrameIsTable(ram, root, tables, address, level + 1);
      var entry := LoadEntry(address, level + 1, Window(address, level + 1), Index(address, level + 1));
      var e := entry.value.(present := true, writable := true, frame := f);
      WalkAboveEntry(ram, WithEntry(ram, tables[up], i, e), root, tables, address, up, i, e, level + 1);
      SelfMappedKept(ram, root, tables, up, i, e);
      StoreEntry(address, level + 1, Index(address, level + 1), e);
      assert LevelFrame(ram, root, address, level) == Follow(ram, LevelFrame(ram, root, address, level + 1), i)
             == Some(f);
      ZeroTable(address, level);
      tables := tables[p := f];
      TableLinked(ram0, ram, root, tables0, up, i, f, e);
    }

    /** Hangs a table in a frame that is taken (lines 520-523). */
    method HangTable(address: nat, level: nat, f: nat)
      requires Valid() && 1 <= level <= 3 && Index(address, 4) != RECURSIVE_ENTRY
      requires PathTo(address, level + 1) in tables && PathTo(address, level) !in tables
      requires f < physical.total && physical.bits[0][f] && f !in tables.Values
      modifies this`ram, this`tables
      ensures Valid() && tables == old(tables)[PathTo(address, level) := f]
      ensures Linked(old(ram), old(tables), ram, tables, PathTo(address, level + 1), PathTo(address, level))
    {
      assert Covers(ram, physical.total, f);
      UsedWithOne(tables, physical.bits[0], PathTo(address, level), f);
      LinkTable(address, level, f);
      CoveredKept(old(ram), ram, physical.total);
    }

    /** Creates the missing table at a level of an address's path (lines 505-523). Fails, changing
        nothing, if no page is free. */
    method CreateTable(address: nat, level: nat) returns (ok: bool)
      requires Valid() && 1 <= level <= 3 && Index(address, 4) != RECURSIVE_ENTRY
      requires PathTo(address, level + 1) in tables && PathTo(address, level) !in tables
      modifies this`ram, this`tables, physical`available, physical`bits, physical.bitmaps
      ensures Valid()
      ensures OnlySet(old(physical.bits), physical.bits)
      ensures !ok ==>
                && NoFit(old(physical.bits[0]), 1)
                && ram == old(ram) && tables == old(tables) && physical.bits == old(physical.bits)
      ensures ok ==>
                && tables.Keys == old(tables.Keys) + {PathTo(address, level)}
                && Grew(old(physical.bits[0]), old(tables), physical.bits[0], tables)
                && Linked(old(ram), old(tables), ram, tables, PathTo(address, level + 1), PathTo(address, level))
    {
      var frame := TakeFrame();
      if frame.None? {
        return false;
      }
      var f := frame.value;
      UsedWithNew(tables, old(physical.bits[0]), f);
      HangTable(address, level, f);
      GrewByOne(old(physical.bits[0]), old(tables), PathTo(address, level), f);
      ok := true;
    }

    /** Makes sure the table at one level of an address's path is there. */
    method EnsureTable(address: nat, level: nat, missing: bool) returns (ok: bool)
      requires Valid() && 1 <= level <= 3 && Index(address, 4) != RECURSIVE_ENTRY
      requires PathTo(address, level + 1) in tables && NoneEmptyBut(ram, tables, PathTo(address, level + 1))
      requires missing <==> PathTo(address, level) !in tables
      requires !missing ==> NoneEmpty(ram, tables)
      modifies this`ram, this`tables, physical`available, physical`bits, physical.bitmaps
      ensures Valid()
      ensures OnlySet(old(physical.bits), physical.bits)
      ensures !ok ==> NoFit(physical.bits[0], 1) && Now() == old(Now())
      ensures !ok ==> PathTo(address, level) !in tables
      ensures ok ==> NoneEmptyBut(ram, tables, PathTo(address, level))
      ensures ok ==> Extended(old(Now()), Now())
      ensures ok ==> tables.Keys == old(tables.Keys) + {PathTo(address, level)}
      ensures !missing ==> ok && tables == old(tables) && ram == old(ram) && physical.bits == old(physical.bits)
    {
      ok := true;
      OnlySetReflexive(physical.bits);
      if missing {
        ghost var tables1, ram1 := tables, ram;
        ok := CreateTable(address, level);
        if ok {
          LinkedOccupies(ram1, tables1, ram, tables, PathTo(address, level + 1), PathTo(address, level));
        }
      }
    }

    /** The same, after the tables above have been made sure of. */
    method EnsureNext(ghost start: State, address: nat, level: nat, physicalTables: seq<Option<nat>>) returns (ok: bool)
      requires Valid() && 1 <= level <= 3 && Index(address, 4) != RECURSIVE_ENTRY
      requires PathTo(address, level + 1) in tables && NoneEmptyBut(ram, tables, PathTo(address, level + 1))
      requires |physicalTables| == 5 && Known(tables, address, physicalTables, level)
      requires physicalTables[level].Some? ==> NoneEmpty(ram, tables)
      requires Extended(start, Now()) && OnlyFor(start.tables, tables, PathTo(address, 0))
      modifies this`ram, this`tables, physical`available, physical`bits, physical.bitmaps
      ensures Valid()
      ensures OnlySet(old(physical.bits), physical.bits)
      ensures !ok ==> Stuck(start, Now(), PathTo(address, 0))
      ensures ok ==> PathTo(address, level) in tables && NoneEmptyBut(ram, tables, PathTo(address, level))
      ensures ok ==> Extended(start, Now()) && OnlyFor(start.tables, tables, PathTo(address, 0))
      ensures ok ==> Known(tables, address, physicalTables, level - 1)
      ensures physicalTables[level].Some? ==> ok && Now() == old(Now())
    {
      ghost var before := Now();
      ok := EnsureTable(address, level, physicalTables[level].None?);
      if ok {
        ExtendedTransitive(start, before, Now());
        OneMoreFor(start.tables, before.tables, tables, address, level);
        KnownBelow(before.tables, tables, address, physicalTables, level);
      } else {
        MissingTable(tables, address, level);
      }
    }

    /** Creates every missing table of an address's path, from the top down (lines 504-525). */
    method EnsureTables(address: nat, physicalTables: seq<Option<nat>>) returns (ok: bool)
      requires Valid() && NoneEmpty(ram, tables) && Index(address, 4) != RECURSIVE_ENTRY
      requires |physicalTables| == 5 && PathTo(address, 4) in tables && Known(tables, address, physicalTables, 3)
      requires physicalTables[1].Some? ==> physicalTables[2].Some?
      requires physicalTables[2].Some? ==> physicalTables[3].Some?
      modifies this`ram, this`tables, physical`available, physical`bits, physical.bitmaps
      ensures Valid()
      ensures OnlySet(old(physical.bits), physical.bits)
      ensures !ok ==> Stuck(old(Now()), Now(), PathTo(address, 0))
      ensures ok ==> PathTo(address, 1) in tables && NoneEmptyBut(ram, tables, PathTo(address, 1))
      ensures ok ==> Extended(old(Now()), Now()) && OnlyFor(old(tables), tables, PathTo(address, 0))
      ensures physicalTables[1].Some? ==> ok && Now() == old(Now())
    {
      ghost var start, bits0 := Now(), physical.bits;
      OnlySetReflexive(bits0);
      ExtendedReflexive(start);
      for j := 4 downto 1
        invariant Valid() && PathTo(address, j) in tables && NoneEmptyBut(ram, tables, PathTo(address, j))
        invariant OnlySet(bits0, physical.bits)
        invariant Extended(start, Now()) && OnlyFor(start.tables, tables, PathTo(address, 0))
        invariant Known(tables, address, physicalTables, j - 1)
        invariant physicalTables[if j == 1 then 1 else j - 1].Some? ==> Now() == start
      {
        ghost var before := physical.bits;
        ok := EnsureNext(start, address, j, physicalTables);
        OnlySetTransitive(bits0, before, physical.bits);
        if !ok {
          return;
        }
      }
      ok := true;
    }

    /** Writes the leaf entry of a page. */
    method SetLeaf(address: nat, e: Entry)
      requires Valid() && Index(address, 4) != RECURSIVE_ENTRY && PathTo(address, 1) in tables
      modifies this`ram
      ensures Valid() && old(tables[PathTo(address, 1)] in ram && |ram[tables[PathTo(address, 1)]]| == 512)
      ensures ram == WithEntry(old(ram), tables[PathTo(address, 1)], Index(address, 1), e)
      ensures SameMapping(old(ram), tables, ram, tables, {PathTo(address, 0)})
      ensures MappedAt(ram, tables, PathTo(address, 0)) == if e.present then Some(e) else None
    {
      ghost var p, i := PathTo(address, 1), Index(address, 1);
      assert InRam(ram, tables, p);
      LevelFrameIsTable(ram, root, tables, address, 1);
      LeafChanged(ram, root, tables, p, i, e);
      StoreEntry(address, 1, Index(address, 1), e);
      CoveredKept(old(ram), ram, physical.total);
    }

    /** Writes the leaf entry of a page that was not mapped (lines 526-532). */
    method WriteLeaf(address: nat, e: Entry)
      requires Valid() && Index(address, 4) != RECURSIVE_ENTRY && PathTo(address, 1) in tables
      requires NoneEmptyBut(ram, tables, PathTo(address, 1)) && e.present
      modifies this`ram
      ensures Valid() && NoneEmpty(ram, tables)
      ensures SameMapping(old(ram), tables, ram, tables, {PathTo(address, 0)})
      ensures MappedAt(ram, tables, PathTo(address, 0)) == Some(e)
    {
      assert InRam(ram, tables, PathTo(address, 1));
      LeafOccupies(ram, tables, PathTo(address, 1), Index(address, 1), e);
      SetLeaf(address, e);
    }

    /** Maps one page (lines 500-532), given the crawl of its address. */
    method MapPage(address: nat, frame: nat, flags: Flags, physicalTables: seq<Option<nat>>) returns (ok: bool)
      requires Valid() && NoneEmpty(ram, tables) && Index(address, 4) != RECURSIVE_ENTRY
      requires |physicalTables| == 5 && forall i | 0 <= i <= 4 :: physicalTables[i] == LevelFrame(ram, root, address, i)
      modifies this`ram, this`tables, physical`available, physical`bits, physical.bitmaps
      ensures Valid()
      ensures OnlySet(old(physical.bits), physical.bits)
      ensures !ok ==> Stuck(old(Now()), Now(), PathTo(address, 0))
      ensures ok ==> NoneEmpty(ram, tables)
      ensures ok ==> PageMapped(old(Now()), Now(), PathTo(address, 0), LeafEntry(frame, flags))
    {
      ghost var q, before := PathTo(address, 0), Now();
      PathsPresent(ram, root, tables, address, physicalTables);
      PageMappedAlready(before, q, LeafEntry(frame, flags));
      ok := EnsureTables(address, physicalTables);
      if ok && physicalTables[0].None? {
        ghost var middle := Now();
        WriteLeaf(address, LeafEntry(frame, flags));
        MappedAfterTables(before, middle, Now(), q, LeafEntry(frame, flags));
      }
    }

    /** Maps the page of an address if it is canonical (lines 500-532). */
    method MapOne(virtual: nat, page: nat, flags: Flags) returns (outcome: Outcome)
      requires Valid() && NoneEmpty(ram, tables) && virtual < ADDRESS_LIMIT
      requires IsCanonical(virtual) ==> Index(virtual, 4) != RECURSIVE_ENTRY
      modifies this`ram, this`tables, physical`available, physical`bits, physical.bitmaps
      ensures Valid() && (outcome.Failed? <==> !IsCanonical(virtual))
      ensures OnlySet(old(physical.bits), physical.bits)
      ensures outcome.Failed? ==> Now() == old(Now())
      ensures outcome.Panicked? ==> Stuck(old(Now()), Now(), PathTo(virtual, 0))
      ensures !outcome.Panicked? ==> NoneEmpty(ram, tables)
      ensures outcome.Done? ==> PageMapped(old(Now()), Now(), PathTo(virtual, 0), LeafEntry(page, flags))
    {
      OnlySetReflexive(physical.bits);
      var c := Crawl(virtual);
      if !c.isCanonical {
        return Failed;
      }
      var ok := MapPage(virtual, page, flags, c.physicalTables);
      outcome := if ok then Done else Panicked;
    }

    /** Maps page i of a range, at `virtual`, to `page` (lines 500-532). */
    method MapNext(ghost start: State, ghost address: nat, ghost frame: nat, flags: Flags,
                   ghost i: nat, virtual: nat, page: nat)
      returns (outcome: Outcome)
      requires Valid() && NoneEmpty(ram, tables)
      requires virtual == PageAddress(address, i) < ADDRESS_LIMIT && page == frame + i && AllCanonical(address, i)
      requires IsCanonical(virtual) ==> Index(virtual, 4) != RECURSIVE_ENTRY
      requires RangeMapped(start, Now(), address, frame, flags, i)
      modifies this`ram, this`tables, physical`available, physical`bits, physical.bitmaps
      ensures Valid()
      ensures OnlySet(old(physical.bits), physical.bits)
      ensures if outcome.Failed? then !IsCanonical(PageAddress(address, i)) else AllCanonical(address, i + 1)
      ensures outcome.Failed? ==> Now() == old(Now())
      ensures outcome.Panicked? ==> Stuck(old(Now()), Now(), PageAt(address, i))
      ensures !outcome.Panicked? ==> NoneEmpty(ram, tables)
      ensures outcome.Done? ==> RangeMapped(start, Now(), address, frame, flags, i + 1)
    {
      ghost var e := LeafEntry(page, flags);
      PageAtIs(address, i);
      outcome := MapOne(virtual, page, flags);
      if !outcome.Failed? {
        CanonicalOneMore(address, i);
      }
      if outcome.Done? {
        RangeMappedOneMore(start, old(Now()), Now(), address, frame, flags, i, PathTo(virtual, 0), e);
      }
    }

    /** Maps the pages of a range one by one (lines 499-534); `last` is the state with n pages mapped. */
    method MapEach(address: nat, frame: nat, count: nat, flags: Flags)
      returns (outcome: Outcome, ghost n: nat, ghost last: State)
      requires Valid() && NoneEmpty(ram, tables)
      requires address + count * 4096 <= ADDRESS_LIMIT && AvoidsSelf(address, count)
      modifies this`ram, this`tables, physical`available, physical`bits, physical.bitmaps
      ensures Valid() && Stopped(address, count, n, outcome)
      ensures OnlySet(old(physical.bits), physical.bits)
      ensures RangeMapped(old(Now()), last, address, frame, flags, n)
      ensures if outcome.Panicked? then Stuck(last, Now(), PageAt(address, n))
              else NoneEmpty(ram, tables) && last == Now()
    {
      ghost var start, bits0 := Now(), physical.bits;
      OnlySetReflexive(bits0);
      RangeMappedNone(start, address, frame, flags);
      var virtual, page, i := address, frame, 0;
      while i < count
        invariant i <= count && virtual == PageAddress(address, i) && page == frame + i
        invariant Valid() && NoneEmpty(ram, tables) && AllCanonical(address, i)
        invariant OnlySet(bits0, physical.bits)
        invariant RangeMapped(start, Now(), address, frame, flags, i)
      {
        PageInRange(address, count, i);
        ghost var before := physical.bits;
        n, last := i, Now();
        outcome := MapNext(start, address, frame, flags, i, virtual, page);
        OnlySetTransitive(bits0, before, physical.bits);
        if !outcome.Done? {
          return;
        }
        virtual, page, i := virtual + 4096, page + 1, i + 1;
      }
      outcome, n, last := Done, count, Now();
    }

    /** Maps consecutive pages to consecutive frames (lines 489-535); `last` is the state with n pages mapped. */
    method MapPages(address: nat, physicalAddress: nat, count: nat, flags: Flags)
      returns (outcome: Outcome, ghost n: nat, ghost last: State)
      requires Valid() && NoneEmpty(ram, tables)
      requires address + count * 4096 <= ADDRESS_LIMIT && AvoidsSelf(address, count)
      modifies this`ram, this`tables, physical`available, physical`bits, physical.bitmaps
      ensures Valid()
      ensures OnlySet(old(physical.bits), physical.bits)
      ensures if Aligned(address, physicalAddress, count) then Stopped(address, count, n, outcome)
              else outcome == Failed && n == 0
      ensures RangeMapped(old(Now()), last, address, physicalAddress / 4096, flags, n)
      ensures if outcome.Panicked? then Stuck(last, Now(), PageAt(address, n))
              else NoneEmpty(ram, tables) && last == Now()
      ensures outcome.Done? ==>
                forall i: nat | i < count && Unmapped(old(Now()), PageAt(address, i)) ::
                  LoadsAs(ram, root, PageAddress(address, i), physicalAddress / 4096 + i, flags)
    {
      if count == 0 || physicalAddress % 4096 != 0 || address % 4096 != 0 {
        OnlySetReflexive(physical.bits);
        RangeMappedNone(Now(), address, physicalAddress / 4096, flags);
        return Failed, 0, Now();
      }
      outcome, n, last := MapEach(address, physicalAddress / 4096, count, flags);
      if outcome.Done? {
        RangeLoads(old(Now()), Now(), root, address, physicalAddress / 4096, flags, count);
      }
    }

    // ----- unmapping -----

    /** Marks one page free; a frame beyond memory is ignored. */
    method GiveFrame(f: nat)
      requires physical.Valid()
      modifies physical`available, physical`bits, physical.bitmaps
      ensures physical.Valid()
      ensures physical.bits[0] == Released(old(physical.bits[0]), f)
    {
      AddressOfPage(f, physical.total);
      physical.MarkPages(f * PAGE_SIZE, 1, false);
      assert physical.bits[0] == Released(old(physical.bits[0]), f) by {
        forall p | 0 <= p < |old(physical.bits[0])|
            ensures physical.bits[0][p] == Released(old(physical.bits[0]), f)[p] {
          if f < physical.total {
            MarkedPage(old(physical.bits), f, 1, false, p);
          }
        }
      }
    }

    /** Whether no entry of a table is present (lines 570-576). */
    method IsEmptyTable(address: nat, level: nat) returns (empty: bool)
      requires Tree(ram, root, tables) && 1 <= level <= 3 && Index(address, 4) != RECURSIVE_ENTRY
               && PathTo(address, level) in tables
      ensures var f := tables[PathTo(address, level)];
        f in ram && |ram[f]| == 512 && (empty <==> AllAbsent(ram[f]))
          && (empty <==> !Occupied(ram, tables, PathTo(address, level)))
    {
      ghost var p := PathTo(address, level);
      ghost var f := tables[p];
      assert InRam(ram, tables, p);
      LevelFrameIsTable(ram, root, tables, address, level);
      EmptyOrOccupied(ram, tables, p);
      for k := 0 to 512
        invariant forall i | 0 <= i < k :: !ram[f][i].present
      {
        var entry := LoadEntry(address, level, Window(address, level), k);
        if entry.value.present {
          return false;
        }
      }
      empty := true;
    }

    /** Marks a page that holds no table free. */
    method GivePage(f: nat)
      requires Valid() && f !in tables.Values
      modifies physical`available, physical`bits, physical.bitmaps
      ensures Valid() && physical.bits[0] == Released(old(physical.bits[0]), f)
    {
      UsedWhenGiven(tables, physical.bits[0], f);
      GiveFrame(f);
    }

    /** Marks the entry for an address absent in the table of a level. */
    method MarkAbsent(address: nat, level: nat)
      requires Tree(ram, root, tables) && 1 <= level <= 4 && Index(address, 4) != RECURSIVE_ENTRY
      requires PathTo(address, level) in tables
      requires tables[PathTo(address, level)] in ram && |ram[tables[PathTo(address, level)]]| == 512
      modifies this`ram
      ensures var f, i := tables[PathTo(address, level)], Index(address, level);
        ram == WithEntry(old(ram), f, i, old(ram)[f][i].(present := false))
    {
      LevelFrameIsTable(ram, root, tables, address, level);
      var entry := LoadEntry(address, level, Window(address, level), Index(address, level));
      StoreEntry(address, level, Index(address, level), entry.value.(present := false));
    }

    /** Marks an empty table absent in the table above (line 578). */
    method UnlinkTable(address: nat, level: nat)
      requires Tree(ram, root, tables) && 1 <= level <= 3 && Index(address, 4) != RECURSIVE_ENTRY
      requires PathTo(address, level) in tables
      requires tables[PathTo(address, level)] in ram && AllAbsent(ram[tables[PathTo(address, level)]])
      requires NoneEmptyBut(ram, tables, PathTo(address, level))
      modifies this`ram, this`tables
      ensures tables == old(tables) - {PathTo(address, level)} && Tree(ram, root, tables) && SameFrames(old(ram), ram)
      ensures Unlinked(old(ram), old(tables), ram, tables, PathTo(address, level + 1))
    {
      ghost var up, p, i := PathTo(address, level + 1), PathTo(address, level), Index(address, level + 1);
      ParentExists(tables, ram, root, address, level);
      assert InRam(ram, tables, up);
      TableUnlinked(ram, root, tables, p, up, i, ram[tables[up]][i].(present := false));
      MarkAbsent(address, level + 1);
      tables := tables - {p};
    }

    /** Takes an empty table out of the tree and frees its page (lines 577-580). */
    method DropTable(address: nat, level: nat, f: nat)
      requires Valid() && 1 <= level <= 3 && Index(address, 4) != RECURSIVE_ENTRY
      requires PathTo(address, level) in tables && tables[PathTo(address, level)] == f
      requires f in ram && AllAbsent(ram[f]) && NoneEmptyBut(ram, tables, PathTo(address, level))
      modifies this`ram, this`tables, physical`available, physical`bits, physical.bitmaps
      ensures Valid() && tables == old(tables) - {PathTo(address, level)}
      ensures Unlinked(old(ram), old(tables), ram, tables, PathTo(address, level + 1))
      ensures f < |old(physical.bits[0])| && physical.bits[0] == old(physical.bits[0])[f := false]
    {
      UsedWithout(tables, physical.bits[0], PathTo(address, level));
      UnlinkTable(address, level);
      CoveredKept(old(ram), ram, physical.total);
      GivePage(f);
    }

    /** Frees the table at a level of an address's path if it is empty (lines 564-580). */
    method PruneTable(address: nat, level: nat, f: nat)
      requires Valid() && 1 <= level <= 3 && Index(address, 4) != RECURSIVE_ENTRY
      requires PathTo(address, level) in tables && tables[PathTo(address, level)] == f
      requires NoneEmptyBut(ram, tables, PathTo(address, level))
      modifies this`ram, this`tables, physical`available, physical`bits, physical.bitmaps
      ensures Valid() && NoneEmptyBut(ram, tables, PathTo(address, level + 1))
      ensures tables == if old(Occupied(ram, tables, PathTo(address, level))) then old(tables)
                        else old(tables) - {PathTo(address, level)}
      ensures Pruned(old(Now()), Now())
    {
      PrunedReflexive(Now());
      var empty := IsEmptyTable(address, level);
      if empty {
        DropTable(address, level, f);
        ShrunkByOne(old(Now()), Now(), PathTo(address, level));
      }
    }

    /** Frees the tables of an address's path that have become empty, from the bottom up (lines 563-581). */
    method PruneTables(address: nat, physicalTables: seq<Option<nat>>)
      requires Valid() && Index(address, 4) != RECURSIVE_ENTRY && NoneEmptyBut(ram, tables, PathTo(address, 1))
      requires |physicalTables| == 5 && KnownFrom(tables, address, physicalTables, 1)
      modifies this`ram, this`tables, physical`available, physical`bits, physical.bitmaps
      ensures Valid() && NoneEmpty(ram, tables) && Pruned(old(Now()), Now())
    {
      PrunedReflexive(Now());
      for j := 1 to 4
        invariant Valid() && NoneEmptyBut(ram, tables, PathTo(address, j))
        invariant Pruned(old(Now()), Now()) && KnownFrom(tables, address, physicalTables, j)
      {
        if physicalTables[j].Some? {
          ghost var before := Now();
          PruneTable(address, j, physicalTables[j].value);
          PrunedTransitive(old(Now()), before, Now());
          KnownAbove(before.tables, tables, address, physicalTables, j);
        }
      }
    }

    /** Clears the leaf entry of a mapped page (line 558). */
    method ClearEntry(address: nat)
      requires Valid() && NoneEmpty(ram, tables) && Index(address, 4) != RECURSIVE_ENTRY
      requires PathTo(address, 1) in tables
      modifies this`ram
      ensures Valid() && NoneEmptyBut(ram, tables, PathTo(address, 1))
      ensures SameMapping(old(ram), tables, ram, tables, {PathTo(address, 0)})
      ensures MappedAt(ram, tables, PathTo(address, 0)) == None
    {
      ghost var p, i := PathTo(address, 1), Index(address, 1);
      assert InRam(ram, tables, p);
      ghost var e := ram[tables[p]][i].(present := false);
      LeafChanged(ram, root, tables, p, i, e);
      OthersOccupied(ram, tables, p, i, e);
      MarkAbsent(address, 1);
      CoveredKept(old(ram), ram, physical.total);
    }

    /** Unmaps a mapped page and frees its frame if asked to (lines 556-562). */
    method ClearLeaf(address: nat, frame: nat, free: bool)
      requires Valid() && NoneEmpty(ram, tables) && Index(address, 4) != RECURSIVE_ENTRY
      requires MappedAt(ram, tables, PathTo(address, 0)).Some?
      requires free ==> frame !in tables.Values
      modifies this`ram, physical`available, physical`bits, physical.bitmaps
      ensures Valid() && NoneEmptyBut(ram, tables, PathTo(address, 1))
      ensures PageUnmapped(old(Now()), Now(), PathTo(address, 0), if free then {frame} else {})
    {
      assert PathTo(address, 0)[..3] == PathTo(address, 1);
      ClearEntry(address);
      if free {
        GivePage(frame);
      }
      ClearedIsUnmapped(old(Now()), Now(), PathTo(address, 0), frame, free);
    }

    /** Unmaps the page of an address if it is canonical (lines 552-581). */
    method UnmapOne(virtual: nat, free: bool) returns (outcome: Outcome)
      requires Valid() && NoneEmpty(ram, tables) && virtual < ADDRESS_LIMIT
      requires IsCanonical(virtual) ==> Index(virtual, 4) != RECURSIVE_ENTRY
      requires free && IsCanonical(virtual) ==> FreesNoTable(Now(), PathTo(virtual, 0))
      modifies this`ram, this`tables, physical`available, physical`bits, physical.bitmaps
      ensures Valid() && NoneEmpty(ram, tables)
      ensures outcome == if IsCanonical(virtual) then Done else Failed
      ensures outcome.Failed? ==> Now() == old(Now())
      ensures outcome.Done? ==>
                PageUnmapped(old(Now()), Now(), PathTo(virtual, 0), FreedBy(old(Now()), PathTo(virtual, 0), free))
    {
      var c := Crawl(virtual);
      if !c.isCanonical {
        return Failed;
      }
      UnmapPage(virtual, free, c.physicalTables);
      outcome := Done;
    }

    /** Unmaps page i of a range, at `virtual`. */
    method UnmapNext(ghost start: State, ghost address: nat, ghost i: nat, virtual: nat, free: bool)
      returns (outcome: Outcome)
      requires Valid() && NoneEmpty(ram, tables)
      requires virtual == PageAddress(address, i) < ADDRESS_LIMIT && AllCanonical(address, i)
      requires IsCanonical(virtual) ==> Index(virtual, 4) != RECURSIVE_ENTRY
      requires free ==> FreesNoTable(start, PageAt(address, i))
      requires RangeUnmapped(start, Now(), address, i, free)
      modifies this`ram, this`tables, physical`available, physical`bits, physical.bitmaps
      ensures Valid() && NoneEmpty(ram, tables) && !outcome.Panicked?
      ensures if outcome.Failed? then !IsCanonical(PageAddress(address, i)) else AllCanonical(address, i + 1)
      ensures outcome.Failed? ==> Now() == old(Now())
      ensures outcome.Done? ==> RangeUnmapped(start, Now(), address, i + 1, free)
    {
      PageAtIs(address, i);
      if IsCanonical(virtual) {
        CanonicalOneMore(address, i);
        StillFreesNoTable(start, Now(), address, i, free);
      }
      outcome := UnmapOne(virtual, free);
      if outcome.Done? {
        RangeUnmappedOneMore(start, old(Now()), Now(), address, i, free);
      }
    }

    /** Unmaps the pages of a range one by one (lines 551-583). */
    method UnmapEach(address: nat, count: nat, free: bool) returns (outcome: Outcome, ghost n: nat)
      requires Valid() && NoneEmpty(ram, tables)
      requires address + count * 4096 <= ADDRESS_LIMIT && AvoidsSelf(address, count)
      requires free ==> forall i: nat | i < count :: FreesNoTable(Now(), PageAt(address, i))
      modifies this`ram, this`tables, physical`available, physical`bits, physical.bitmaps
      ensures Valid() && NoneEmpty(ram, tables) && RangeUnmapped(old(Now()), Now(), address, n, free)
      ensures !outcome.Panicked? && Stopped(address, count, n, outcome)
    {
      ghost var start := Now();
      RangeUnmappedNone(start, address, free);
      var virtual, i := address, 0;
      while i < count
        invariant i <= count && virtual == PageAddress(address, i)
        invariant Valid() && NoneEmpty(ram, tables) && AllCanonical(address, i)
        invariant RangeUnmapped(start, Now(), address, i, free)
      {
        PageInRange(address, count, i);
        n := i;
        outcome := UnmapNext(start, address, i, virtual, free);
        if !outcome.Done? {
          return;
        }
        virtual, i := virtual + 4096, i + 1;
      }
      outcome, n := Done, count;
    }

    /** Unmaps consecutive pages, and frees their pages if asked to (lines 543-584). */
    method UnmapPages(address: nat, count: nat, free: bool) returns (outcome: Outcome, ghost n: nat)
      requires Valid() && NoneEmpty(ram, tables)
      requires address + count * 4096 <= ADDRESS_LIMIT && AvoidsSelf(address, count)
      requires free ==> forall i: nat | i < count :: FreesNoTable(Now(), PageAt(address, i))
      modifies this`ram, this`tables, physical`available, physical`bits, physical.bitmaps
      ensures Valid() && NoneEmpty(ram, tables) && RangeUnmapped(old(Now()), Now(), address, n, free)
      ensures if Aligned(address, 0, count) then !outcome.Panicked? && Stopped(address, count, n, outcome)
              else outcome == Failed && n == 0
    {
      if count == 0 || address % 4096 != 0 {
        RangeUnmappedNone(Now(), address, free);
        return Failed, 0;
      }
      outcome, n := UnmapEach(address, count, free);
    }

    /** Unmaps one page, given the crawl of its address. */
    method UnmapPage(address: nat, free: bool, physicalTables: seq<Option<nat>>)
      requires Valid() && NoneEmpty(ram, tables) && Index(address, 4) != RECURSIVE_ENTRY
      requires |physicalTables| == 5 && forall i | 0 <= i <= 4 :: physicalTables[i] == LevelFrame(ram, root, address, i)
      requires free ==> FreesNoTable(Now(), PathTo(address, 0))
      modifies this`ram, this`tables, physical`available, physical`bits, physical.bitmaps
      ensures Valid() && NoneEmpty(ram, tables)
      ensures PageUnmapped(old(Now()), Now(), PathTo(address, 0), FreedBy(old(Now()), PathTo(address, 0), free))
    {
      LevelZeroIsMapped(ram, root, tables, address);
      KnownFromCrawl(ram, root, tables, address, physicalTables);
      ShrunkReflexive(Now());
      if physicalTables[0].Some? {
        ClearLeaf(address, physicalTables[0].value, free);
      }
      ghost var middle := Now();
      PruneTables(address, physicalTables);
      PageUnmappedThenPruned(old(Now()), middle, Now(), PathTo(address, 0),
                             FreedBy(old(Now()), PathTo(address, 0), free));
    }
  }

  /** The leaf entry for a page (lines 526-532). */
  function LeafEntry(frame: nat, flags: Flags): Entry {
    Entry(true, flags.writable, flags.cacheDisable, !flags.executable, frame)
  }

  /** What a load through the window onto the leaf table of a page reads once the page is mapped to a
      frame: the entry has the permissions asked for. */
  ghost predicate LoadsAs(ram: Ram, root: nat, address: nat, frame: nat, flags: Flags) {
    match Load(ram, root, Window(address, 1), Index(address, 1))
    case None => false
    case Some(e) =>
      && e.present && e.frame == frame
      && e.writable == flags.writable && e.cacheDisable == flags.cacheDisable && e.executeDisable == !flags.executable
  }

  lemma LeafLoads(ram: Ram, root: nat, tables: Tables, address: nat, frame: nat, flags: Flags, q: Path)
    requires Tree(ram, root, tables) && Index(address, 4) != RECURSIVE_ENTRY && q == PathTo(address, 0)
    requires MappedAt(ram, tables, q) == Some(LeafEntry(frame, flags))
    ensures LoadsAs(ram, root, address, frame, flags)
  {
    assert q[..3] == PathTo(address, 1) && q[3] == Index(address, 1);
    LevelFrameIsTable(ram, root, tables, address, 1);
    LoadThroughWindow(ram, root, address, 1, Index(address, 1));
  }

  /** How page q is mapped once it has been mapped to e: a page already mapped stays as it is. */
  function MappedOnce(before: Option<Entry>, e: Entry): Option<Entry> {
    if before.Some? then before else Some(e)
  }

  /** Page q was mapped to e. */
  ghost predicate PageMapped(s: State, s': State, q: Path, e: Entry)
    requires |q| == 4
  {
    && Grew(s.pages, s.tables, s'.pages, s'.tables)
    && OnlyFor(s.tables, s'.tables, q)
    && SameMapping(s.ram, s.tables, s'.ram, s'.tables, {q})
    && MappedAt(s'.ram, s'.tables, q) == MappedOnce(MappedAt(s.ram, s.tables, q), e)
    && (MappedAt(s.ram, s.tables, q).Some? ==> s' == s)
  }

  /** A page that is mapped already is left alone. */
  lemma PageMappedAlready(s: State, q: Path, e: Entry)
    requires |q| == 4
    ensures MappedAt(s.ram, s.tables, q).Some? ==> PageMapped(s, s, q, e)
  {
  }

  /** A page that was not mapped is mapped once the tables for it are there. */
  lemma MappedAfterTables(s: State, s': State, s'': State, q: Path, e: Entry)
    requires |q| == 4 && Extended(s, s') && s''.tables == s'.tables && s''.pages == s'.pages
    requires SameMapping(s'.ram, s'.tables, s''.ram, s''.tables, {q})
    requires MappedAt(s.ram, s.tables, q) == None && MappedAt(s''.ram, s''.tables, q) == Some(e)
    requires OnlyFor(s.tables, s'.tables, q)
    ensures PageMapped(s, s'', q, e)
  {
  }

  /** Page i of a range is mapped to frame i, unless it was mapped before. */
  ghost predicate PageIs(s: State, s': State, q: Path, i: nat, frame: nat, flags: Flags)
    requires |q| == 4
  {
    MappedAt(s'.ram, s'.tables, q) == MappedOnce(MappedAt(s.ram, s.tables, q), LeafEntry(frame + i, flags))
  }

  /** The first n pages from an address were mapped to consecutive frames; the only other change is
      new tables on their paths, in frames that were free. */
  ghost predicate RangeMapped(s: State, s': State, address: nat, frame: nat, flags: Flags, n: nat) {
    && Grew(s.pages, s.tables, s'.pages, s'.tables)
    && OnlyForRange(s.tables, s'.tables, address, n)
    && SameMapping(s.ram, s.tables, s'.ram, s'.tables, PathsOf(address, n))
    && forall i: nat | i < n :: PageIs(s, s', PageAt(address, i), i, frame, flags)
  }

  lemma NewPageLoads(s: State, s': State, root: nat, virtual: nat, q: Path, i: nat, frame: nat, flags: Flags)
    requires |q| == 4 && PageIs(s, s', q, i, frame, flags) && Unmapped(s, q)
    requires Tree(s'.ram, root, s'.tables) && Index(virtual, 4) != RECURSIVE_ENTRY && q == PathTo(virtual, 0)
    ensures LoadsAs(s'.ram, root, virtual, frame + i, flags)
  {
    LeafLoads(s'.ram, root, s'.tables, virtual, frame + i, flags, q);
  }

  lemma PageOutsideSelf(address: nat, n: nat, i: nat)
    requires AllCanonical(address, n) && AvoidsSelf(address, n) && i < n
    ensures Index(PageAddress(address, i), 4) != RECURSIVE_ENTRY
  {
    assert IsCanonical(PageAddress(address, i));
  }

  /** What loads read in the pages of a range that were not mapped before. */
  lemma RangeLoads(s: State, s': State, root: nat, address: nat, frame: nat, flags: Flags, n: nat)
    requires Tree(s'.ram, root, s'.tables) && RangeMapped(s, s', address, frame, flags, n)
    requires AllCanonical(address, n) && AvoidsSelf(address, n)
    ensures forall i: nat | i < n && Unmapped(s, PageAt(address, i)) ::
              LoadsAs(s'.ram, root, PageAddress(address, i), frame + i, flags)
  {
    forall i: nat | i < n && Unmapped(s, PageAt(address, i))
      ensures LoadsAs(s'.ram, root, PageAddress(address, i), frame + i, flags)
    {
      PageAtIs(address, i);
      PageOutsideSelf(address, n, i);
      NewPageLoads(s, s', root, PageAddress(address, i), PageAt(address, i), i, frame, flags);
    }
  }

  lemma RangeMappedNone(s: State, address: nat, frame: nat, flags: Flags)
    ensures RangeMapped(s, s, address, frame, flags, 0)
  {
  }

  /** Changes apart from some pages, and then apart from one more. */
  lemma SameMappingOneMore(s: State, s': State, s'': State, except: set<Path>, q: Path)
    requires SameMapping(s.ram, s.tables, s'.ram, s'.tables, except)
    requires SameMapping(s'.ram, s'.tables, s''.ram, s''.tables, {q})
    ensures SameMapping(s.ram, s.tables, s''.ram, s''.tables, except + {q})
  {
  }

  lemma PageStays(s: State, s': State, s'': State, q: Path, i: nat, frame: nat, flags: Flags, except: Path)
    requires |q| == 4 && PageIs(s, s', q, i, frame, flags) && q != except
    requires SameMapping(s'.ram, s'.tables, s''.ram, s''.tables, {except})
    ensures PageIs(s, s'', q, i, frame, flags)
  {
  }

  /** The page that a range is extended by was not changed with the range. */
  lemma NextPageIs(s: State, s': State, s'': State, except: set<Path>, q: Path, n: nat, frame: nat, flags: Flags)
    requires |q| == 4 && q !in except && PageMapped(s', s'', q, LeafEntry(frame + n, flags))
    requires SameMapping(s.ram, s.tables, s'.ram, s'.tables, except)
    ensures PageIs(s, s'', q, n, frame, flags)
  {
  }

  /** The pages of a range stay as they are when the next page changes. */
  lemma PagesStay(s: State, s': State, s'': State, address: nat, frame: nat, flags: Flags, n: nat)
    requires RangeMapped(s, s', address, frame, flags, n) && AllCanonical(address, n + 1)
    requires SameMapping(s'.ram, s'.tables, s''.ram, s''.tables, {PageAt(address, n)})
    ensures forall i: nat | i < n :: PageIs(s, s'', PageAt(address, i), i, frame, flags)
  {
    forall i: nat | i < n ensures PageIs(s, s'', PageAt(address, i), i, frame, flags) {
      PagesDiffer(address, n + 1, i, n);
      PageStays(s, s', s'', PageAt(address, i), i, frame, flags, PageAt(address, n));
    }
  }

  lemma PageInRange(address: nat, count: nat, i: nat)
    requires address + count * 4096 <= ADDRESS_LIMIT && AvoidsSelf(address, count) && i < count
    ensures PageAddress(address, i) < ADDRESS_LIMIT && PageAddress(address, i + 1) == PageAddress(address, i) + 4096
    ensures IsCanonical(PageAddress(address, i)) ==> Index(PageAddress(address, i), 4) != RECURSIVE_ENTRY
  {
  }

  lemma CanonicalOneMore(address: nat, n: nat)
    requires AllCanonical(address, n) && IsCanonical(PageAddress(address, n))
    ensures AllCanonical(address, n + 1)
  {
  }

  lemma RangeMappedOneMore(s: State, s': State, s'': State, address: nat, frame: nat, flags: Flags,
                           n: nat, q: Path, e: Entry)
    requires RangeMapped(s, s', address, frame, flags, n) && AllCanonical(address, n + 1)
    requires q == PageAt(address, n) && e == LeafEntry(frame + n, flags) && PageMapped(s', s'', q, e)
    ensures RangeMapped(s, s'', address, frame, flags, n + 1)
  {
    GrewTransitive(s.pages, s.tables, s'.pages, s'.tables, s''.pages, s''.tables);
    OnlyForOneMore(s.tables, s'.tables, s''.tables, address, n);
    NextPageIsNew(address, n);
    SameMappingOneMore(s, s', s'', PathsOf(address, n), q);
    NextPageIs(s, s', s'', PathsOf(address, n), q, n, frame, flags);
    PagesStay(s, s', s'', address, frame, flags, n);
  }

  // ----- running out of pages -----

  /** p is a table on the path of page q, below the top-level one. */
  predicate IsTableOf(p: Path, q: Path) {
    p != [] && |p| <= 3 && p <= q
  }

  /** Only tables on the path of page q were added. */
  ghost predicate OnlyFor(tables: Tables, tables': Tables, q: Path) {
    forall p | p in tables' :: p in tables || IsTableOf(p, q)
  }

  /** The tables on the path of page q, below the top-level one. */
  function TablesFor(q: Path): set<Path>
    requires |q| == 4
  {
    {q[..1], q[..2], q[..3]}
  }

  lemma TablesForIs(p: Path, q: Path)
    requires |q| == 4
    ensures p in TablesFor(q) <==> IsTableOf(p, q)
  {
    if IsTableOf(p, q) {
      assert p == q[..|p|];
    }
  }

  /** The tables on the paths of n pages from an address. */
  ghost function Needed(address: nat, n: nat): set<Path> {
    if n == 0 then {} else Needed(address, n - 1) + TablesFor(PageAt(address, n - 1))
  }

  /** Only tables on the paths of n pages were added. */
  ghost predicate OnlyForRange(tables: Tables, tables': Tables, address: nat, n: nat) {
    tables'.Keys <= tables.Keys + Needed(address, n)
  }

  lemma OnlyForOneMore(tables: Tables, tables': Tables, tables'': Tables, address: nat, n: nat)
    requires OnlyForRange(tables, tables', address, n) && OnlyFor(tables', tables'', PageAt(address, n))
    ensures OnlyForRange(tables, tables'', address, n + 1)
  {
    OnlyForIs(tables', tables'', PageAt(address, n));
  }

  lemma OnlyForIs(tables: Tables, tables': Tables, q: Path)
    requires |q| == 4 && OnlyFor(tables, tables', q)
    ensures tables'.Keys <= tables.Keys + TablesFor(q)
  {
    forall p | p in tables' ensures p in tables.Keys + TablesFor(q) {
      TablesForIs(p, q);
    }
  }

  /** Some of the tables for page q were made, and for one that is missing no page is left. */
  ghost predicate Stuck(s: State, s': State, q: Path) {
    && Grew(s.pages, s.tables, s'.pages, s'.tables) && NoFit(s'.pages, 1)
    && OnlyFor(s.tables, s'.tables, q) && Lacks(s'.tables, q)
  }

  ghost predicate Lacks(tables: Tables, q: Path) {
    exists p :: IsTableOf(p, q) && p !in tables
  }

  lemma {:induction false} PathIsTable(address: nat, level: nat, k: nat)
    requires 1 <= level <= 3 && k <= level
    ensures PathTo(address, level) <= PathTo(address, k)
            && (k == 0 ==> IsTableOf(PathTo(address, level), PathTo(address, 0)))
    decreases level - k
  {
    if k < level {
      PathIsTable(address, level, k + 1);
    }
  }

  lemma OneMoreFor(tables: Tables, tables': Tables, tables'': Tables, address: nat, level: nat)
    requires 1 <= level <= 3 && OnlyFor(tables, tables', PathTo(address, 0))
    requires tables''.Keys == tables'.Keys + {PathTo(address, level)}
    ensures OnlyFor(tables, tables'', PathTo(address, 0))
  {
    PathIsTable(address, level, 0);
  }

  lemma MissingTable(tables: Tables, address: nat, level: nat)
    requires 1 <= level <= 3 && PathTo(address, level) !in tables
    ensures Lacks(tables, PathTo(address, 0))
  {
    PathIsTable(address, level, 0);
  }

  /** Up to a level, `physicalTables` tells which tables of an address's path are there. */
  ghost predicate Known(tables: Tables, address: nat, physicalTables: seq<Option<nat>>, level: nat)
    requires level <= 3 && |physicalTables| == 5
  {
    forall i | 1 <= i <= level :: PathTo(address, i) in tables <==> physicalTables[i].Some?
  }

  lemma KnownBelow(tables: Tables, tables': Tables, address: nat, physicalTables: seq<Option<nat>>, level: nat)
    requires 1 <= level <= 3 && |physicalTables| == 5 && Known(tables, address, physicalTables, level)
    requires tables'.Keys == tables.Keys + {PathTo(address, level)}
    ensures Known(tables', address, physicalTables, level - 1)
  {
    forall i | 1 <= i < level ensures PathTo(address, i) in tables' <==> PathTo(address, i) in tables {
      assert |PathTo(address, i)| != |PathTo(address, level)|;
    }
  }

  function Released(pages: seq<bool>, f: nat): seq<bool> {
    if f < |pages| then pages[f := false] else pages
  }

  /** Tables were taken out, their pages and the pages `freed` are free, and nothing else changed. */
  ghost predicate Shrunk(s: State, s': State, freed: set<nat>) {
    && |s'.pages| == |s.pages|
    && Extends(s'.tables, s.tables)
    && forall f: nat | f < |s.pages| ::
        s'.pages[f] == (s.pages[f] && f !in NewFrames(s'.tables, s.tables) && f !in freed)
  }

  /** Empty tables were taken out. */
  ghost predicate Pruned(s: State, s': State) {
    Shrunk(s, s', {}) && SameMapping(s.ram, s.tables, s'.ram, s'.tables, {})
  }

  /** Page q is no longer mapped, and the pages `freed` are free. */
  ghost predicate PageUnmapped(s: State, s': State, q: Path, freed: set<nat>)
    requires |q| == 4
  {
    && Shrunk(s, s', freed)
    && SameMapping(s.ram, s.tables, s'.ram, s'.tables, {q})
    && MappedAt(s'.ram, s'.tables, q) == None
  }

  /** The frame freed with page q. */
  function FreedBy(s: State, q: Path, free: bool): set<nat>
    requires |q| == 4
  {
    var e := MappedAt(s.ram, s.tables, q);
    if free && e.Some? then {e.value.frame} else {}
  }

  /** The frames freed with n consecutive pages. */
  function FreedByRange(s: State, address: nat, n: nat, free: bool): set<nat> {
    if n == 0 then {} else FreedByRange(s, address, n - 1, free) + FreedBy(s, PageAt(address, n - 1), free)
  }

  /** Page q is not mapped to a table. */
  ghost predicate FreesNoTable(s: State, q: Path)
    requires |q| == 4
  {
    var e := MappedAt(s.ram, s.tables, q);
    e.Some? ==> e.value.frame !in s.tables.Values
  }

  ghost predicate Unmapped(s: State, q: Path)
    requires |q| == 4
  {
    MappedAt(s.ram, s.tables, q) == None
  }

  /** The first n pages from an address are no longer mapped; if asked for, the frames they were
      mapped to are free; and so are the tables that this left empty. */
  ghost predicate RangeUnmapped(s: State, s': State, address: nat, n: nat, free: bool) {
    && Shrunk(s, s', FreedByRange(s, address, n, free))
    && SameMapping(s.ram, s.tables, s'.ram, s'.tables, PathsOf(address, n))
    && forall i: nat | i < n :: Unmapped(s', PageAt(address, i))
  }

  lemma ClearedIsUnmapped(s: State, s': State, q: Path, frame: nat, free: bool)
    requires |q| == 4 && s'.tables == s.tables && s'.pages == if free then Released(s.pages, frame) else s.pages
    requires SameMapping(s.ram, s.tables, s'.ram, s'.tables, {q}) && MappedAt(s'.ram, s'.tables, q) == None
    ensures PageUnmapped(s, s', q, if free then {frame} else {})
  {
  }

  lemma ShrunkReflexive(s: State)
    ensures Shrunk(s, s, {})
  {
  }

  lemma ShrunkTransitive(s: State, s': State, s'': State, a: set<nat>, b: set<nat>)
    requires Shrunk(s, s', a) && Shrunk(s', s'', b)
    ensures Shrunk(s, s'', a + b)
  {
    ValuesExtend(s'.tables, s.tables);
    ValuesExtend(s''.tables, s'.tables);
  }

  lemma ShrunkByOne(s: State, s': State, p: Path)
    requires OneParent(s.tables) && p in s.tables && s.tables[p] < |s.pages|
    requires s'.tables == s.tables - {p} && s'.pages == s.pages[s.tables[p] := false]
    ensures Shrunk(s, s', {})
  {
    forall f | f in s.tables.Values ensures f == s.tables[p] <==> f !in s'.tables.Values {
      var q :| q in s.tables && s.tables[q] == f;
      assert q != p ==> s'.tables[q] == f;
    }
  }

  lemma PrunedReflexive(s: State)
    ensures Pruned(s, s)
  {
  }

  lemma PrunedTransitive(s: State, s': State, s'': State)
    requires Pruned(s, s') && Pruned(s', s'')
    ensures Pruned(s, s'')
  {
    ShrunkTransitive(s, s', s'', {}, {});
    var none: set<nat> := {};
    assert none + none == none;
  }

  lemma PageUnmappedThenPruned(s: State, s': State, s'': State, q: Path, freed: set<nat>)
    requires |q| == 4 && Pruned(s', s'')
    requires PageUnmapped(s, s', q, freed)
    ensures PageUnmapped(s, s'', q, freed)
  {
    ShrunkTransitive(s, s', s'', freed, {});
    assert freed + {} == freed;
  }

  lemma RangeUnmappedNone(s: State, address: nat, free: bool)
    ensures RangeUnmapped(s, s, address, 0, free)
  {
  }

  lemma RangeUnmappedOneMore(s: State, s': State, s'': State, address: nat, n: nat, free: bool)
    requires RangeUnmapped(s, s', address, n, free) && AllCanonical(address, n + 1)
    requires PageUnmapped(s', s'', PageAt(address, n), FreedBy(s', PageAt(address, n), free))
    ensures RangeUnmapped(s, s'', address, n + 1, free)
  {
    NextPageIsNew(address, n);
    ShrunkTransitive(s, s', s'', FreedByRange(s, address, n, free), FreedBy(s', PageAt(address, n), free));
    forall i: nat | i < n + 1 ensures Unmapped(s'', PageAt(address, i)) {
      if i < n {
        assert Unmapped(s', PageAt(address, i));
        PagesDiffer(address, n + 1, i, n);
      }
    }
  }

  lemma StillFreesNoTable(s: State, s': State, address: nat, n: nat, free: bool)
    requires RangeUnmapped(s, s', address, n, free) && AllCanonical(address, n + 1)
             && (free ==> FreesNoTable(s, PageAt(address, n)))
    ensures free ==> FreesNoTable(s', PageAt(address, n))
  {
    NextPageIsNew(address, n);
    ValuesExtend(s'.tables, s.tables);
  }

  /** From a level up, `physicalTables` tells which tables of an address's path are there, and where. */
  ghost predicate KnownFrom(tables: Tables, address: nat, physicalTables: seq<Option<nat>>, level: nat)
    requires |physicalTables| == 5
  {
    forall i | level <= i <= 3 && i >= 1 ::
      physicalTables[i] == if PathTo(address, i) in tables then Some(tables[PathTo(address, i)]) else None
  }

  lemma KnownFromCrawl(ram: Ram, root: nat, tables: Tables, address: nat, physicalTables: seq<Option<nat>>)
    requires Tree(ram, root, tables) && Index(address, 4) != RECURSIVE_ENTRY
    requires |physicalTables| == 5 && forall i | 0 <= i <= 4 :: physicalTables[i] == LevelFrame(ram, root, address, i)
    ensures KnownFrom(tables, address, physicalTables, 1)
  {
    forall i | 1 <= i <= 3 ensures physicalTables[i] == if PathTo(address, i) in tables
                                                        then Some(tables[PathTo(address, i)]) else None {
      LevelFrameIsTable(ram, root, tables, address, i);
    }
  }

  lemma KnownAbove(tables: Tables, tables': Tables, address: nat, physicalTables: seq<Option<nat>>, level: nat)
    requires 1 <= level <= 3 && |physicalTables| == 5 && KnownFrom(tables, address, physicalTables, level)
    requires tables' == tables || tables' == tables - {PathTo(address, level)}
    ensures KnownFrom(tables', address, physicalTables, level + 1)
  {
    forall i | level < i <= 3 ensures PathTo(address, i) != PathTo(address, level) {
      assert |PathTo(address, i)| != |PathTo(address, level)|;
    }
  }

  /** Clearing an entry of one table leaves the others occupied. */
  lemma OthersOccupied(ram: Ram, tables: Tables, p: Path, i: nat, e: Entry)
    requires OneParent(tables) && NoneEmptyBut(ram, tables, p) && p in tables
    requires tables[p] in ram && i < |ram[tables[p]]|
    ensures NoneEmptyBut(WithEntry(ram, tables[p], i, e), tables, p)
  {
    var ram' := WithEntry(ram, tables[p], i, e);
    forall q | q in tables && q != [] && q != p ensures Occupied(ram', tables, q) {
      assert Occupied(ram, tables, q) && ram'[tables[q]] == ram[tables[q]];
    }
  }

  /** Taking out an empty table leaves all but its parent occupied. */
  lemma EmptierAbove(ram: Ram, tables: Tables, p: Path, up: Path, i: nat, e: Entry)
    requires OneParent(tables) && NoneEmptyBut(ram, tables, p) && p in tables && up in tables
    requires tables[up] in ram && i < |ram[tables[up]]|
    ensures NoneEmptyBut(WithEntry(ram, tables[up], i, e), tables - {p}, up)
  {
    var ram' := WithEntry(ram, tables[up], i, e);
    forall q | q in tables - {p} && q != [] && q != up ensures Occupied(ram', tables - {p}, q) {
      assert Occupied(ram, tables, q) && ram'[tables[q]] == ram[tables[q]];
    }
  }

  /** Of the tables that remain only `up` may be empty, and every page is mapped as before. */
  ghost predicate Unlinked(ram: Ram, tables: Tables, ram': Ram, tables': Tables, up: Path) {
    NoneEmptyBut(ram', tables', up) && SameMapping(ram, tables, ram', tables', {})
  }

  lemma TableUnlinked(ram: Ram, root: nat, tables: Tables, p: Path, up: Path, i: nat, e: Entry)
    requires Tree(ram, root, tables) && up in tables && |up| < 3 && InTree(up, i) && p == up + [i] && p in tables
    requires tables[p] in ram && AllAbsent(ram[tables[p]]) && !e.present && NoneEmptyBut(ram, tables, p)
    requires tables[up] in ram && i < |ram[tables[up]]|
    ensures Tree(WithEntry(ram, tables[up], i, e), root, tables - {p})
    ensures Unlinked(ram, tables, WithEntry(ram, tables[up], i, e), tables - {p}, up)
    ensures SameFrames(ram, WithEntry(ram, tables[up], i, e))
  {
    TableRemoved(ram, root, tables, up, i, e);
    EmptierAbove(ram, tables, p, up, i, e);
  }

  lemma EmptyOrOccupied(ram: Ram, tables: Tables, p: Path)
    requires p in tables && tables[p] in ram
    ensures AllAbsent(ram[tables[p]]) <==> !Occupied(ram, tables, p)
  {
  }

  lemma LeafOccupies(ram: Ram, tables: Tables, p: Path, i: nat, e: Entry)
    requires OneParent(tables) && NoneEmptyBut(ram, tables, p) && p in tables && e.present
    requires tables[p] in ram && i < |ram[tables[p]]|
    ensures NoneEmpty(WithEntry(ram, tables[p], i, e), tables)
  {
    var ram' := WithEntry(ram, tables[p], i, e);
    forall q | q in tables && q != [] ensures Occupied(ram', tables, q) {
      if q == p {
        assert ram'[tables[p]][i].present;
      } else {
        assert Occupied(ram, tables, q) && ram'[tables[q]] == ram[tables[q]];
      }
    }
  }

  /** Which tables of an address's path are there. */
  lemma PathsPresent(ram: Ram, root: nat, tables: Tables, address: nat, physicalTables: seq<Option<nat>>)
    requires Tree(ram, root, tables) && Index(address, 4) != RECURSIVE_ENTRY
    requires |physicalTables| == 5 && forall i | 0 <= i <= 4 :: physicalTables[i] == LevelFrame(ram, root, address, i)
    ensures PathTo(address, 4) in tables && Known(tables, address, physicalTables, 3)
    ensures physicalTables[1].Some? ==> physicalTables[2].Some?
    ensures physicalTables[2].Some? ==> physicalTables[3].Some?
    ensures physicalTables[0].Some? <==> MappedAt(ram, tables, PathTo(address, 0)).Some?
    ensures physicalTables[0].Some? ==> physicalTables[1].Some?
  {
    LevelZeroIsMapped(ram, root, tables, address);
    assert PathTo(address, 0)[..3] == PathTo(address, 1);
    forall i | 1 <= i <= 3
      ensures physicalTables[i].Some? <==> PathTo(address, i) in tables
      ensures PathTo(address, i) in tables ==> PathTo(address, i + 1) in tables
    {
      LevelFrameIsTable(ram, root, tables, address, i);
      if PathTo(address, i) in tables {
        ParentExists(tables, ram, root, address, i);
      }
    }
  }

  /** Tables were added in free frames, and every page is mapped as before. */
  ghost predicate Extended(s: State, s': State) {
    Grew(s.pages, s.tables, s'.pages, s'.tables) && SameMapping(s.ram, s.tables, s'.ram, s'.tables, {})
  }

  lemma ExtendedReflexive(s: State)
    ensures Extended(s, s)
  {
  }

  lemma ExtendedTransitive(s: State, s': State, s'': State)
    requires Extended(s, s') && Extended(s', s'')
    ensures Extended(s, s'')
  {
    GrewTransitive(s.pages, s.tables, s'.pages, s'.tables, s''.pages, s''.tables);
  }

  lemma LinkedOccupies(ram: Ram, tables: Tables, ram': Ram, tables': Tables, up: Path, p: Path)
    requires Linked(ram, tables, ram', tables', up, p) && tables'.Keys == tables.Keys + {p}
    requires NoneEmptyBut(ram, tables, up)
    ensures NoneEmptyBut(ram', tables', p)
  {
  }

  lemma ParentExists(tables: Tables, ram: Ram, root: nat, address: nat, level: nat)
    requires Tree(ram, root, tables) && level <= 3 && PathTo(address, level) in tables
    ensures PathTo(address, level + 1) in tables
  {
    var p := PathTo(address, level);
    assert Hangs(tables, p) && p[..|p| - 1] == PathTo(address, level + 1);
  }

  lemma GrewTransitive(pages: seq<bool>, tables: Tables, pages': seq<bool>, tables': Tables,
                       pages'': seq<bool>, tables'': Tables)
    requires Grew(pages, tables, pages', tables') && Grew(pages', tables', pages'', tables'')
    ensures Grew(pages, tables, pages'', tables'')
  {
    ValuesExtend(tables, tables');
    ValuesExtend(tables', tables'');
  }

  lemma ValuesExtend(tables: Tables, tables': Tables)
    requires Extends(tables, tables')
    ensures tables.Values <= tables'.Values
  {
    forall g | g in tables.Values ensures g in tables'.Values {
      var q :| q in tables && tables[q] == g;
      assert tables'[q] == g;
    }
  }

  lemma GrewByOne(pages: seq<bool>, tables: Tables, p: Path, f: nat)
    requires FIRST_PAGE <= f < |pages| && !pages[f] && p !in tables && f !in tables.Values
    ensures Grew(pages, tables, pages[f := true], tables[p := f])
  {
    FreeAboveTaken(pages, f);
    OneTableMore(tables, p, f);
  }

  lemma OneTableMore(tables: Tables, p: Path, f: nat)
    requires p !in tables && f !in tables.Values
    ensures Extends(tables, tables[p := f]) && NewFrames(tables, tables[p := f]) == {f}
    ensures |tables[p := f].Keys| == |tables.Keys| + 1
  {
    var tables' := tables[p := f];
    ValuesExtend(tables, tables');
    assert tables'[p] == f;
    assert tables'.Keys == tables.Keys + {p};
  }

  /** The indexes of an address and the windows onto its tables (lines 607-619). */
  method SplitAddress(address: nat) returns (indexes: seq<nat>, windows: seq<nat>)
    ensures |indexes| == 5 && indexes[0] == address % 4096 && forall i | 1 <= i <= 4 :: indexes[i] == Index(address, i)
    ensures |windows| == 5 && forall i | 1 <= i <= 4 :: windows[i] == Window(address, i)
  {
    indexes := SplitIndexes(address);
    var i4, i3, i2 := indexes[4], indexes[3], indexes[2];
    windows := [0, PT_MASK + i4 * GIB_1 + i3 * MIB_2 + i2 * KIB_4, PD_MASK + i4 * MIB_2 + i3 * KIB_4,
                PDPT_MASK + i4 * KIB_4, PML4T];
  }

  method SplitIndexes(address: nat) returns (indexes: seq<nat>)
    ensures |indexes| == 5 && indexes[0] == address % 4096 && forall i | 1 <= i <= 4 :: indexes[i] == Index(address, i)
  {
    ShiftedTwice(address);
    indexes := [address % 4096];
    var page := address / 4096;
    for i := 1 to 5
      invariant |indexes| == i && indexes[0] == address % 4096
      invariant page == (if i == 1 then address / 4096 else if i == 2 then address / 0x20_0000
                         else if i == 3 then address / 0x4000_0000
                         else if i == 4 then address / 0x80_0000_0000 else page)
      invariant forall k | 1 <= k < i :: indexes[k] == Index(address, k)
    {
      indexes := indexes + [page % 512];
      page := page / 512;
    }
  }

  lemma {:induction false} MissingBelow(ram: Ram, root: nat, address: nat, level: nat)
    requires level <= 3 && LevelFrame(ram, root, address, level) == None
    ensures forall k: nat | k <= level :: LevelFrame(ram, root, address, k) == None
    decreases level
  {
    if level > 0 {
      MissingBelow(ram, root, address, level - 1);
    }
  }
}
