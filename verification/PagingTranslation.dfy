/** What mapping and unmapping a range mean for the processor's translation of addresses. */
module PagingTranslation {
  import opened Options
  import opened PageWalk
  import opened PageTree
  import opened Paging

  lemma TranslateIs(ram: Ram, root: nat, tables: Tables, address: nat)
    requires Tree(ram, root, tables) && IsCanonical(address) && Index(address, 4) != RECURSIVE_ENTRY
    ensures var e := MappedAt(ram, tables, PathTo(address, 0));
      Translate(ram, root, address) == if e.Some? then Some(e.value.frame * 4096 + address % 4096) else None
  {
    LevelZeroIsMapped(ram, root, tables, address);
  }

  lemma BytesCanonical(page: nat, offset: nat)
    requires page % 4096 == 0 && offset < 4096
    ensures page < ADDRESS_LIMIT ==> (IsCanonical(page + offset) <==> IsCanonical(page))
    ensures (page + offset) % 4096 == offset && (page + offset) / 4096 == page / 4096
  {
  }

  /** The bytes of a page share its path. */
  lemma SamePath(page: nat, offset: nat)
    requires page % 4096 == 0 && offset < 4096
    ensures PathTo(page + offset, 0) == PathTo(page, 0)
    ensures page < ADDRESS_LIMIT ==> (IsCanonical(page + offset) <==> IsCanonical(page))
    ensures (page + offset) % 4096 == offset
  {
    BytesCanonical(page, offset);
    SamePagePath(page + offset, page);
  }

  lemma SamePagePath(a: nat, b: nat)
    requires a / 4096 == b / 4096
    ensures PathTo(a, 0) == PathTo(b, 0)
  {
    ShiftedTwice(a);
    ShiftedTwice(b);
    PathIndexes(a);
    PathIndexes(b);
  }

  lemma SameIndex(page: nat, offset: nat)
    requires page % 4096 == 0 && offset < 4096
    ensures Index(page + offset, 4) == Index(page, 4)
  {
    SamePath(page, offset);
    PathIndexes(page);
    PathIndexes(page + offset);
    assert PathTo(page + offset, 0)[0] == PathTo(page, 0)[0];
  }

  lemma ByteOfPage(page: nat, a: nat)
    requires page % 4096 == 0 && page <= a < page + 4096 && IsCanonical(page)
    ensures IsCanonical(a) && Index(a, 4) == Index(page, 4) && PathTo(a, 0) == PathTo(page, 0) && a % 4096 == a - page
  {
    var offset := a - page;
    SamePath(page, offset);
    SameIndex(page, offset);
  }

  lemma PageAligned(address: nat, i: nat)
    requires address % 4096 == 0
    ensures PageAddress(address, i) % 4096 == 0
  {
  }

  /** A byte of page i of a range shares the page's path. */
  lemma ByteOfRange(address: nat, n: nat, i: nat, a: nat)
    requires address % 4096 == 0 && i < n && AllCanonical(address, n) && AvoidsSelf(address, n)
    requires PageAddress(address, i) <= a < PageAddress(address, i) + 4096
    ensures IsCanonical(a) && Index(a, 4) != RECURSIVE_ENTRY && PathTo(a, 0) == PageAt(address, i)
    ensures a % 4096 == a - PageAddress(address, i)
  {
    assert IsCanonical(PageAddress(address, i)) && Index(PageAddress(address, i), 4) != RECURSIVE_ENTRY;
    PageAligned(address, i);
    PageAtIs(address, i);
    ByteOfPage(PageAddress(address, i), a);
  }

  /** Where a byte of a page is found once the page is mapped to a frame: where it was before, if anywhere. */
  function FoundAt(before: Option<nat>, frame: nat, offset: nat): Option<nat> {
    if before == None then Some(frame * 4096 + offset) else before
  }

  /** The translation of an address whose page was mapped to e unless it was mapped before. */
  lemma NewTranslation(ram: Ram, tables: Tables, ram': Ram, tables': Tables, root: nat, a: nat, e: Entry, frame: nat)
    requires Tree(ram, root, tables) && Tree(ram', root, tables') && IsCanonical(a) && Index(a, 4) != RECURSIVE_ENTRY
    requires MappedAt(ram', tables', PathTo(a, 0)) == MappedOnce(MappedAt(ram, tables, PathTo(a, 0)), e)
    requires e.frame == frame
    ensures Translate(ram', root, a) == FoundAt(Translate(ram, root, a), frame, a % 4096)
  {
    TranslateIs(ram, root, tables, a);
    TranslateIs(ram', root, tables', a);
  }

  lemma PageTranslation(s: State, s': State, root: nat, a: nat, i: nat, frame: nat, flags: Flags)
    requires Tree(s.ram, root, s.tables) && Tree(s'.ram, root, s'.tables)
    requires IsCanonical(a) && Index(a, 4) != RECURSIVE_ENTRY
    requires PageIs(s, s', PathTo(a, 0), i, frame, flags)
    ensures Translate(s'.ram, root, a) == FoundAt(Translate(s.ram, root, a), frame + i, a % 4096)
  {
    NewTranslation(s.ram, s.tables, s'.ram, s'.tables, root, a, LeafEntry(frame + i, flags), frame + i);
  }

  lemma SameTranslation(ram: Ram, tables: Tables, ram': Ram, tables': Tables, root: nat, a: nat)
    requires Tree(ram, root, tables) && Tree(ram', root, tables') && IsCanonical(a) && Index(a, 4) != RECURSIVE_ENTRY
    requires MappedAt(ram', tables', PathTo(a, 0)) == MappedAt(ram, tables, PathTo(a, 0))
    ensures Translate(ram', root, a) == Translate(ram, root, a)
  {
    TranslateIs(ram, root, tables, a);
    TranslateIs(ram', root, tables', a);
  }

  lemma PageOfByte(s: State, s': State, address: nat, frame: nat, flags: Flags, n: nat, i: nat, a: nat)
    requires RangeMapped(s, s', address, frame, flags, n) && address % 4096 == 0
    requires i < n && PageAddress(address, i) <= a < PageAddress(address, i) + 4096
    requires AllCanonical(address, n) && AvoidsSelf(address, n)
    ensures IsCanonical(a) && Index(a, 4) != RECURSIVE_ENTRY && a % 4096 == a - PageAddress(address, i)
    ensures PageIs(s, s', PathTo(a, 0), i, frame, flags)
  {
    ByteOfRange(address, n, i, a);
    assert PageIs(s, s', PageAt(address, i), i, frame, flags);
  }

  /** A byte of a mapped range: in a page that was not mapped it is now found in the page's frame,
      and in a page that was mapped it is found where it was. */
  lemma MappedByte(s: State, s': State, root: nat, address: nat, frame: nat, flags: Flags, n: nat, i: nat, a: nat)
    requires Tree(s.ram, root, s.tables) && Tree(s'.ram, root, s'.tables)
    requires RangeMapped(s, s', address, frame, flags, n) && address % 4096 == 0
    requires i < n && PageAddress(address, i) <= a < PageAddress(address, i) + 4096
    requires AllCanonical(address, n) && AvoidsSelf(address, n)
    ensures Translate(s'.ram, root, a) == FoundAt(Translate(s.ram, root, a), frame + i, a % 4096)
  {
    PageOfByte(s, s', address, frame, flags, n, i, a);
    PageTranslation(s, s', root, a, i, frame, flags);
  }

  /** A byte of an unmapped range is found nowhere. */
  lemma UnmappedByte(s: State, s': State, root: nat, address: nat, n: nat, free: bool, i: nat, a: nat)
    requires Tree(s'.ram, root, s'.tables) && RangeUnmapped(s, s', address, n, free) && address % 4096 == 0
    requires i < n && PageAddress(address, i) <= a < PageAddress(address, i) + 4096
    requires AllCanonical(address, n) && AvoidsSelf(address, n)
    ensures Translate(s'.ram, root, a) == None
  {
    ByteOfRange(address, n, i, a);
    assert Unmapped(s', PageAt(address, i));
    TranslateIs(s'.ram, root, s'.tables, a);
  }

  lemma BytesOfPage(a: nat, page: nat)
    requires page % 4096 == 0 && IsCanonical(a) && IsCanonical(page) && PathTo(a, 0) == PathTo(page, 0)
    ensures page <= a < page + 4096
  {
    SamePathSamePage(a, page);
    SamePageBounds(a, page);
  }

  lemma SamePageBounds(a: nat, page: nat)
    requires a / 4096 == page / 4096 && page % 4096 == 0
    ensures page <= a < page + 4096
  {
  }

  lemma OnlyByteOfPage(address: nat, i: nat, a: nat)
    requires address % 4096 == 0 && IsCanonical(a) && IsCanonical(PageAddress(address, i))
             && PathTo(a, 0) == PageAt(address, i)
    ensures PageAddress(address, i) <= a < PageAddress(address, i) + 4096
  {
    PageAligned(address, i);
    PageAtIs(address, i);
    BytesOfPage(a, PageAddress(address, i));
  }

  lemma NotInRange(address: nat, n: nat, a: nat)
    requires AllCanonical(address, n) && address % 4096 == 0 && IsCanonical(a)
    requires a < address || address + 4096 * n <= a
    ensures PathTo(a, 0) !in PathsOf(address, n)
  {
    var q := PathTo(a, 0);
    PathsOfIs(address, n, q);
    if q in PathsOf(address, n) {
      var i: nat :| i < n && IsPage(q, address, i);
      assert IsCanonical(PageAddress(address, i));
      OnlyByteOfPage(address, i, a);
    }
  }

  /** Every canonical address outside the range, slot 510 apart, is found where it was. */
  lemma OtherByte(s: State, s': State, root: nat, address: nat, n: nat, a: nat)
    requires Tree(s.ram, root, s.tables) && Tree(s'.ram, root, s'.tables)
    requires SameMapping(s.ram, s.tables, s'.ram, s'.tables, PathsOf(address, n))
    requires AllCanonical(address, n) && address % 4096 == 0
    requires IsCanonical(a) && Index(a, 4) != RECURSIVE_ENTRY
    requires a < address || address + 4096 * n <= a
    ensures Translate(s'.ram, root, a) == Translate(s.ram, root, a)
  {
    NotInRange(address, n, a);
    SameTranslation(s.ram, s.tables, s'.ram, s'.tables, root, a);
  }
}
