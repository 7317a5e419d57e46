/** What releasing pages does to an address-space list: exactly the inverse of a request when the
    range ends below 2^64 bytes, and nothing sensible otherwise. */
module AddressReleases {
  import opened BuddyBits
  import opened AddressLists
  import opened AddressSpaces
  import PageWalk

  /** Exactly the pages of a range went from used to free. */
  ghost predicate PagesFreed(list: List, list': List, origin: nat, page: nat, count: nat) {
    && origin <= page && Run(Usage(list), page - origin, count, true)
    && Usage(list') == Filled(Usage(list), page - origin, count, false)
  }

  /** Blocks other than the last end below 2^64 bytes. */
  lemma EndsBelow(list: List, origin: nat, i: nat)
    requires Proper(list, origin) && i < |list|
    ensures list[i].base + list[i].pageCount <= PAGES
    ensures !list[i].available ==> i < |list| - 1 && list[i].base + list[i].pageCount < PAGES
  {
    LastEnds(list, origin);
    if i < |list| - 1 {
      BlocksInOrder(list, origin, i, |list| - 1);
    }
  }

  lemma WrappedEnd(list: List, origin: nat, i: nat)
    requires Proper(list, origin) && i < |list|
    ensures var end := list[i].base + list[i].pageCount;
      Wrapped(list[i].base, list[i].pageCount) == if end == PAGES then 0 else end
  {
    EndsBelow(list, origin, i);
  }

  /** A block holds a range that ends below 2^64 bytes exactly if the range lies in it, unless the
      block itself ends at 2^64 bytes. */
  lemma HoldsMeansWithin(list: List, origin: nat, page: nat, count: nat, i: nat)
    requires Proper(list, origin) && i < |list| && 0 < count && page + count < PAGES
    ensures Holds(list, i, page, count) <==>
              list[i].base <= page && page + count <= list[i].base + list[i].pageCount < PAGES
  {
    WrappedEnd(list, origin, i);
    EndsBelow(list, origin, i);
  }

  /** A page is in one block only. */
  lemma WithinOne(list: List, origin: nat, page: nat, i: nat, j: nat)
    requires Chained(list, origin) && i < |list| && j < |list|
    requires list[i].base <= page < list[i].base + list[i].pageCount
    requires list[j].base <= page < list[j].base + list[j].pageCount
    ensures i == j
  {
    if i < j {
      BlocksInOrder(list, origin, i, j);
    } else if j < i {
      BlocksInOrder(list, origin, j, i);
    }
  }

  /** The block that a page is in. */
  lemma {:induction false} BlockOf(list: List, origin: nat, page: nat) returns (i: nat)
    requires Chained(list, origin) && origin <= page < origin + |Usage(list)|
    ensures i < |list| && list[i].base <= page < list[i].base + list[i].pageCount
    ensures Usage(list)[page - origin] == !list[i].available
    decreases |list|
  {
    var n := |list| - 1;
    assert BeginsAt(list, origin, n);
    if list[n].base <= page {
      i := n;
    } else {
      ChainedPrefix(list, origin, n);
      i := BlockOf(list[..n], origin, page);
    }
  }

  /** Canonical lists keep a run of pages that are all used, or all free, in one block. */
  lemma RunInOneBlock(list: List, origin: nat, page: nat, count: nat, used: bool) returns (i: nat)
    requires Canonical(list, origin) && origin <= page && count > 0 && Run(Usage(list), page - origin, count, used)
    ensures i < |list| && list[i].available == !used
    ensures list[i].base <= page && page + count <= list[i].base + list[i].pageCount
  {
    i := BlockOf(list, origin, page);
    assert Usage(list)[page - origin] == used;
    var end := list[i].base + list[i].pageCount;
    if page + count > end {
      assert Usage(list)[end - origin] == used;
      BlockRun(list, origin, i);
      var j := BlockOf(list, origin, end);
      NextBlock(list, origin, i, j);
    }
  }

  /** The block after block i begins where it ends, and is of the other kind. */
  lemma NextBlock(list: List, origin: nat, i: nat, j: nat)
    requires Canonical(list, origin) && i < |list| && j < |list|
    requires list[j].base <= list[i].base + list[i].pageCount < list[j].base + list[j].pageCount
    ensures list[j].available != list[i].available
  {
    var end := list[i].base + list[i].pageCount;
    if i + 1 < |list| {
      UsageSplit(list, i);
      assert BeginsAt(list, origin, i) && BeginsAt(list, origin, i + 1);
      WithinOne(list, origin, end, i + 1, j);
      assert Differs(list, i + 1);
    } else if j < i {
      BlocksInOrder(list, origin, j, i);
    }
  }

  // ----- freeing used pages -----

  lemma TripleUsage(a: Block, b: Block, c: Block)
    requires b.base == a.base + a.pageCount && c.base == b.base + b.pageCount
    ensures Usage([a, b, c]) ==
              Repeat(!a.available, a.pageCount) + Repeat(!b.available, b.pageCount) + Repeat(!c.available, c.pageCount)
    ensures Chained([a, b, c], a.base)
  {
    PairUsage(a, b);
    assert [a, b, c] == [a, b] + [c];
    UsageAppend([a, b], c);
    ChainedAppend([a, b], a.base, c);
  }

  lemma FreedBlock(b: Block, page: nat, count: nat)
    requires !b.available && b.base <= page && 0 < count && page + count <= b.base + b.pageCount < PAGES
    ensures Wrapped(b.base, b.pageCount) == b.base + b.pageCount && Wrapped(page, count) == page + count
    ensures Usage(Freed(b, page, count)) ==
              Repeat(true, page - b.base) + Repeat(false, count) + Repeat(true, b.pageCount - (page - b.base) - count)
    ensures Chained(Freed(b, page, count), b.base)
  {
    var mid := Freed(b, page, count);
    if |mid| == 1 {
      UsageOne(mid[0]);
      assert mid[..0] == [];
      assert BeginsAt(mid, b.base, 0);
    } else {
      TripleUsage(mid[0], mid[1], mid[2]);
    }
  }

  lemma FreedIsChained(list: List, origin: nat, i: nat, page: nat, count: nat)
    requires Chained(list, origin) && i < |list| && !list[i].available && Holds(list, i, page, count)
    requires list[i].base <= page && 0 < count && page + count <= list[i].base + list[i].pageCount < PAGES
    ensures Chained(WithFreed(list, i, page, count), origin)
  {
    FreedBlock(list[i], page, count);
    ReplacedChained(list, origin, i, Freed(list[i], page, count));
  }

  lemma FreedUsage(list: List, i: nat, page: nat, count: nat)
    requires i < |list| && !list[i].available && Holds(list, i, page, count)
    requires list[i].base <= page && 0 < count && page + count <= list[i].base + list[i].pageCount < PAGES
    ensures var first := |Usage(list[..i])| + (page - list[i].base);
      && first + count <= |Usage(list)| && Run(Usage(list), first, count, true)
      && Usage(WithFreed(list, i, page, count)) == Filled(Usage(list), first, count, false)
  {
    FreedBlock(list[i], page, count);
    UsageInParts(list, i, Freed(list[i], page, count));
    FilledParts(Usage(list), Usage(WithFreed(list, i, page, count)), Usage(list[..i]), !list[i].available,
                Usage(Freed(list[i], page, count)), Usage(list[i + 1..]), page - list[i].base, count,
                  list[i].pageCount, false);
  }

  lemma FreedFlips(list: List, origin: nat, i: nat, page: nat, count: nat)
    requires Proper(list, origin) && 0 < count && page + count < PAGES
    requires i < |list| && !list[i].available && Holds(list, i, page, count)
    ensures var freed := WithFreed(list, i, page, count);
      Chained(freed, origin) && PagesFreed(list, freed, origin, page, count)
  {
    HoldsMeansWithin(list, origin, page, count, i);
    assert BeginsAt(list, origin, i);
    FreedIsChained(list, origin, i, page, count);
    FreedUsage(list, i, page, count);
  }

  /** Freeing used pages flips exactly them, keeps the list as it should be, and passes the check. */
  lemma FreeUsed(list: List, origin: nat, available: nat, i: nat, page: nat, count: nat)
    requires Proper(list, origin) && available == FreeCount(list)
    requires 0 < count && page + count < PAGES && i < |list| && !list[i].available && Holds(list, i, page, count)
    ensures var list' := Defragmented(WithFreed(list, i, page, count));
      && PagesFreed(list, list', origin, page, count) && Proper(list', origin)
      && Sound(list', origin, available + count) && available + count == FreeCount(list')
  {
    var freed := WithFreed(list, i, page, count);
    FreedFlips(list, origin, i, page, count);
    DefragmentedIsCanonical(freed, origin);
    FlippedIsProper(list, Defragmented(freed), origin, available, page, count);
  }

  lemma FlippedIsProper(list: List, list': List, origin: nat, available: nat, page: nat, count: nat)
    requires Proper(list, origin) && available == FreeCount(list) && Canonical(list', origin)
    requires PagesFreed(list, list', origin, page, count)
    ensures Proper(list', origin) && available + count == FreeCount(list') && Sound(list', origin, available + count)
  {
    CountFlipped(list, list', page - origin, count, false);
    NotEmpty(list);
    NotEmpty(list');
    LastPage(list);
    LastPage(list');
    SoundMeansLastAvailable(list', origin, available + count);
  }

  /** A release of a range that ends below 2^64 bytes takes effect exactly if all its pages are in use. */
  lemma FreedIffUsed(list: List, origin: nat, i: nat, page: nat, count: nat)
    requires Proper(list, origin) && 0 < count && page + count < PAGES && IsHolder(list, page, count, i)
    ensures i < |list| && !list[i].available <==> origin <= page && Run(Usage(list), page - origin, count, true)
  {
    if i < |list| {
      HoldsMeansWithin(list, origin, page, count, i);
      BlockRun(list, origin, i);
      assert Usage(list)[page - origin] == !list[i].available;
    }
    if origin <= page && Run(Usage(list), page - origin, count, true) {
      var k := RunInOneBlock(list, origin, page, count, true);
      EndsBelow(list, origin, k);
      HoldsMeansWithin(list, origin, page, count, k);
      WithinOne(list, origin, page, i, k);
    }
  }

  /** All pages from one up to 2^64 bytes are free. */
  ghost predicate FreeToTheEnd(list: List, origin: nat, page: nat) {
    && origin <= page <= PAGES && origin + |Usage(list)| == PAGES
    && Run(Usage(list), page - origin, PAGES - page, false)
  }

  lemma LastReachesEnd(list: List, origin: nat, page: nat, k: nat)
    requires Proper(list, origin) && k < |list| && list[k].base <= page < list[k].base + list[k].pageCount
    requires list[k].available
    ensures FreeToTheEnd(list, origin, page) <==> list[k].base + list[k].pageCount == PAGES
  {
    BlockRun(list, origin, k);
    LastEnds(list, origin);
    var n := |list| - 1;
    if k < n {
      NextBegins(list, origin, k);
      BlockRun(list, origin, k + 1);
      assert Differs(list, k + 1);
      assert Usage(list)[list[k + 1].base - origin];
    }
  }

  /** It meets an available block, which is a panic, exactly if all its pages are free, but not all
      pages after them up to 2^64 bytes: the end of that block is taken for 0. */
  lemma MetIffFree(list: List, origin: nat, i: nat, page: nat, count: nat)
    requires Proper(list, origin) && 0 < count && page + count < PAGES && IsHolder(list, page, count, i)
    ensures i < |list| && list[i].available <==>
              origin <= page && Run(Usage(list), page - origin, count, false) && !FreeToTheEnd(list, origin, page)
  {
    if i < |list| {
      HoldsMeansWithin(list, origin, page, count, i);
      BlockRun(list, origin, i);
      assert Usage(list)[page - origin] == !list[i].available;
      if list[i].available {
        LastReachesEnd(list, origin, page, i);
      }
    }
    if origin <= page && Run(Usage(list), page - origin, count, false) {
      var k := RunInOneBlock(list, origin, page, count, false);
      EndsBelow(list, origin, k);
      LastReachesEnd(list, origin, page, k);
      HoldsMeansWithin(list, origin, page, count, k);
      if i < |list| {
        WithinOne(list, origin, page, i, k);
      }
    }
  }

  // ----- round trip -----

  lemma UsedEndsBelow(list: List, origin: nat, page: nat, count: nat)
    requires Proper(list, origin) && count > 0 && origin <= page && Run(Usage(list), page - origin, count, true)
    ensures page + count < PAGES
  {
    LastPage(list);
    assert Usage(list)[page - origin + count - 1];
  }

  /** Releasing what was just reserved restores the list, block by block. */
  lemma ReleaseRestores(list: List, list': List, origin: nat, page: nat, count: nat, i: nat)
    requires Proper(list, origin) && Proper(list', origin) && count > 0 && PagesTaken(list, list', origin, page, count)
    requires IsHolder(list', page, count, i)
    ensures page + count < PAGES && i < |list'| && !list'[i].available
    ensures Defragmented(WithFreed(list', i, page, count)) == list
  {
    TakenAreUsed(list, list', origin, page, count);
    UsedEndsBelow(list', origin, page, count);
    FreedIffUsed(list', origin, i, page, count);
    FreeUsed(list', origin, FreeCount(list'), i, page, count);
    ListRestored(list, list', Defragmented(WithFreed(list', i, page, count)), origin, page, count);
  }

  lemma TakenAreUsed(list: List, list': List, origin: nat, page: nat, count: nat)
    requires PagesTaken(list, list', origin, page, count)
    ensures InRange(list', origin, page, count, true)
  {
    FilledBack(Usage(list), page - origin, count, true);
  }

  /** A list is restored once the pages taken from it are free again. */
  lemma ListRestored(list: List, list': List, list'': List, origin: nat, page: nat, count: nat)
    requires Canonical(list, origin) && Canonical(list'', origin)
    requires PagesTaken(list, list', origin, page, count) && PagesFreed(list', list'', origin, page, count)
    ensures list'' == list
  {
    FilledBack(Usage(list), page - origin, count, true);
    EncodingIsUnique(list'', list, origin);
  }

  /** Releases a range that ends below 2^64 bytes: it takes effect exactly if all the pages are in
      use, panics exactly if they were all free and not all pages after them are, and otherwise does
      nothing and returns true. */
  method FreeExactly(s: AddressSpace, address: nat, count: nat) returns (r: Release)
    requires s.Valid() && address / 4096 + count < PAGES
    modifies s`list, s`available
    ensures r.Failed? <==> count == 0 || address % 4096 != 0 || !PageWalk.IsCanonical(address)
    ensures !r.Failed? ==> (r.Done? <==> InRange(old(s.list), s.origin, address / 4096, count, true))
    ensures !r.Failed? ==>
              (r.Panicked? <==> InRange(old(s.list), s.origin, address / 4096, count, false) &&
                                !FreeToTheEnd(old(s.list), s.origin, address / 4096))
    ensures r.Done? ==>
              && s.Valid() && PagesFreed(old(s.list), s.list, s.origin, address / 4096, count)
              && s.available == old(s.available) + count
    ensures r.Failed? || r.Ignored? ==> s.Valid() && s.list == old(s.list) && s.available == old(s.available)
  {
    ghost var i;
    ghost var list := s.list;
    r, i := s.Free(address, count);
    if !r.Failed? {
      FreedIffUsed(list, s.origin, i, address / 4096, count);
      MetIffFree(list, s.origin, i, address / 4096, count);
      if i < |list| && !list[i].available {
        FreeUsed(list, s.origin, old(s.available), i, address / 4096, count);
      }
    }
  }

  /** All pages of a range are in the list, and used or free. */
  ghost predicate InRange(list: List, origin: nat, page: nat, count: nat, used: bool) {
    origin <= page && Run(Usage(list), page - origin, count, used)
  }

  /** Reserves pages and releases them again. */
  method RequestAndFree(s: AddressSpace, count: nat) returns (r: Reservation)
    requires s.Valid()
    modifies s`list, s`available
    ensures r.Reserved? && r.page * 4096 < PageWalk.ADDRESS_LIMIT && PageWalk.IsCanonical(r.page * 4096) ==>
              s.list == old(s.list) && s.available == old(s.available)
  {
    ghost var best, i;
    r, best := s.RequestPages(count, true);
    if r.Reserved? && r.page * 4096 < PageWalk.ADDRESS_LIMIT && PageWalk.IsCanonical(r.page * 4096) {
      ghost var middle := s.list;
      var released: Release;
      released, i := s.Free(r.page * 4096, count);
      assert IsHolder(middle, r.page, count, i);
      ReleaseRestores(old(s.list), middle, s.origin, r.page, count, i);
    }
  }

  // ----- ranges that end at 2^64 bytes or beyond -----

  lemma TripleLength(a: Block, b: Block, c: Block)
    ensures |Usage([a, b, c])| == a.pageCount + b.pageCount + c.pageCount
  {
    assert [a, b, c] == [a] + [b] + [c];
    UsageOne(a);
    UsageAppend([a], b);
    UsageAppend([a] + [b], c);
  }

  /** The part that the code takes to follow the range makes the list too long. */
  lemma FreedTooLong(list: List, origin: nat, i: nat, page: nat, count: nat)
    requires Proper(list, origin) && page < PAGES <= page + count
    requires i < |list| && !list[i].available && Holds(list, i, page, count)
    requires list[i].base != page || Wrapped(list[i].base, list[i].pageCount) != Wrapped(page, count)
    ensures |Usage(WithFreed(list, i, page, count))| > PAGES
  {
    var mid := Freed(list[i], page, count);
    TripleLength(mid[0], mid[1], mid[2]);
    WrappedEnd(list, origin, i);
    EndsBelow(list, origin, i);
    assert Wrapped(page, count) + PAGES <= page + count;
    assert list[i].pageCount > 0;
    ReplacedUsage(list, i, mid);
    UsageSplit(list, i);
  }

  lemma SoundFixesCount(list: List, origin: nat, a: nat, b: nat)
    requires Sound(list, origin, a) && a != b
    ensures !Sound(list, origin, b)
  {
  }

  lemma WrappedBeyond(page: nat, count: nat, n: nat)
    requires page < PAGES <= page + count && page + n < PAGES && Wrapped(page, n) == Wrapped(page, count)
    ensures n < count
  {
  }

  /** Where the end computed modulo 2^64 bytes is that of the block, the counter comes out wrong. */
  lemma ExactNotSound(list: List, origin: nat, i: nat, page: nat, count: nat, freed: List)
    requires Proper(list, origin) && page < PAGES <= page + count
    requires i < |list| && !list[i].available && Holds(list, i, page, count) && freed == WithFreed(list, i, page, count)
    requires list[i].base == page && Wrapped(list[i].base, list[i].pageCount) == Wrapped(page, count)
    ensures !Sound(Defragmented(freed), origin, FreeCount(list) + count)
  {
    var n := list[i].pageCount;
    EndsBelow(list, origin, i);
    assert Freed(list[i], page, count) == Freed(list[i], page, n);
    FreeUsed(list, origin, FreeCount(list), i, page, n);
    WrappedBeyond(page, count, n);
    SoundFixesCount(Defragmented(freed), origin, FreeCount(list) + n, FreeCount(list) + count);
  }

  lemma TooLongNotProper(list: List, origin: nat, freed: List)
    requires |Usage(freed)| > PAGES
    ensures !Proper(Defragmented(freed), origin)
  {
    DropEmptyKeeps(freed, origin);
    MergeKeeps(DropEmpty(freed), origin);
  }

  /** A release that takes effect although the range does not end below 2^64 bytes leaves a list
      that covers more than the address space. */
  lemma FreeBeyondEnd(list: List, origin: nat, i: nat, page: nat, count: nat)
    requires Proper(list, origin) && page < PAGES <= page + count
    requires i < |list| && !list[i].available && Holds(list, i, page, count)
    requires Sound(Defragmented(WithFreed(list, i, page, count)), origin, FreeCount(list) + count)
    ensures !Proper(Defragmented(WithFreed(list, i, page, count)), origin)
  {
    var freed := WithFreed(list, i, page, count);
    if list[i].base == page && Wrapped(list[i].base, list[i].pageCount) == Wrapped(page, count) {
      ExactNotSound(list, origin, i, page, count, freed);
    } else {
      FreedTooLong(list, origin, i, page, count);
      TooLongNotProper(list, origin, freed);
    }
  }

  /** A release that takes effect keeps the list as it should be exactly if the range ends below
      2^64 bytes. */
  lemma FreeKeepsListIff(list: List, origin: nat, i: nat, page: nat, count: nat)
    requires Proper(list, origin) && page < PAGES && 0 < count
    requires i < |list| && !list[i].available && Holds(list, i, page, count)
    requires Sound(Defragmented(WithFreed(list, i, page, count)), origin, FreeCount(list) + count)
    ensures Proper(Defragmented(WithFreed(list, i, page, count)), origin) <==> page + count < PAGES
  {
    if page + count < PAGES {
      FreeUsed(list, origin, FreeCount(list), i, page, count);
    } else {
      FreeBeyondEnd(list, origin, i, page, count);
    }
  }

  /** The list that the code makes of it when its last pages, which are available, are released. */
  function FourBlocks(origin: nat, n: nat, page: nat): List
    requires origin + n <= PAGES && origin <= page <= PAGES
  {
    [Block(false, origin, page - origin), Block(true, page, PAGES - page),
     Block(false, 0, origin + n), Block(true, origin + n, PAGES - origin - n)]
  }

  lemma FourBlocksSound(origin: nat, n: nat, page: nat)
    requires 0 < n && origin + n <= page < PAGES
    ensures Defragmented(FourBlocks(origin, n, page)) == FourBlocks(origin, n, page)
    ensures Sound(FourBlocks(origin, n, page), origin, PAGES - origin - n + (PAGES - page))
  {
    var list := FourBlocks(origin, n, page);
    DefragmentedAlready(list);
    assert Counted(list, 1) == 0;
    assert Counted(list, 2) == PAGES - page;
    assert Counted(list, 3) == PAGES - page;
  }

  /** Releasing the last pages of the kernel's address space, which are available, takes effect: it
      passes the integrity check and leaves blocks that overlap. */
  lemma FreeCanCorrupt(origin: nat, n: nat, page: nat)
    requires 0 < n && origin + n <= page < PAGES
    ensures var list, count := TwoBlocks(origin, n), PAGES - page;
      && Proper(list, origin) && Run(Usage(list), page - origin, count, false)
      && IsHolder(list, page, count, 0) && !list[0].available
      && var list' := Defragmented(WithFreed(list, 0, page, count));
         Sound(list', origin, FreeCount(list) + count) && !Proper(list', origin)
  {
    var list, count := TwoBlocks(origin, n), PAGES - page;
    TwoBlocksProper(origin, n);
    PairUsage(list[0], list[1]);
    assert WithFreed(list, 0, page, count) == FourBlocks(origin, n, page);
    FourBlocksSound(origin, n, page);
    FreeBeyondEnd(list, origin, 0, page, count);
  }

  lemma {:induction false} NothingToDrop(list: List)
    requires NoneZero(list)
    ensures DropEmpty(list) == list
  {
    if list != [] {
      NothingToDrop(list[..|list| - 1]);
    }
  }

  lemma {:induction false} NothingToMerge(list: List)
    requires Alternating(list)
    ensures Merge(list) == list
  {
    if list != [] {
      var n := |list| - 1;
      AlternatingPrefix(list, n);
      NothingToMerge(list[..n]);
      assert n > 0 ==> Last(list[..n]) == list[n - 1] && Differs(list, n);
      assert MergeOne(list[..n], list[n]) == list[..n] + [list[n]];
    }
  }

  /** A list with no empty blocks and no like neighbours is not changed. */
  lemma DefragmentedAlready(list: List)
    requires NoneZero(list) && Alternating(list)
    ensures Defragmented(list) == list
  {
    NothingToDrop(list);
    NothingToMerge(list);
  }
}
