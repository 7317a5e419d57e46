/** The virtual memory manager when it starts: the three managers agree. */
module Boot {
  import opened BuddyBits
  import opened Physical
  import opened PageWalk
  import opened PageTree
  import opened Paging
  import opened AddressLists
  import opened AddressSpaces
  import opened AddressReleases
  import opened Reservations
  import opened VirtualMemory

  /** The entry of the top-level table that serves a page. */
  lemma SlotOf(page: nat)
    ensures Index(Address(page), 4) == page / 0x800_0000 % 512
    ensures page < PAGES ==> Address(page) < ADDRESS_LIMIT
  {
    assert Address(page) / 0x80_0000_0000 == page / 0x800_0000;
  }

  /** A page may be handed out while it is not mapped. */
  ghost predicate Usable(page: nat) {
    page < PAGES && IsCanonical(Address(page)) && Index(Address(page), 4) != RECURSIVE_ENTRY
  }

  lemma LowPagesUsable(page: nat)
    requires page < AddressSpaces.NON_CANONICAL_START
    ensures Usable(page)
  {
    SlotOf(page);
  }

  lemma HighPagesUsable(page: nat)
    requires AddressSpaces.NON_CANONICAL_END <= page < PAGES && !(SELF_MAP <= page < SELF_MAP + SELF_MAP_LENGTH)
    ensures Usable(page)
  {
    SlotOf(page);
    var slot := page / 0x800_0000;
    assert 0x1ff_ff00 <= slot < 0x200_0000 && slot != 0x1ff_fffe;
    HighSlot(slot);
  }

  lemma HighSlot(slot: nat)
    requires 0x1ff_ff00 <= slot < 0x200_0000
    ensures slot % 512 == slot - 0x1ff_fe00
  {
  }

  /** No page that the first general list calls available is in slot 510 or not canonical. */
  lemma GeneralIsUsable(page: nat)
    requires IsFree(GENERAL, 0, page)
    ensures Usable(page)
  {
    GeneralProper();
    var i := BlockOf(GENERAL, 0, page);
    if i <= 3 {
      LowPagesUsable(page);
    } else {
      HighPagesUsable(page);
    }
  }

  /** Of the addresses from 0 on: the scratch memory, those from 1 MiB to the last canonical one in the
      lower half, and those in the upper half but for the windows and the kernel's. */
  predicate OpenAddress(a: nat) {
    || 0x8_0000 <= a < 0x9_0000
    || 0x10_0000 <= a < 0x8000_0000_0000
    || 0xffff_8000_0000_0000 <= a < 0xffff_ff00_0000_0000
    || 0xffff_ff80_0000_0000 <= a < 0xffff_ffff_8000_0000
  }

  lemma OpenBlock(i: nat, page: nat)
    requires i < |GENERAL| && GENERAL[i].base <= page < GENERAL[i].base + GENERAL[i].pageCount
    ensures OpenAddress(Address(page)) <==> GENERAL[i].available
  {
  }

  /** The pages that the first general list calls available. */
  lemma GeneralFreeIff(page: nat)
    ensures IsFree(GENERAL, 0, page) <==> OpenAddress(Address(page))
  {
    GeneralProper();
    LastEnds(GENERAL, 0);
    if page < |Usage(GENERAL)| {
      var i := BlockOf(GENERAL, 0, page);
      OpenBlock(i, page);
    }
  }

  /** The kernel's list calls available what is left from the given page on. */
  lemma KernelFreeIff(start: nat, page: nat)
    requires KERNEL_ORIGIN < start < PAGES
    ensures IsFree(TwoBlocks(KERNEL_ORIGIN, start - KERNEL_ORIGIN), KERNEL_ORIGIN, page) <==> start <= page < PAGES
  {
    var list := TwoBlocks(KERNEL_ORIGIN, start - KERNEL_ORIGIN);
    TwoBlocksProper(KERNEL_ORIGIN, start - KERNEL_ORIGIN);
    LastEnds(list, KERNEL_ORIGIN);
    if KERNEL_ORIGIN <= page < KERNEL_ORIGIN + |Usage(list)| {
      var i := BlockOf(list, KERNEL_ORIGIN, page);
    }
  }

  lemma KernelIsUsable(start: nat, page: nat)
    requires KERNEL_ORIGIN < start < PAGES
             && IsFree(TwoBlocks(KERNEL_ORIGIN, start - KERNEL_ORIGIN), KERNEL_ORIGIN, page)
    ensures Usable(page)
  {
    TwoBlocksProper(KERNEL_ORIGIN, start - KERNEL_ORIGIN);
    var i := BlockOf(TwoBlocks(KERNEL_ORIGIN, start - KERNEL_ORIGIN), KERNEL_ORIGIN, page);
    HighPagesUsable(page);
  }

  /** The lists end where the other begins, or at 2^64 bytes. */
  lemma ListsApart(start: nat)
    requires KERNEL_ORIGIN < start < PAGES
    ensures Apart(GENERAL, 0, TwoBlocks(KERNEL_ORIGIN, start - KERNEL_ORIGIN), KERNEL_ORIGIN)
  {
    GeneralProper();
    LastEnds(GENERAL, 0);
  }

  /** A top-level table alone maps nothing. */
  lemma NothingMapped(s: State, root: nat, q: Path)
    requires s.tables == map[[] := root] && |q| == 4
    ensures Unmapped(s, q)
  {
  }

  /** Sets the manager up with a top-level table in a page that it marks used, the self-referencing entry in it,
      and the two lists (lines 120-123 and 222-267). */
  method Start(physical: PhysicalMemory, root: nat, ram: Ram, start: nat)
    returns (general: AddressSpace, kernel: AddressSpace, m: PageTables)
    requires physical.Valid() && root < physical.total
    requires AllCovered(ram, physical.total) && Covers(ram, physical.total, root) && AllAbsent(ram[root])
    requires KERNEL_ORIGIN < start < PAGES
    modifies physical`available, physical`bits, physical.bitmaps
    ensures fresh(general) && fresh(kernel) && fresh(m) && m.physical == physical && m.root == root
    ensures general.list == GENERAL && kernel.list == TwoBlocks(KERNEL_ORIGIN, start - KERNEL_ORIGIN)
    ensures VirtualMemory.Consistent(general, kernel, m) && VirtualMemory.Consistent(kernel, general, m)
  {
    AddressOfPage(root, physical.total);
    MarkedPage(physical.bits, root, 1, true, root);
    physical.MarkPages(root * PAGE_SIZE, 1, true);
    assert Covers(ram, physical.total, root);
    m := new PageTables(physical, root, ram);
    general := new AddressSpace.General();
    kernel := new AddressSpace.Kernel(start);
    FirstListsClear(m.Now(), root, start);
    ListsApart(start);
  }

  lemma FirstListsClear(s: State, root: nat, start: nat)
    requires s.tables == map[[] := root] && KERNEL_ORIGIN < start < PAGES
    ensures Clear(GENERAL, 0, s) && Clear(TwoBlocks(KERNEL_ORIGIN, start - KERNEL_ORIGIN), KERNEL_ORIGIN, s)
  {
    forall page: nat | IsFree(GENERAL, 0, page) ensures PageClear(s, page) {
      GeneralIsUsable(page);
      NothingMapped(s, root, PageAt(Address(page), 0));
    }
    forall page: nat | IsFree(TwoBlocks(KERNEL_ORIGIN, start - KERNEL_ORIGIN), KERNEL_ORIGIN, page)
        ensures PageClear(s, page) {
      KernelIsUsable(start, page);
      NothingMapped(s, root, PageAt(Address(page), 0));
    }
  }
}
