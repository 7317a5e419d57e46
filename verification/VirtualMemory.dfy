/** The virtual memory manager as a whole: two address-space lists, the page tables and physical
    memory (src/boot/virtualmemmgmt.cpp, lines 283-427). */
module VirtualMemory {
  import opened BuddyBits
  import opened PageWalk
  import opened PageTree
  import opened Paging
  import opened PagingBudget
  import opened AddressLists
  import opened AddressSpaces
  import opened AddressReleases
  import opened Allocation
  import opened AllocationRuns
  import opened Reservations
  import PagingRoundTrip

  /** What a request asks for, besides a number of pages. */
  datatype Wanted = Wanted(virtualContiguous: bool, allocatePhysical: bool, physicalContiguous: bool, page: Flags)

  /** The two lists cover different pages. */
  ghost predicate Apart(a: List, aOrigin: nat, b: List, bOrigin: nat) {
    aOrigin + |Usage(a)| <= bOrigin || bOrigin + |Usage(b)| <= aOrigin
  }

  /** No page of a range may be handed out. */
  ghost predicate NoneFreeIn(list: List, origin: nat, page: nat, count: nat) {
    forall q: nat | page <= q < page + count :: !IsFree(list, origin, q)
  }

  /** Taking pages from a list leaves a list that agrees with the page tables. */
  lemma AgreeOnceTaken(list: List, list': List, origin: nat, s: State, page: nat, count: nat)
    requires PagesTaken(list, list', origin, page, count) && Clear(list, origin, s)
    ensures Clear(list', origin, s) && NoneFreeIn(list', origin, page, count)
  {
    forall q: nat ensures IsFree(list', origin, q) ==> PageClear(s, q) && !(page <= q < page + count) {
      TakenIsFree(list, list', origin, page, count, q);
    }
  }

  /** The pages of one list are not in the other. */
  lemma NoneFreeInOther(list: List, origin: nat, other: List, otherOrigin: nat, page: nat, count: nat)
    requires Apart(list, origin, other, otherOrigin) && origin <= page && page + count <= origin + |Usage(list)|
    ensures NoneFreeIn(other, otherOrigin, page, count)
  {
  }

  lemma TakenFacts(list: List, list': List, origin: nat, other: List, otherOrigin: nat, s: State, page: nat, count: nat)
    requires PagesTaken(list, list', origin, page, count) && Clear(list, origin, s)
             && Apart(list, origin, other, otherOrigin)
    ensures Clear(list', origin, s) && Apart(list', origin, other, otherOrigin)
    ensures NoneFreeIn(list', origin, page, count) && NoneFreeIn(other, otherOrigin, page, count)
    ensures count > 0 ==> Mappable(page, count)
    ensures PagingRoundTrip.AllUnmapped(s, Address(page), count)
  {
    TakenAreClear(list, list', origin, s, page, count);
    AgreeOnceTaken(list, list', origin, s, page, count);
    NoneFreeInOther(list', origin, other, otherOrigin, page, count);
  }

  /** A change of mappings in a range that may not be handed out leaves a list that agrees. */
  lemma AgreeElsewhere(list: List, origin: nat, s: State, s': State, page: nat, count: nat)
    requires Clear(list, origin, s) && NoneFreeIn(list, origin, page, count) && AllCanonical(Address(page), count)
    requires SameMapping(s.ram, s.tables, s'.ram, s'.tables, PathsOf(Address(page), count))
    ensures Clear(list, origin, s')
  {
    forall q: nat | IsFree(list, origin, q) ensures PageClear(s', q) {
      StaysClear(s, s', page, count, q);
    }
  }

  /** A range of canonical addresses outside slot 510. */
  ghost predicate Mappable(page: nat, count: nat) {
    MayBeMapped(Address(page), count)
  }

  lemma TakenAreClear(list: List, list': List, origin: nat, s: State, page: nat, count: nat)
    requires PagesTaken(list, list', origin, page, count) && Clear(list, origin, s)
    ensures count > 0 ==> Mappable(page, count)
    ensures PagingRoundTrip.AllUnmapped(s, Address(page), count)
  {
    forall q: nat | page <= q < page + count ensures PageClear(s, q) {
      TakenIsFree(list, list', origin, page, count, q);
    }
    ClearRange(s, page, count);
  }

  /** The range of pages, mapped to no page before, has memory of its own if that was asked for. */
  ghost predicate Backed(s: State, s': State, page: nat, frames: seq<nat>, wanted: Wanted, count: nat) {
    if wanted.allocatePhysical
    then |frames| == count && FreshlyMapped(s, s', Address(page), frames, wanted.page)
    else s' == s
  }

  /** What is asked of memory for a range of pages. */
  function MemoryFor(page: nat, count: nat, wanted: Wanted): Request {
    Request(Address(page), count, wanted.page, wanted.physicalContiguous)
  }

  /** When backing a range panics: as its turns go. With PhysicalContiguous that is a matter of numbers
      before the call; without, where memory is ample, of the digits of `count`, and where it is not,
      only for want of memory if no neighbouring digits are ones. */
  ghost predicate PanicsRightly(s: State, bits: Bits, page: nat, count: nat, wanted: Wanted,
                                turns: seq<Turn>, panicked: bool) {
    var q := MemoryFor(page, count, wanted);
    if wanted.allocatePhysical then
      && IsRun(turns, q) && Ends(turns, q, !panicked) && turns[0].s == s && turns[0].bits == bits
      && (q.contiguous ==> (panicked <==> OutOfMemory(s.pages, s.tables, q.address, count)))
      && (!q.contiguous && AllAmple(turns, q) ==> (panicked <==> Adjacent(count)))
      && (!q.contiguous && !Adjacent(count) ==> !Overshoots(LastTurn(turns), q))
    else !panicked
  }

  /** A load of the leaf entry of each page reads its frame and the permissions asked for. */
  ghost predicate AllLoadAs(ram: Ram, root: nat, page: nat, frames: seq<nat>, count: nat, flags: Flags) {
    && |frames| == count
    && forall i: nat | i < count :: LoadsAs(ram, root, PageAddress(Address(page), i), frames[i], flags)
  }

  /** With PhysicalContiguous the frames are consecutive, the first fit. */
  ghost predicate InOnePiece(pages: seq<bool>, frames: seq<nat>, count: nat, wanted: Wanted) {
    wanted.allocatePhysical && wanted.physicalContiguous ==>
      exists frame :: IsFirstFit(pages, count, frame) && frames == Consecutive(frame, count)
  }

  lemma FreshPanicsRightly(s: State, bits: Bits, page: nat, count: nat, wanted: Wanted, turns: seq<Turn>, ok: bool)
    requires count > 0 && wanted.allocatePhysical
    requires IsRun(turns, MemoryFor(page, count, wanted)) && Ends(turns, MemoryFor(page, count, wanted), ok)
    requires turns[0].s == s && turns[0].bits == bits
    ensures PanicsRightly(s, bits, page, count, wanted, turns, !ok)
    ensures ok ==> InOnePiece(s.pages, LastTurn(turns).frames, count, wanted)
  {
    var q := MemoryFor(page, count, wanted);
    if q.contiguous {
      ContiguousIff(turns, q, ok);
    }
    DigitsDecide(turns, q, ok);
  }

  /** Gives a range memory of its own if that was asked for. */
  method Back(m: PageTables, page: nat, count: nat, wanted: Wanted)
    returns (ok: bool, ghost frames: seq<nat>, ghost turns: seq<Turn>)
    requires m.Valid() && NoneEmpty(m.ram, m.tables) && count > 0
    requires Mappable(page, count)
    modifies m`ram, m`tables, m.physical`available, m.physical`bits, m.physical.bitmaps
    ensures m.Valid() && PanicsRightly(old(m.Now()), old(m.physical.bits), page, count, wanted, turns, !ok)
    ensures ok ==> InOnePiece(old(m.physical.bits[0]), frames, count, wanted)
    ensures ok && wanted.allocatePhysical ==>
              |frames| == count &&
              forall i: nat | i < count && Unmapped(old(m.Now()), PageAt(Address(page), i)) ::
                LoadsAs(m.ram, m.root, PageAddress(Address(page), i), frames[i], wanted.page)
    ensures ok ==>
              && NoneEmpty(m.ram, m.tables)
              && Backed(old(m.Now()), m.Now(), page, frames, wanted, count)
              && SameMapping(old(m.ram), old(m.tables), m.ram, m.tables, PathsOf(Address(page), count))
  {
    ok, frames, turns := true, [], [];
    if wanted.allocatePhysical {
      ok, turns := MapFresh(m, MemoryFor(page, count, wanted));
      frames := LastTurn(turns).frames;
      FreshPanicsRightly(old(m.Now()), old(m.physical.bits), page, count, wanted, turns, ok);
    }
  }

  method UnmapRange(m: PageTables, page: nat, count: nat, free: bool)
    requires m.Valid() && NoneEmpty(m.ram, m.tables) && count > 0 && Mappable(page, count)
    requires free ==> forall i: nat | i < count :: FreesNoTable(m.Now(), PageAt(Address(page), i))
    modifies m`ram, m`tables, m.physical`available, m.physical`bits, m.physical.bitmaps
    ensures m.Valid() && NoneEmpty(m.ram, m.tables)
    ensures RangeUnmapped(old(m.Now()), m.Now(), Address(page), count, free)
  {
    assert Aligned(Address(page), 0, count);
    var outcome, n := m.UnmapPages(Address(page), count, free);
    StoppedAtEnd(Address(page), count, n, outcome);
  }

  lemma StoppedAtEnd(address: nat, count: nat, n: nat, outcome: Outcome)
    requires Stopped(address, count, n, outcome) && AllCanonical(address, count) && !outcome.Panicked?
    ensures n == count
  {
  }

  lemma AgreeOnceUnmapped(list: List, list': List, origin: nat, other: List, otherOrigin: nat, s: State, s': State,
                          page: nat, count: nat, free: bool)
    requires Clear(list, origin, s) && Clear(other, otherOrigin, s) && Apart(list, origin, other, otherOrigin)
    requires RangeUnmapped(s, s', Address(page), count, free) && PagesFreed(list, list', origin, page, count)
    requires Mappable(page, count) && page + count < PAGES
    ensures Clear(list', origin, s') && Clear(other, otherOrigin, s') && Apart(list', origin, other, otherOrigin)
  {
    ClearOnceUnmapped(list, list', origin, s, s', page, count, free);
    NoneFreeInOther(list, origin, other, otherOrigin, page, count);
    AgreeElsewhere(other, otherOrigin, s, s', page, count);
  }

  /** The list cannot serve the request: no block is large enough, or the best fit is all of the last. */
  ghost predicate OutOfAddresses(list: List, count: nat, contiguous: bool)
    requires list != []
  {
    !contiguous || NoneFits(list, count) || (IsBestFit(list, count, |list| - 1) && Last(list).pageCount == count)
  }

  /** The request is served from the block that begins at a page. */
  ghost predicate ServedAt(list: List, count: nat, page: nat) {
    exists i: nat :: IsBestFit(list, count, i) && list[i].base == page
  }

  lemma ServedOnce(list: List, count: nat, best: nat, page: nat)
    requires IsBestFit(list, count, best) && ServedAt(list, count, page)
    ensures page == list[best].base
  {
    var i: nat :| IsBestFit(list, count, i) && list[i].base == page;
    BestFitIsUnique(list, count, i);
  }

  /** Reserves pages in a list that agrees with the page tables, and so does another list. */
  method Reserve(space: AddressSpace, ghost other: List, ghost otherOrigin: nat, ghost s: State,
                 count: nat, contiguous: bool)
    returns (r: Reservation, ghost best: nat)
    requires space.Valid() && Clear(space.list, space.origin, s) && Apart(space.list, space.origin, other, otherOrigin)
    modifies space
    ensures r.Refused? <==> count == 0 || count > old(space.available)
    ensures r.Refused? ==> space.list == old(space.list) && space.available == old(space.available)
    ensures r.Panicked? <==> 0 < count <= old(space.available) && OutOfAddresses(old(space.list), count, contiguous)
    ensures r.Reserved? ==> IsBestFit(old(space.list), count, best) && r.page == old(space.list)[best].base
    ensures r.Reserved? ==>
              && count > 0 && space.Valid() && space.available == old(space.available) - count
              && PagesTaken(old(space.list), space.list, space.origin, r.page, count)
              && Clear(space.list, space.origin, s) && Apart(space.list, space.origin, other, otherOrigin)
              && NoneFreeIn(space.list, space.origin, r.page, count) && NoneFreeIn(other, otherOrigin, r.page, count)
              && Mappable(r.page, count) && PagingRoundTrip.AllUnmapped(s, Address(r.page), count)
  {
    r, best := space.RequestPages(count, contiguous);
    if r.Reserved? {
      TakenFacts(old(space.list), space.list, space.origin, other, otherOrigin, s, r.page, count);
    }
  }

  /** Releases pages whose addresses are canonical. */
  method ReleasePages(space: AddressSpace, page: nat, count: nat) returns (r: Release)
    requires space.Valid() && page + count < PAGES && Mappable(page, count)
    modifies space
    ensures r.Done? <==> count > 0 && InRange(old(space.list), space.origin, page, count, true)
    ensures r.Done? ==>
              && space.Valid() && PagesFreed(old(space.list), space.list, space.origin, page, count)
              && space.available == old(space.available) + count
    ensures r.Panicked? <==>
              count > 0 && InRange(old(space.list), space.origin, page, count, false) &&
              !FreeToTheEnd(old(space.list), space.origin, page)
    ensures r.Failed? || r.Ignored? ==>
              space.Valid() && space.list == old(space.list) && space.available == old(space.available)
  {
    assert count > 0 ==> IsCanonical(PageAddress(Address(page), 0));
    r := FreeExactly(space, Address(page), count);
  }

  /** The page tables, one address-space list and another are as they should be, the lists cover
      different pages, and no page that they call available is mapped. */
  ghost predicate Consistent(space: AddressSpace, other: AddressSpace, m: PageTables)
    reads space, other, m, m.physical, m.physical.bitmaps
  {
    && space != other && Apart(space.list, space.origin, other.list, other.origin)
    && m.Valid() && NoneEmpty(m.ram, m.tables)
    && space.Valid() && Clear(space.list, space.origin, m.Now())
    && other.Valid() && Clear(other.list, other.origin, m.Now())
  }

  /** Requests pages from one of the lists, and with AllocatePhysical gives them memory of their
      own (lines 283-357). */
  method RequestPages(space: AddressSpace, other: AddressSpace, m: PageTables, count: nat, wanted: Wanted)
    returns (r: Reservation, ghost frames: seq<nat>, ghost turns: seq<Turn>)
    requires Consistent(space, other, m)
    modifies space, m`ram, m`tables, m.physical`available, m.physical`bits, m.physical.bitmaps
    ensures r.Refused? <==> count == 0 || count > old(space.available)
    ensures r.Refused? ==> Consistent(space, other, m) && space.list == old(space.list) && m.Now() == old(m.Now())
    ensures r.Panicked? ==> 0 < count <= old(space.available)
    ensures 0 < count <= old(space.available) && OutOfAddresses(old(space.list), count, wanted.virtualContiguous) ==>
              r.Panicked?
    ensures 0 < count <= old(space.available) && !OutOfAddresses(old(space.list), count, wanted.virtualContiguous) ==>
              forall page | ServedAt(old(space.list), count, page) ::
                PanicsRightly(old(m.Now()), old(m.physical.bits), page, count, wanted, turns, r.Panicked?)
    ensures r.Reserved? ==>
              && Consistent(space, other, m) && space.available == old(space.available) - count
              && ServedAt(old(space.list), count, r.page)
              && PagesTaken(old(space.list), space.list, space.origin, r.page, count)
              && Backed(old(m.Now()), m.Now(), r.page, frames, wanted, count)
              && InOnePiece(old(m.physical.bits[0]), frames, count, wanted)
              && (wanted.allocatePhysical ==> AllLoadAs(m.ram, m.root, r.page, frames, count, wanted.page))
  {
    frames, turns := [], [];
    ghost var best;
    r, best := Reserve(space, other.list, other.origin, m.Now(), count, wanted.virtualContiguous);
    if r.Reserved? {
      ghost var s := m.Now();
      var ok;
      ok, frames, turns := Back(m, r.page, count, wanted);
      forall page | ServedAt(old(space.list), count, page) ensures page == r.page {
        ServedOnce(old(space.list), count, best, page);
      }
      if !ok {
        return Reservation.Panicked, frames, turns;
      }
      AgreeElsewhere(space.list, space.origin, s, m.Now(), r.page, count);
      AgreeElsewhere(other.list, other.origin, s, m.Now(), r.page, count);
    }
  }

  /** Releases pages of one of the lists and unmaps them; with AllocatePhysical (`free`) the pages
      of memory they were mapped to are freed (lines 365-427). */
  method FreePages(space: AddressSpace, other: AddressSpace, m: PageTables, page: nat, count: nat, free: bool)
    returns (r: Release)
    requires Consistent(space, other, m)
    requires page + count < PAGES && Mappable(page, count)
    requires free ==> forall i: nat | i < count :: FreesNoTable(m.Now(), PageAt(Address(page), i))
    modifies space, m`ram, m`tables, m.physical`available, m.physical`bits, m.physical.bitmaps
    ensures r.Done? <==> count > 0 && InRange(old(space.list), space.origin, page, count, true)
    ensures r.Done? ==>
              && Consistent(space, other, m) && PagesFreed(old(space.list), space.list, space.origin, page, count)
              && space.available == old(space.available) + count
              && RangeUnmapped(old(m.Now()), m.Now(), Address(page), count, free)
    ensures r.Panicked? <==>
              count > 0 && InRange(old(space.list), space.origin, page, count, false) &&
              !FreeToTheEnd(old(space.list), space.origin, page)
    ensures r.Failed? || r.Ignored? ==>
              Consistent(space, other, m) && space.list == old(space.list) && m.Now() == old(m.Now())
  {
    ghost var s, list := m.Now(), space.list;
    r := ReleasePages(space, page, count);
    if r.Done? {
      UnmapRange(m, page, count, free);
      AgreeOnceUnmapped(list, space.list, space.origin, other.list, other.origin, s, m.Now(), page, count, free);
    }
  }

  /** Maps reserved pages to consecutive frames, as drivers do for device memory. */
  method MapReserved(space: AddressSpace, other: AddressSpace, m: PageTables, page: nat, physicalAddress: nat,
                     count: nat, flags: Flags)
    returns (ok: bool)
    requires Consistent(space, other, m) && Aligned(Address(page), physicalAddress, count) && Mappable(page, count)
    requires space.origin <= page && Run(Usage(space.list), page - space.origin, count, true)
    modifies m`ram, m`tables, m.physical`available, m.physical`bits, m.physical.bitmaps
    ensures m.Valid()
    ensures ok <==> |Missing(old(m.tables), Address(page), count)| <= FreeAbove(old(m.physical.bits[0]))
    ensures ok ==>
              && Consistent(space, other, m)
              && RangeMapped(old(m.Now()), m.Now(), Address(page), physicalAddress / 4096, flags, count)
    ensures ok ==>
              forall i: nat | i < count && Unmapped(old(m.Now()), PageAt(Address(page), i)) ::
                LoadsAs(m.ram, m.root, PageAddress(Address(page), i), physicalAddress / 4096 + i, flags)
  {
    ghost var s := m.Now();
    var outcome, n, last := m.MapPages(Address(page), physicalAddress, count, flags);
    PanicsIffShort(s, last, m.Now(), m.root, Address(page), physicalAddress / 4096, flags, count, n, outcome, count);
    ok := outcome.Done?;
    if !outcome.Panicked? {
      StoppedAtEnd(Address(page), count, n, outcome);
      NoneFreeInOther(space.list, space.origin, other.list, other.origin, page, count);
      AgreeElsewhere(space.list, space.origin, s, m.Now(), page, count);
      AgreeElsewhere(other.list, other.origin, s, m.Now(), page, count);
    }
  }

  // ----- allocating and freeing -----

  /** What freeing freshly allocated pages needs. */
  lemma FreshMayBeFreed(list: List, list': List, origin: nat, s: State, s': State, page: nat, frames: seq<nat>,
                        flags: Flags, count: nat)
    requires Proper(list', origin) && count > 0 && PagesTaken(list, list', origin, page, count)
    requires Clear(list, origin, s) && AllUsed(s.tables, s.pages)
    requires |frames| == count && FreshlyMapped(s, s', Address(page), frames, flags)
    ensures page + count < PAGES && Mappable(page, count) && PagingRoundTrip.AllUnmapped(s, Address(page), count)
    ensures Run(Usage(list'), page - origin, count, true)
    ensures forall i: nat | i < count :: FreesNoTable(s', PageAt(Address(page), i))
  {
    FilledBack(Usage(list), page - origin, count, true);
    UsedEndsBelow(list', origin, page, count);
    TakenAreClear(list, list', origin, s, page, count);
    FreshFreesNoTable(s, s', Address(page), frames, flags);
  }

  /** Allocates pages with memory of their own and frees them again: the list, the translations, the
      tables and the pages in use are all as before. */
  method AllocateAndFree(space: AddressSpace, other: AddressSpace, m: PageTables, count: nat, wanted: Wanted)
    returns (r: Reservation, released: Release)
    requires Consistent(space, other, m) && wanted.allocatePhysical
    modifies space, m`ram, m`tables, m.physical`available, m.physical`bits, m.physical.bitmaps
    ensures r.Reserved? ==>
              && released.Done? && Consistent(space, other, m)
              && space.list == old(space.list) && space.available == old(space.available)
              && SameMapping(old(m.ram), old(m.tables), m.ram, m.tables, {})
              && m.tables == old(m.tables) && m.physical.bits[0] == old(m.physical.bits[0])
  {
    ghost var frames, turns;
    ghost var list, s := space.list, m.Now();
    r, frames, turns := RequestPages(space, other, m, count, wanted);
    released := Ignored;
    if r.Reserved? {
      ghost var list', s' := space.list, m.Now();
      FreshMayBeFreed(list, list', space.origin, s, s', r.page, frames, wanted.page, count);
      released := FreePages(space, other, m, r.page, count, true);
      ListRestored(list, list', space.list, space.origin, r.page, count);
      FreshRoundTrip(s, s', m.Now(), m.root, Address(r.page), frames, wanted.page);
    }
  }
}
