/** The agreement between an address-space list and the page tables: no page that the list calls
    available is mapped. */
module Reservations {
  import opened AddressLists
  import opened AddressSpaces
  import opened AddressReleases
  import opened PageWalk
  import opened PageTree
  import opened Paging
  import opened PagingTranslation
  import PagingRoundTrip

  function Address(page: nat): nat {
    4096 * page
  }

  ghost predicate IsFree(list: List, origin: nat, page: nat) {
    origin <= page < origin + |Usage(list)| && !Usage(list)[page - origin]
  }

  /** A page that may be handed out: a canonical address outside slot 510 that is not mapped. */
  ghost predicate PageClear(s: State, page: nat) {
    && page < PAGES && IsCanonical(Address(page)) && Index(Address(page), 4) != RECURSIVE_ENTRY
    && Unmapped(s, PageAt(Address(page), 0))
  }

  ghost predicate Clear(list: List, origin: nat, s: State) {
    forall page: nat | IsFree(list, origin, page) :: PageClear(s, page)
  }

  lemma TakenIsFree(list: List, list': List, origin: nat, page: nat, count: nat, q: nat)
    requires PagesTaken(list, list', origin, page, count)
    ensures IsFree(list', origin, q) <==> IsFree(list, origin, q) && !(page <= q < page + count)
    ensures page <= q < page + count ==> IsFree(list, origin, q)
  {
  }

  lemma FreedIsFree(list: List, list': List, origin: nat, page: nat, count: nat, q: nat)
    requires PagesFreed(list, list', origin, page, count)
    ensures IsFree(list', origin, q) <==> IsFree(list, origin, q) || page <= q < page + count
    ensures page <= q < page + count ==> !IsFree(list, origin, q)
  {
  }

  /** Page i of a range has the path of that page. */
  lemma PageOfRange(page: nat, i: nat)
    ensures PageAddress(Address(page), i) == Address(page + i) == PageAddress(Address(page + i), 0)
    ensures PageAt(Address(page), i) == PageAt(Address(page + i), 0) == PathTo(Address(page + i), 0)
  {
    PageAtIs(Address(page), i);
  }

  /** The pages of a range that may be handed out are canonical, outside slot 510, and not mapped. */
  lemma ClearRange(s: State, page: nat, count: nat)
    requires forall q: nat | page <= q < page + count :: PageClear(s, q)
    ensures AllCanonical(Address(page), count) && AvoidsSelf(Address(page), count)
    ensures PagingRoundTrip.AllUnmapped(s, Address(page), count)
    ensures count > 0 ==> Address(page) + count * 4096 <= ADDRESS_LIMIT
  {
    forall i: nat | i < count
      ensures IsCanonical(PageAddress(Address(page), i)) && Index(PageAddress(Address(page), i), 4) != RECURSIVE_ENTRY
      ensures Unmapped(s, PageAt(Address(page), i))
    {
      PageOfRange(page, i);
      assert PageClear(s, page + i);
    }
    if count > 0 {
      assert PageClear(s, page + (count - 1));
    }
  }

  lemma OutsideRange(page: nat, count: nat, q: nat)
    requires AllCanonical(Address(page), count) && IsCanonical(Address(q)) && !(page <= q < page + count)
    ensures PageAt(Address(q), 0) !in PathsOf(Address(page), count)
  {
    NotInRange(Address(page), count, PageAddress(Address(q), 0));
  }

  /** A change of mappings in a range leaves the pages outside it as they are. */
  lemma StaysClear(s: State, s': State, page: nat, count: nat, q: nat)
    requires SameMapping(s.ram, s.tables, s'.ram, s'.tables, PathsOf(Address(page), count))
    requires AllCanonical(Address(page), count) && PageClear(s, q) && !(page <= q < page + count)
    ensures PageClear(s', q)
  {
    OutsideRange(page, count, q);
  }

  /** A page of an unmapped range is clear. */
  lemma UnmappedIsClear(s: State, s': State, page: nat, count: nat, free: bool, q: nat)
    requires RangeUnmapped(s, s', Address(page), count, free)
    requires AllCanonical(Address(page), count) && AvoidsSelf(Address(page), count) && page <= q < page + count <= PAGES
    ensures PageClear(s', q)
  {
    PageOfRange(page, q - page);
    assert IsCanonical(PageAddress(Address(page), q - page)) && Unmapped(s', PageAt(Address(page), q - page));
  }

  /** Released pages are clear once they are unmapped. */
  lemma ClearOnceUnmapped(list: List, list': List, origin: nat, s: State, s': State, page: nat, count: nat, free: bool)
    requires Clear(list, origin, s) && RangeUnmapped(s, s', Address(page), count, free)
    requires AllCanonical(Address(page), count) && AvoidsSelf(Address(page), count) && page + count <= PAGES
    requires PagesFreed(list, list', origin, page, count)
    ensures Clear(list', origin, s')
  {
    forall q: nat | IsFree(list', origin, q) ensures PageClear(s', q) {
      FreedIsFree(list, list', origin, page, count, q);
      if page <= q < page + count {
        UnmappedIsClear(s, s', page, count, free, q);
      } else {
        StaysClear(s, s', page, count, q);
      }
    }
  }
}
