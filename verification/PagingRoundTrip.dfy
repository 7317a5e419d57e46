/** Mapping a range that was not mapped and unmapping it again, keeping its pages, leaves no trace. */
module PagingRoundTrip {
  import opened Shifts
  import opened PageWalk
  import opened PageTree
  import opened Paging

  ghost predicate AllUnmapped(s: State, address: nat, n: nat) {
    forall i: nat | i < n :: Unmapped(s, PageAt(address, i))
  }

  lemma {:induction false} NothingFreed(s: State, address: nat, n: nat)
    ensures FreedByRange(s, address, n, false) == {}
  {
    if n > 0 {
      NothingFreed(s, address, n - 1);
    }
  }

  lemma MappingRestored(s: State, s': State, s'': State, address: nat, frame: nat, flags: Flags, n: nat)
    requires RangeMapped(s, s', address, frame, flags, n) && RangeUnmapped(s', s'', address, n, false)
    requires AllUnmapped(s, address, n)
    ensures SameMapping(s.ram, s.tables, s''.ram, s''.tables, {})
  {
    forall q: Path | |q| == 4 ensures MappedAt(s''.ram, s''.tables, q) == MappedAt(s.ram, s.tables, q) {
      if q in PathsOf(address, n) {
        PathsOfIs(address, n, q);
        var i: nat :| i < n && IsPage(q, address, i);
        assert Unmapped(s, PageAt(address, i)) && Unmapped(s'', PageAt(address, i));
      }
    }
  }

  /** Every translation, every table with its frame, and every page's bit are as before. */
  lemma RoundTrip(s: State, s': State, s'': State, root: nat, address: nat, frame: nat, flags: Flags, n: nat)
    requires Tree(s.ram, root, s.tables) && NoneEmpty(s.ram, s.tables)
    requires RangeMapped(s, s', address, frame, flags, n) && RangeUnmapped(s', s'', address, n, false)
    requires Tree(s''.ram, root, s''.tables) && NoneEmpty(s''.ram, s''.tables)
    requires AllUnmapped(s, address, n)
    ensures SameMapping(s.ram, s.tables, s''.ram, s''.tables, {})
    ensures s''.tables == s.tables && s''.pages == s.pages
  {
    MappingRestored(s, s', s'', address, frame, flags, n);
    SameMappingSameTables(s.ram, s.tables, s''.ram, s''.tables, root);
    assert forall p | p in s.tables :: s''.tables[p] == s.tables[p];
    NothingFreed(s', address, n);
  }

  /** Maps a range and unmaps it again. */
  method MapAndUnmap(m: PageTables, address: nat, physicalAddress: nat, count: nat, flags: Flags)
    returns (outcome: Outcome)
    requires m.Valid() && NoneEmpty(m.ram, m.tables)
    requires Aligned(address, physicalAddress, count) && address + count * 4096 <= ADDRESS_LIMIT
    requires AllCanonical(address, count) && AvoidsSelf(address, count) && AllUnmapped(m.Now(), address, count)
    modifies m`ram, m`tables, m.physical`available, m.physical`bits, m.physical.bitmaps
    ensures m.Valid() && !outcome.Failed?
    ensures outcome.Done? ==>
              && SameMapping(old(m.ram), old(m.tables), m.ram, m.tables, {})
              && m.tables == old(m.tables) && m.physical.bits[0] == old(m.physical.bits[0])
              && m.physical.available == old(m.physical.available)
  {
    ghost var n;
    ghost var last;
    outcome, n, last := m.MapPages(address, physicalAddress, count, flags);
    assert outcome != Failed;
    if outcome.Done? {
      ghost var middle := m.Now();
      outcome, n := m.UnmapPages(address, count, false);
      RoundTrip(old(m.Now()), middle, m.Now(), m.root, address, physicalAddress / 4096, flags, count);
      assert m.physical.available == CountClear(m.physical.bits[0]);
    }
  }
}
