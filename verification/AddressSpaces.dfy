/** An address-space list and the operations on it (src/boot/virtualmemmgmt.cpp, lines 283-482). */
module AddressSpaces {
  import opened Options
  import opened BuddyBits
  import opened AddressLists
  import PageWalk

  const KERNEL_ORIGIN: nat := 0xffff_ffff_8000_0000 / 4096
  const SCRATCH_BASE: nat := 0x8_0000 / 4096
  const SCRATCH_LENGTH: nat := 0x1_0000 / 4096
  const MIB_1: nat := 0x10_0000 / 4096
  const NON_CANONICAL_START: nat := PageWalk.NON_CANONICAL_START / 4096
  const NON_CANONICAL_END: nat := PageWalk.NON_CANONICAL_END / 4096
  const SELF_MAP: nat := PageWalk.PT_MASK / 4096
  const SELF_MAP_LENGTH: nat := 512 * PageWalk.GIB_1 / 4096

  /** What the manager keeps of a list between calls. */
  ghost predicate Proper(list: List, origin: nat) {
    && Canonical(list, origin) && list != [] && Last(list).available
    && origin + |Usage(list)| <= PAGES
  }

  /** Panicked stands for the kernel stopping. */
  datatype Reservation = Refused | Reserved(page: nat) | Panicked

  /** Done and Ignored both return true. */
  datatype Release = Failed | Done | Ignored | Panicked

  /** Block i is available, large enough, and the first of the smallest such blocks. */
  ghost predicate IsBestFit(list: List, count: nat, i: nat) {
    && i < |list| && list[i].available && list[i].pageCount >= count
    && forall j | 0 <= j < |list| && list[j].available && list[j].pageCount >= count ::
         list[i].pageCount < list[j].pageCount || (list[i].pageCount == list[j].pageCount && i <= j)
  }

  ghost predicate NoneFits(list: List, count: nat) {
    forall j | 0 <= j < |list| :: list[j].available ==> list[j].pageCount < count
  }

  /** The block's first pages taken out of it. */
  function Taken(b: Block, count: nat): List {
    if b.pageCount <= count then [b.(available := false)]
    else [Block(false, b.base, count), Block(true, b.base + count, b.pageCount - count)]
  }

  /** The list once `count` pages of block i are taken (lines 301-312). */
  function WithTaken(list: List, i: nat, count: nat): List
    requires i < |list|
  {
    list[..i] + Taken(list[i], count) + list[i + 1..]
  }

  /** The first page past the end, as the code computes it, modulo 2^64 bytes. */
  function Wrapped(page: nat, count: nat): nat {
    (page + count) % PAGES
  }

  /** Block i is where the code looks for the range (lines 376-378). */
  predicate Holds(list: List, i: nat, page: nat, count: nat)
    requires i < |list|
  {
    list[i].base <= page && Wrapped(list[i].base, list[i].pageCount) >= Wrapped(page, count)
  }

  /** i is the first block that holds the range, or the number of blocks if none does. */
  ghost predicate IsHolder(list: List, page: nat, count: nat, i: nat) {
    && i <= |list|
    && (forall j | 0 <= j < i :: !Holds(list, j, page, count))
    && (i < |list| ==> Holds(list, i, page, count))
  }

  /** The blocks that a used block becomes when a range in it is freed (lines 387-407). */
  function Freed(b: Block, page: nat, count: nat): List
    requires b.base <= page && Wrapped(b.base, b.pageCount) >= Wrapped(page, count)
  {
    if b.base == page && Wrapped(b.base, b.pageCount) == Wrapped(page, count) then [b.(available := true)]
    else [b.(pageCount := page - b.base), Block(true, page, count),
          Block(false, Wrapped(page, count), Wrapped(b.base, b.pageCount) - Wrapped(page, count))]
  }

  /** The list once the range is freed from block i. */
  function WithFreed(list: List, i: nat, page: nat, count: nat): List
    requires i < |list| && Holds(list, i, page, count)
  {
    list[..i] + Freed(list[i], page, count) + list[i + 1..]
  }

  /** The list once pages are taken from block i, step by step as in lines 301-312. */
  method TakeFrom(list: List, i: nat, count: nat) returns (r: List)
    requires i < |list| && list[i].pageCount >= count
    ensures r == WithTaken(list, i, count) && i < |r| && r[i].base == list[i].base
  {
    r := list[i := list[i].(available := false)];
    if r[i].pageCount != count {
      r := r[..i + 1] + [Block(true, r[i].base + count, r[i].pageCount - count)] + r[i + 1..];
      r := r[i := r[i].(pageCount := count)];
    }
  }

  lemma TakenBlock(b: Block, count: nat)
    requires b.available && b.pageCount >= count
    ensures Usage(Taken(b, count)) == Repeat(false, 0) + Repeat(true, count) + Repeat(false, b.pageCount - count)
    ensures Chained(Taken(b, count), b.base)
  {
    var mid := Taken(b, count);
    if |mid| == 1 {
      UsageOne(mid[0]);
      assert mid[..0] == [];
      assert BeginsAt(mid, b.base, 0);
    } else {
      PairUsage(mid[0], mid[1]);
    }
  }

  lemma TakenIsChained(list: List, origin: nat, i: nat, count: nat)
    requires Chained(list, origin) && i < |list| && list[i].available && list[i].pageCount >= count
    ensures Chained(WithTaken(list, i, count), origin)
  {
    TakenBlock(list[i], count);
    ReplacedChained(list, origin, i, Taken(list[i], count));
  }

  lemma TakenUsage(list: List, i: nat, count: nat)
    requires i < |list| && list[i].available && list[i].pageCount >= count
    ensures |Usage(list[..i])| + count <= |Usage(list)|
    ensures Usage(WithTaken(list, i, count)) == Filled(Usage(list), |Usage(list[..i])|, count, true)
  {
    TakenBlock(list[i], count);
    UsageInParts(list, i, Taken(list[i], count));
    FilledParts(Usage(list), Usage(WithTaken(list, i, count)), Usage(list[..i]), !list[i].available,
                Usage(Taken(list[i], count)), Usage(list[i + 1..]), 0, count, list[i].pageCount, true);
  }

  lemma PairUsage(a: Block, b: Block)
    requires b.base == a.base + a.pageCount
    ensures Usage([a, b]) == Repeat(!a.available, a.pageCount) + Repeat(!b.available, b.pageCount)
    ensures Chained([a, b], a.base)
  {
    UsageOne(a);
    assert [a, b] == [a] + [b];
    UsageAppend([a], b);
    assert [a][..0] == [];
    assert BeginsAt([a], a.base, 0);
    ChainedAppend([a], a.base, b);
  }

  lemma BestFitIsUnique(list: List, count: nat, i: nat)
    requires IsBestFit(list, count, i)
    ensures forall j | IsBestFit(list, count, j) :: j == i
    ensures !NoneFits(list, count)
  {
  }

  /** The end of the last block is free exactly if the last block is. */
  lemma LastPage(list: List)
    requires NoneZero(list) && list != []
    ensures Usage(list) != [] && Usage(list)[|Usage(list)| - 1] == !Last(list).available
  {
  }

  /** After pages are taken the list is as it should be, unless they were the whole last block. */
  lemma TakenIsProper(list: List, list': List, origin: nat, available: nat, i: nat, count: nat)
    requires Proper(list, origin) && i < |list| && list[i].available && list[i].pageCount >= count > 0
    requires available + count == FreeCount(list) && list' == Defragmented(WithTaken(list, i, count))
    ensures Sound(list', origin, available) <==> !(i == |list| - 1 && list[i].pageCount == count)
    ensures Proper(list', origin) <==> !(i == |list| - 1 && list[i].pageCount == count)
    ensures FreeCount(list') == available && PagesTaken(list, list', origin, list[i].base, count)
  {
    BlockRun(list, origin, i);
    TakenIsChained(list, origin, i, count);
    DefragmentedIsCanonical(WithTaken(list, i, count), origin);
    assert BeginsAt(list, origin, i);
    TakenUsage(list, i, count);
    TakenFlipped(list, list', origin, available, i, count);
  }

  lemma TakenFlipped(list: List, list': List, origin: nat, available: nat, i: nat, count: nat)
    requires Proper(list, origin) && Canonical(list', origin) && i < |list| && list[i].pageCount >= count > 0
    requires available + count == FreeCount(list) && PagesTaken(list, list', origin, list[i].base, count)
    ensures Sound(list', origin, available) <==> !(i == |list| - 1 && list[i].pageCount == count)
    ensures Proper(list', origin) <==> !(i == |list| - 1 && list[i].pageCount == count)
    ensures FreeCount(list') == available
  {
    CountFlipped(list, list', list[i].base - origin, count, true);
    NotEmpty(list);
    NotEmpty(list');
    SoundMeansLastAvailable(list', origin, available);
    LastTaken(list, origin, i, count, list');
  }

  /** The last block is still available unless its last page was taken. */
  lemma LastTaken(list: List, origin: nat, i: nat, count: nat, list': List)
    requires Proper(list, origin) && i < |list| && list[i].pageCount >= count > 0 && origin <= list[i].base
    requires list' != [] && NoneZero(list') && list[i].base - origin + count <= |Usage(list)|
    requires Usage(list') == Filled(Usage(list), list[i].base - origin, count, true)
    ensures Last(list').available <==> !(i == |list| - 1 && list[i].pageCount == count)
  {
    LastPage(list);
    LastPage(list');
    LastEnds(list, origin);
    if i < |list| - 1 {
      BlocksInOrder(list, origin, i, |list| - 1);
    }
  }

  /** Exactly the pages of a range went from free to used. */
  ghost predicate PagesTaken(list: List, list': List, origin: nat, page: nat, count: nat) {
    && origin <= page && Run(Usage(list), page - origin, count, false)
    && Usage(list') == Filled(Usage(list), page - origin, count, true)
  }

  /** The kernel's list before any request: n pages in use, the others available. */
  function TwoBlocks(origin: nat, n: nat): List
    requires origin + n <= PAGES
  {
    [Block(false, origin, n), Block(true, origin + n, PAGES - origin - n)]
  }

  lemma TwoBlocksProper(origin: nat, n: nat)
    requires 0 < n && origin + n < PAGES
    ensures Proper(TwoBlocks(origin, n), origin)
    ensures FreeCount(TwoBlocks(origin, n)) == PAGES - origin - n
  {
    PairUsage(TwoBlocks(origin, n)[0], TwoBlocks(origin, n)[1]);
    assert Counted(TwoBlocks(origin, n), 1) == 0;
  }

  /** Blocks that begin where the one before ends are chained. */
  lemma {:induction false} ChainedBySteps(list: List, origin: nat)
    requires list != [] ==> list[0].base == origin
    requires forall i | 0 < i < |list| :: list[i].base == list[i - 1].base + list[i - 1].pageCount
    ensures Chained(list, origin)
    ensures list != [] ==> Last(list).base + Last(list).pageCount == origin + |Usage(list)|
  {
    if list != [] {
      var n := |list| - 1;
      ChainedBySteps(list[..n], origin);
      assert n > 0 ==> Last(list[..n]) == list[n - 1];
      ChainedAppend(list[..n], origin, list[n]);
      assert list == list[..n] + [list[n]];
      UsageAppend(list[..n], list[n]);
    }
  }

  /** The general list before any request: in use are the first pages, those below 1 MiB after the
      scratch memory, the addresses that are not canonical and the windows onto the page tables
      (lines 232-267). */
  const GENERAL: List := [
    Block(false, 0, SCRATCH_BASE),
    Block(true, SCRATCH_BASE, SCRATCH_LENGTH),
    Block(false, SCRATCH_BASE + SCRATCH_LENGTH, MIB_1 - SCRATCH_BASE - SCRATCH_LENGTH),
    Block(true, MIB_1, NON_CANONICAL_START - MIB_1),
    Block(false, NON_CANONICAL_START, NON_CANONICAL_END - NON_CANONICAL_START),
    Block(true, NON_CANONICAL_END, SELF_MAP - NON_CANONICAL_END),
    Block(false, SELF_MAP, SELF_MAP_LENGTH),
    Block(true, SELF_MAP + SELF_MAP_LENGTH, KERNEL_ORIGIN - SELF_MAP - SELF_MAP_LENGTH)]

  lemma GeneralProper()
    ensures Proper(GENERAL, 0)
    ensures FreeCount(GENERAL) ==
              SCRATCH_LENGTH + (NON_CANONICAL_START - MIB_1) + (SELF_MAP - NON_CANONICAL_END)
                + (KERNEL_ORIGIN - SELF_MAP - SELF_MAP_LENGTH)
  {
    ChainedBySteps(GENERAL, 0);
    var a, b, c := GENERAL[1].pageCount, GENERAL[3].pageCount, GENERAL[5].pageCount;
    assert Counted(GENERAL, 1) == 0;
    assert Counted(GENERAL, 2) == a;
    assert Counted(GENERAL, 3) == a;
    assert Counted(GENERAL, 4) == a + b;
    assert Counted(GENERAL, 5) == a + b;
    assert Counted(GENERAL, 6) == a + b + c;
    assert Counted(GENERAL, 7) == a + b + c;
  }

  class AddressSpace {
    const origin: nat
    var list: List
    var available: nat

    /** The kernel's address space, in use up to a page (lines 222-231). */
    constructor Kernel(start: nat)
      requires KERNEL_ORIGIN < start < PAGES
      ensures Valid() && origin == KERNEL_ORIGIN && list == TwoBlocks(KERNEL_ORIGIN, start - KERNEL_ORIGIN)
    {
      TwoBlocksProper(KERNEL_ORIGIN, start - KERNEL_ORIGIN);
      origin := KERNEL_ORIGIN;
      list := [Block(false, KERNEL_ORIGIN, start - KERNEL_ORIGIN), Block(true, start, PAGES - start)];
      available := PAGES - start;
    }

    /** The general address space (lines 232-267). */
    constructor General()
      ensures Valid() && origin == 0 && list == GENERAL
    {
      GeneralProper();
      origin := 0;
      list := GENERAL;
      available := GENERAL[1].pageCount + GENERAL[3].pageCount + GENERAL[5].pageCount + GENERAL[7].pageCount;
    }

    ghost predicate Valid()
      reads this
    {
      Proper(list, origin) && available == FreeCount(list)
    }

    // ----- defragmentation -----

    /** Removes the blocks of no pages (lines 436-441). */
    method DropEmptyBlocks()
      modifies this`list
      ensures list == DropEmpty(old(list))
    {
      var i: nat := 0;
      ghost var k: nat := 0;
      while i < |list|
        invariant k <= |old(list)| && i <= |list|
        invariant list[..i] == DropEmpty(old(list)[..k]) && list[i..] == old(list)[k..]
        decreases |list| - i
      {
        DropStep(list, old(list), i, k);
        if list[i].pageCount == 0 {
          list := list[..i] + list[i + 1..];
        } else {
          i := i + 1;
        }
        k := k + 1;
      }
      assert old(list)[..k] == old(list) && list[..i] == list;
    }

    /** Merges neighbours of the same kind (lines 444-450). */
    method MergeBlocks()
      modifies this`list
      ensures list == Merge(old(list))
    {
      if |list| == 0 {
        return;
      }
      var i: nat := 0;
      ghost var k: nat := 0;
      assert old(list)[..1][..0] == [];
      while i < |list| - 1
        invariant k < |old(list)| && i < |list|
        invariant list[..i + 1] == Merge(old(list)[..k + 1]) && list[i + 1..] == old(list)[k + 1..]
        decreases |list| - i
      {
        TakeOneMore(old(list), k + 1);
        assert old(list)[..k + 2][..k + 1] == old(list)[..k + 1];
        MergeStep(list, old(list), i, k);
        if list[i].available == list[i + 1].available {
          list := list[..i] + [list[i].(pageCount := list[i].pageCount + list[i + 1].pageCount)] + list[i + 2..];
        } else {
          i := i + 1;
        }
        k := k + 1;
      }
      assert old(list)[..k + 1] == old(list) && list[..i + 1] == list;
    }

    /** The integrity check (lines 453-482). */
    method Check() returns (ok: bool)
      ensures ok <==> Sound(list, origin, available)
    {
      if |list| == 0 {
        return false;
      }
      var total := 0;
      for i := 0 to |list| - 1
        invariant total == Counted(list, i)
        invariant forall k | 0 <= k < i :: Follows(list, k)
      {
        if list[i].available {
          total := total + list[i].pageCount;
        }
        if list[i].pageCount == 0 || list[i].available == list[i + 1].available ||
           list[i + 1].base != (list[i].base + list[i].pageCount) % PAGES {
          assert !Follows(list, i);
          return false;
        }
      }
      total := total + Last(list).pageCount;
      ok := list[0].base == origin && Last(list).pageCount != 0 && total == available;
    }

    /** Defragments the list; false stands for the panic of a failed check. */
    method Defragment() returns (ok: bool)
      modifies this`list
      ensures list == Defragmented(old(list))
      ensures ok <==> Sound(list, origin, available)
    {
      DropEmptyBlocks();
      MergeBlocks();
      ok := Check();
    }

    // ----- requests -----

    /** The best fit (lines 290-300). */
    method BestFit(count: nat) returns (best: Option<nat>)
      ensures best.Some? ==> IsBestFit(list, count, best.value)
      ensures best.None? ==> NoneFits(list, count)
    {
      best := None;
      for i := 0 to |list|
        invariant best.Some? ==> best.value < i && IsBestFit(list[..i], count, best.value)
        invariant best.None? ==> NoneFits(list[..i], count)
      {
        if list[i].available && list[i].pageCount >= count
          && (best.None? || list[best.value].pageCount > list[i].pageCount) {
          best := Some(i);
        }
      }
      assert list[..|list|] == list;
    }

    /** Takes pages from block i and tidies up (lines 301-320). */
    method Take(i: nat, count: nat) returns (ok: bool)
      requires Valid() && i < |list| && list[i].available && list[i].pageCount >= count > 0
      modifies this`list, this`available
      ensures ok <==> !(i == |old(list)| - 1 && Last(old(list)).pageCount == count)
      ensures ok ==> Valid() && available == old(available) - count
      ensures ok ==> PagesTaken(old(list), list, origin, old(list)[i].base, count)
    {
      CountFits(list, |list|, i);
      list := TakeFrom(list, i, count);
      available := available - count;
      ok := Defragment();
      TakenIsProper(old(list), list, origin, available, i, count);
    }

    /** Reserves consecutive pages (lines 283-320 and 348-355); `contiguous` is the VirtualContiguous flag. */
    method RequestPages(count: nat, contiguous: bool) returns (r: Reservation, ghost best: nat)
      requires Valid()
      modifies this`list, this`available
      ensures r.Refused? <==> count == 0 || count > old(available)
      ensures r.Refused? ==> list == old(list) && available == old(available)
      ensures r.Panicked? <==>
                && 0 < count <= old(available)
                && (!contiguous || NoneFits(old(list), count)
                    || (IsBestFit(old(list), count, |old(list)| - 1) && Last(old(list)).pageCount == count))
      ensures r.Reserved? ==>
                && Valid() && available == old(available) - count
                && IsBestFit(old(list), count, best) && r.page == old(list)[best].base
                && PagesTaken(old(list), list, origin, r.page, count)
    {
      best := 0;
      if count == 0 || count > available {
        return Refused, 0;
      }
      if !contiguous {
        return Reservation.Panicked, 0;
      }
      var found := BestFit(count);
      if found.None? {
        return Reservation.Panicked, 0;
      }
      best := found.value;
      BestFitIsUnique(list, count, found.value);
      var page := list[found.value].base;
      var ok := Take(found.value, count);
      r := if ok then Reserved(page) else Reservation.Panicked;
    }

    // ----- releases -----

    /** The first block that holds a range (lines 374-378 and 424). */
    method FindHolder(page: nat, count: nat) returns (i: nat)
      ensures IsHolder(list, page, count, i)
    {
      i := 0;
      while i < |list| && !Holds(list, i, page, count)
        invariant i <= |list| && forall j | 0 <= j < i :: !Holds(list, j, page, count)
      {
        i := i + 1;
      }
    }

    /** Releases consecutive pages (lines 365-427), whatever the arguments. */
    method Free(address: nat, count: nat) returns (r: Release, ghost i: nat)
      requires address < PageWalk.ADDRESS_LIMIT
      modifies this`list, this`available
      ensures r.Failed? <==> count == 0 || address % 4096 != 0 || !PageWalk.IsCanonical(address)
      ensures r.Failed? || r.Ignored? ==> list == old(list) && available == old(available)
      ensures !r.Failed? ==> IsHolder(old(list), address / 4096, count, i)
      ensures !r.Failed? ==> (r.Ignored? <==> i == |old(list)|)
      ensures r.Done? || r.Panicked? ==>
                && (r.Done? ==> !old(list)[i].available)
                && (!old(list)[i].available ==>
                      && list == Defragmented(WithFreed(old(list), i, address / 4096, count))
                      && available == old(available) + count
                      && (r.Done? <==> Sound(list, origin, available)))
    {
      i := 0;
      if count == 0 || address % 4096 != 0 || !PageWalk.IsCanonical(address) {
        return Failed, 0;
      }
      var page := address / 4096;
      var k := FindHolder(page, count);
      i := k;
      if k == |list| {
        return Ignored, k;
      }
      if list[k].available {
        return Release.Panicked, k;
      }
      var b := list[k];
      if b.base == page && Wrapped(b.base, b.pageCount) == Wrapped(page, count) {
        list := list[..k] + [b.(available := true)] + list[k + 1..];
      } else {
        var end := Wrapped(page, count);
        list := list[..k + 1] + [Block(false, end, Wrapped(b.base, b.pageCount) - end)] + list[k + 1..];
        list := list[..k + 1] + [Block(true, page, count)] + list[k + 1..];
        list := list[k := b.(pageCount := page - b.base)];
        assert list == WithFreed(old(list), k, page, count);
      }
      available := available + count;
      var ok := Defragment();
      r := if ok then Done else Release.Panicked;
    }
  }

  lemma DropStep(now: List, was: List, i: nat, k: nat)
    requires i < |now| && k < |was|
    requires now[..i] == DropEmpty(was[..k]) && now[i..] == was[k..]
    ensures now[i] == was[k] && now[i + 1..] == was[k + 1..]
    ensures DropEmpty(was[..k + 1]) == if now[i].pageCount == 0 then now[..i] else now[..i + 1]
  {
    NextOf(now, was, i, k);
    assert was[..k + 1][..k] == was[..k];
    TakeOneMore(now, i);
  }

  /** What two lists that agree from i + 1 and k + 1 on have next. */
  lemma NextOf(now: List, was: List, i: nat, k: nat)
    requires i < |now| && k < |was| && now[i..] == was[k..]
    ensures now[i] == was[k] && now[i + 1..] == was[k + 1..]
  {
    assert now[i..][0] == now[i];
    assert now[i..][1..] == now[i + 1..] && was[k..][1..] == was[k + 1..];
  }

  lemma MergeStep(now: List, was: List, i: nat, k: nat)
    requires i + 1 < |now| && k + 1 < |was|
    requires now[..i + 1] == Merge(was[..k + 1]) && now[i + 1..] == was[k + 1..]
    ensures now[i] == Last(Merge(was[..k + 1])) && now[i + 1] == was[k + 1] && now[i + 2..] == was[k + 2..]
    ensures Merge(was[..k + 2]) ==
      if now[i].available == now[i + 1].available
      then now[..i] + [now[i].(pageCount := now[i].pageCount + now[i + 1].pageCount)]
      else now[..i + 2]
  {
    NextOf(now, was, i + 1, k + 1);
    MergeOneMore(was, k + 1);
    MergeInPlace(now, Merge(was[..k + 1]), i);
  }

  lemma MergeInPlace(now: List, merged: List, i: nat)
    requires i + 1 < |now| && now[..i + 1] == merged
    ensures now[i] == Last(merged)
    ensures MergeOne(merged, now[i + 1]) ==
      if now[i].available == now[i + 1].available
      then now[..i] + [now[i].(pageCount := now[i].pageCount + now[i + 1].pageCount)]
      else now[..i + 2]
  {
    assert merged[..i] == now[..i];
    TakeOneMore(now, i + 1);
  }

  lemma MergeOneMore(was: List, k: nat)
    requires k < |was|
    ensures Merge(was[..k + 1]) == MergeOne(Merge(was[..k]), was[k])
  {
    assert was[..k + 1][..k] == was[..k];
  }
}
