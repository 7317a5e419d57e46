/** All heap regions: allocation from the first with enough free bytes, release, and the integrity
    check after each (src/boot/heapmemmgmt.cpp, lines 38-162). */
module HeapList {
  import opened Options
  import opened HeapBlocks
  import opened Heap

  /** Null stands for no region with enough free bytes. */
  datatype Allocation = Allocated(address: nat) | Null | Faulted | Panicked

  function Align(count: nat): (r: nat)
    ensures r % 8 == 0 && count <= r < count + 8
  {
    if count % MIN_BLOCK > 0 then count + (MIN_BLOCK - count % MIN_BLOCK) else count
  }

  /** What the integrity check will say of a region once block k is taken: no block in use, the new
      one included, may be larger than the bytes that are then free. */
  predicate Passes(blocks: Blocks, remaining: nat, k: nat, count: nat)
    requires k < |blocks| && blocks[k].size >= count
  {
    && Cost(blocks[k], count) <= remaining
    && Split(blocks[k], count)[0].size <= remaining - Cost(blocks[k], count)
    && UsedWithin(blocks, remaining - Cost(blocks[k], count))
  }

  lemma TakenPasses(blocks: Blocks, remaining: nat, k: nat, count: nat, remaining': nat)
    requires k < |blocks| && blocks[k].size >= count && !blocks[k].used && remaining == FreeBytes(blocks, |blocks|)
    requires remaining' + Cost(blocks[k], count) == remaining
    ensures AllWithin(Taken(blocks, k, count), remaining') <==> Passes(blocks, remaining, k, count)
  {
    var r := Taken(blocks, k, count);
    var d := |Split(blocks[k], count)| - 1;
    TakenFreeBytes(blocks, k, count);
    WithinIffUsedWithin(r, remaining');
    assert r[k] == Split(blocks[k], count)[0];
    if UsedWithin(r, remaining') {
      forall i | 0 <= i < |blocks| && blocks[i].used ensures blocks[i].size <= remaining' {
        assert r[if i < k then i else i + d] == blocks[i];
      }
    }
    if Passes(blocks, remaining, k, count) {
      forall i | 0 <= i < |r| && r[i].used ensures r[i].size <= remaining' {
        if i != k {
          assert r[i] == blocks[if i < k then i else i - d];
        }
      }
    }
  }

  /** In a fresh region a request passes exactly if two blocks of its size and an entry fit. */
  lemma HalfIsTheLimit(count: nat)
    requires MIN_BLOCK <= count <= REGION_SIZE - HEADER - ENTRY && count % 8 == 0
    ensures var blocks := [Block(HEADER, false, REGION_SIZE - HEADER - ENTRY)];
      Passes(blocks, REGION_SIZE - HEADER - ENTRY, 0, count) <==> 2 * count + ENTRY <= REGION_SIZE - HEADER - ENTRY
  {
  }

  ghost predicate Intact(r: Region)
    reads r, r.memory, r.entryTable
  {
    r.Valid() && AllWithin(r.blocks, r.remaining)
  }

  /** The regions share nothing. */
  ghost predicate Separate(a: Region, b: Region) {
    && a != b && a.memory != b.memory && a.entryTable != b.entryTable
    && (a.base + a.size <= b.base || b.base + b.size <= a.base)
  }

  class HeapRegions {
    var regions: seq<Region>

    ghost function Objects(): set<object>
      reads this
    {
      (set r: Region | r in regions :: r as object)
      + (set r: Region | r in regions :: r.memory as object)
      + (set r: Region | r in regions :: r.entryTable as object)
    }

    ghost predicate Valid()
      reads this, Objects()
    {
      && (forall r: Region | r in regions :: Intact(r))
      && forall i, j | 0 <= i < j < |regions| :: Separate(regions[i], regions[j])
    }

    constructor ()
      ensures Valid() && regions == []
    {
      regions := [];
    }

    /** Appends a region made of memory of its own (lines 189-246). */
    method Create(base: nat, memory: array<Word>, entryTable: array<nat>)
      requires Valid() && 8 * memory.Length == REGION_SIZE && entryTable.Length == TABLE_CAPACITY
      requires forall r: Region | r in regions ::
                 r.memory != memory && r.entryTable != entryTable
                   && (r.base + r.size <= base || base + REGION_SIZE <= r.base)
      modifies this, memory
      ensures Valid() && |regions| == |old(regions)| + 1 && regions[..|old(regions)|] == old(regions)
      ensures regions[|old(regions)|].base == base
      ensures regions[|old(regions)|].blocks == [Block(HEADER, false, REGION_SIZE - HEADER - ENTRY)]
      ensures forall r: Region | r in old(regions) :: r.blocks == old(r.blocks)
    {
      var region := new Region(base, memory, entryTable);
      forall r: Region | r in regions ensures Intact(r) && Separate(r, region) {
        assert old(Intact(r));
      }
      assert old(regions) == regions;
      regions := regions + [region];
    }

    /** The first region with enough free bytes (lines 60-62 and 94). */
    method FindRegion(count: nat) returns (j: nat)
      ensures j <= |regions| && (forall i | 0 <= i < j :: regions[i].remaining < count)
      ensures j < |regions| ==> regions[j].remaining >= count
    {
      j := 0;
      while j < |regions| && !(count <= regions[j].remaining)
        invariant j <= |regions| && forall i | 0 <= i < j :: regions[i].remaining < count
      {
        j := j + 1;
      }
    }

    /** Checks every region; false stands for a panic (lines 99-106). */
    method CheckAll() returns (ok: bool)
      requires forall i | 0 <= i < |regions| :: regions[i].Valid()
      ensures ok <==> forall i | 0 <= i < |regions| :: AllWithin(regions[i].blocks, regions[i].remaining)
    {
      for i := 0 to |regions|
        invariant forall k | 0 <= k < i :: AllWithin(regions[k].blocks, regions[k].remaining)
      {
        ok := regions[i].Check();
        if !ok {
          return;
        }
      }
      ok := true;
    }

    /** Serves a request from one region; the others are left alone. */
    method ServeFrom(n: nat, count: nat) returns (r: Option<nat>, ghost k: nat)
      requires Valid() && n < |regions| && MIN_BLOCK <= count <= regions[n].remaining && count % 8 == 0
      modifies Objects()
      ensures regions == old(regions)
      ensures forall i | 0 <= i < |regions| && i != n ::
                Intact(regions[i]) && regions[i].blocks == old(regions[i].blocks)
      ensures forall i, j | 0 <= i < j < |regions| :: Separate(regions[i], regions[j])
      ensures r.None? <==> NoneFreeFor(old(regions[n].blocks), count, |old(regions[n].blocks)|)
                           || old(regions[n].entryCount) >= regions[n].entryTable.Length
      ensures r.Some? ==>
                && regions[n].Valid() && IsFirstFree(old(regions[n].blocks), count, k)
                && r.value == Payload(regions[n].base, old(regions[n].blocks)[k])
                && regions[n].blocks == Taken(old(regions[n].blocks), k, count)
                && (AllWithin(regions[n].blocks, regions[n].remaining)
                    <==> Passes(old(regions[n].blocks), old(regions[n].remaining), k, count))
      ensures r.Some? ==>
                && n < |regions| && k < |regions[n].blocks| && regions[n].blocks[k].used
                && r.value == Payload(regions[n].base, regions[n].blocks[k])
                && count <= regions[n].blocks[k].size < count + ENTRY + MIN_BLOCK
                && old(regions[n].remaining) - regions[n].remaining <= count + ENTRY
    {
      assert Intact(regions[n]);
      ghost var blocks, remaining := regions[n].blocks, regions[n].remaining;
      forall i | 0 <= i < |regions| && i != n ensures Separate(regions[i], regions[n]) && Intact(regions[i]) {
        assert if i < n then Separate(regions[i], regions[n]) else Separate(regions[n], regions[i]);
        assert regions[i] in regions;
      }
      r, k := regions[n].Serve(count);
      if r.Some? {
        TakenFreeBytes(blocks, k, count);
        TakenPasses(blocks, remaining, k, count, regions[n].remaining);
      }
    }

    /** Allocates from one region, then checks all of them (lines 62-108). */
    method AllocateFrom(n: nat, count: nat) returns (r: Allocation, ghost k: nat)
      requires Valid() && n < |regions| && count > 0 && count % 8 == 0 && regions[n].remaining >= count
      modifies Objects()
      ensures !r.Null?
      ensures r.Faulted? <==> NoneFreeFor(old(regions[n].blocks), count, |old(regions[n].blocks)|)
                              || old(regions[n].entryCount) == regions[n].entryTable.Length
      ensures !r.Faulted? ==>
                && IsFirstFree(old(regions[n].blocks), count, k)
                && (r.Allocated? <==> Passes(old(regions[n].blocks), old(regions[n].remaining), k, count))
      ensures r.Allocated? ==>
                && Valid() && r.address == Payload(regions[n].base, old(regions[n].blocks)[k])
                && regions[n].blocks == Taken(old(regions[n].blocks), k, count)
                && forall i | 0 <= i < |regions| && i != n :: regions[i].blocks == old(regions[i].blocks)
      ensures r.Allocated? ==>
                && n < |regions| && k < |regions[n].blocks| && regions[n].blocks[k].used
                && r.address == Payload(regions[n].base, regions[n].blocks[k])
                && count <= regions[n].blocks[k].size < count + ENTRY + MIN_BLOCK
                && old(regions[n].remaining) - regions[n].remaining <= count + ENTRY
    {
      var served;
      served, k := ServeFrom(n, count);
      if served.None? {
        return Faulted, k;
      }
      assert forall i | 0 <= i < |regions| && i != n :: Intact(regions[i]);
      var ok := CheckAll();
      r := if ok then Allocated(served.value) else Panicked;
    }

    /** Allocates memory (lines 38-109). */
    method Allocate(request: nat) returns (r: Allocation, ghost j: nat, ghost k: nat)
      requires Valid()
      modifies Objects()
      ensures |regions| == 0 || request == 0 || request >= REGION_SIZE - HEADER - ENTRY ==>
                r.Panicked? && j == |regions|
      ensures |regions| > 0 && 0 < request < REGION_SIZE - HEADER - ENTRY ==>
                && j <= |regions| && (forall i | 0 <= i < j :: old(regions[i].remaining) < Align(request))
                && (r.Null? <==> j == |regions|)
      ensures r.Null? ==> Valid()
      ensures j < |regions| ==>
                && (r.Faulted? <==> NoneFreeFor(old(regions[j].blocks), Align(request), |old(regions[j].blocks)|)
                                    || old(regions[j].entryCount) == regions[j].entryTable.Length)
                && (!r.Faulted? ==>
                      && IsFirstFree(old(regions[j].blocks), Align(request), k)
                      && (r.Allocated? <==> Passes(old(regions[j].blocks), old(regions[j].remaining), k,
                                                   Align(request))))
      ensures r.Allocated? ==>
                && Valid() && j < |regions| && old(regions[j].remaining) >= Align(request)
                && r.address == Payload(regions[j].base, old(regions[j].blocks)[k])
                && regions[j].blocks == Taken(old(regions[j].blocks), k, Align(request))
                && forall i | 0 <= i < |regions| && i != j :: regions[i].blocks == old(regions[i].blocks)
      ensures r.Allocated? ==>
                && j < |regions| && k < |regions[j].blocks| && regions[j].blocks[k].used
                && r.address == Payload(regions[j].base, regions[j].blocks[k])
                && Align(request) <= regions[j].blocks[k].size < Align(request) + ENTRY + MIN_BLOCK
                && old(regions[j].remaining) - regions[j].remaining <= Align(request) + ENTRY
    {
      j, k := 0, 0;
      if |regions| == 0 {
        return Panicked, |regions|, 0;
      }
      if request == 0 || request >= REGION_SIZE - HEADER - ENTRY {
        return Panicked, |regions|, 0;
      }
      var count := Align(request);
      var n := FindRegion(count);
      j := n;
      if n < |regions| {
        r, k := AllocateFrom(n, count);
      } else {
        r := Null;
        var ok := CheckAll();
        if !ok {
          r := Panicked;
        }
      }
    }

    /** Gives a block of one region back if the address is one in use there; the others are left alone. */
    method ReleaseFrom(n: nat, address: nat) returns (freed: bool, ghost k: nat)
      requires Valid() && n < |regions|
      modifies Objects()
      ensures Valid() && regions == old(regions)
      ensures freed <==> IsLive(old(regions[n].blocks), regions[n].base, address)
      ensures forall i | 0 <= i < |regions| && i != n :: regions[i].blocks == old(regions[i].blocks)
      ensures freed ==>
                && k < |old(regions[n].blocks)| && old(regions[n].blocks)[k].used
                && Payload(regions[n].base, old(regions[n].blocks)[k]) == address
                && regions[n].blocks == Given(old(regions[n].blocks), k)
      ensures !freed ==> regions[n].blocks == old(regions[n].blocks)
    {
      assert Intact(regions[n]);
      ghost var blocks, remaining := regions[n].blocks, regions[n].remaining;
      forall i | 0 <= i < |regions| && i != n ensures Separate(regions[i], regions[n]) && Intact(regions[i]) {
        assert if i < n then Separate(regions[i], regions[n]) else Separate(regions[n], regions[i]);
        assert regions[i] in regions;
      }
      freed, k := regions[n].Release(address);
      assert AllWithin(regions[n].blocks, regions[n].remaining);
      assert forall i | 0 <= i < |regions| && i != n :: Intact(regions[i]);
      assert forall r: Region | r in regions :: Intact(r);
    }

    /** Frees memory; false stands for a panic (lines 111-162). */
    method Free(address: nat) returns (ok: bool, ghost j: nat, ghost k: nat)
      requires Valid()
      modifies Objects()
      ensures Valid() && regions == old(regions)
      ensures ok <==> j < |regions|
      ensures j <= |regions| && forall i | 0 <= i < j :: !IsLive(old(regions[i].blocks), regions[i].base, address)
      ensures ok ==>
                && k < |old(regions[j].blocks)| && old(regions[j].blocks)[k].used
                && Payload(regions[j].base, old(regions[j].blocks)[k]) == address
                && regions[j].blocks == Given(old(regions[j].blocks), k)
      ensures forall i | 0 <= i < |regions| && i != j :: regions[i].blocks == old(regions[i].blocks)
    {
      k := 0;
      var freed := false;
      var n := 0;
      while n < |regions|
        invariant n <= |regions| && Valid() && regions == old(regions) && !freed
        invariant forall i | 0 <= i < |regions| :: regions[i].blocks == old(regions[i].blocks)
        invariant forall i | 0 <= i < n :: !IsLive(old(regions[i].blocks), regions[i].base, address)
      {
        freed, k := ReleaseFrom(n, address);
        if freed {
          break;
        }
        n := n + 1;
      }
      j := n;
      assert forall i | 0 <= i < |regions| :: Intact(regions[i]);
      ok := CheckAll();
      ok := ok && freed;
    }
  }

  /** Freeing what was allocated leaves as many bytes free as before, less the entry of a split: the
      code never merges free blocks. */
  lemma AllocateThenFree(blocks: Blocks, size: nat, base: nat, k: nat, count: nat)
    requires Tiles(blocks, size) && k < |blocks| && !blocks[k].used && blocks[k].size >= count >= MIN_BLOCK
             && count % 8 == 0
    ensures var r := Given(Taken(blocks, k, count), k);
      && Tiles(r, size) && FreeBytes(r, |r|) + ENTRY * (|r| - |blocks|) == FreeBytes(blocks, |blocks|)
      && forall a: nat :: IsLive(r, base, a) <==> IsLive(blocks, base, a)
  {
    var taken := Taken(blocks, k, count);
    TakenTiles(blocks, size, k, count);
    TakenFreeBytes(blocks, k, count);
    GivenTiles(taken, size, k);
    GivenFreeBytes(taken, k);
    forall a: nat ensures IsLive(Given(taken, k), base, a) <==> IsLive(blocks, base, a) {
      TakenLive(blocks, base, k, count, a);
      GivenLive(taken, size, base, k, a);
      FreeNotLive(blocks, size, base, k);
    }
  }
}
