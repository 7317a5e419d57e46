/** A heap region: entries kept in the region's own memory, a table of the addresses in use, and a
    counter of free bytes (src/boot/heapmemmgmt.cpp). */
module Heap {
  import opened Options
  import opened HeapBlocks

  /** Two MiB hold this many entries of the least size; the code maps as many bytes for the table, so
      that it has room for an eighth of them. */
  const ENTRY_TABLE_SIZE: nat := REGION_SIZE / (ENTRY + MIN_BLOCK)
  const TABLE_CAPACITY: nat := ENTRY_TABLE_SIZE / 8

  class Region {
    const base: nat
    const size: nat
    const memory: array<Word>
    const entryTable: array<nat>
    var entryCount: nat
    var remaining: nat
    ghost var blocks: Blocks

    ghost predicate Shaped()
      reads this, memory
    {
      8 * memory.Length == size && Tiles(blocks, size) && AllWritten(memory[..], blocks)
    }

    ghost predicate Valid()
      reads this, memory, entryTable
    {
      && Shaped()
      && remaining == FreeBytes(blocks, |blocks|)
      && entryCount <= entryTable.Length && Lists(entryTable[..entryCount], blocks, base)
    }

    /** A region with one free block (lines 224-245). */
    constructor (base: nat, memory: array<Word>, entryTable: array<nat>)
      requires 8 * memory.Length == REGION_SIZE && entryTable.Length == TABLE_CAPACITY
      modifies memory
      ensures Valid() && AllWithin(blocks, remaining)
      ensures this.base == base && this.memory == memory && this.entryTable == entryTable && size == REGION_SIZE
      ensures blocks == [Block(HEADER, false, REGION_SIZE - HEADER - ENTRY)]
    {
      this.base, this.memory, this.entryTable, this.size := base, memory, entryTable, REGION_SIZE;
      entryCount := 0;
      remaining := REGION_SIZE - HEADER - ENTRY;
      blocks := [Block(HEADER, false, REGION_SIZE - HEADER - ENTRY)];
      new;
      memory[HEADER / 8] := Word(FREE, remaining);
      assert Fits(blocks, 0, size) && Written(memory[..], blocks, 0);
      assert FreeBytes(blocks, 1) == remaining;
    }

    /** The entry after one, unless what is left is too small for a block (lines 248-259). */
    method NextEntry(offset: nat, ghost k: nat) returns (next: Option<nat>)
      requires Shaped() && k < |blocks| && blocks[k].offset == offset
      ensures next == if k + 1 < |blocks| then Some(blocks[k + 1].offset) else None
    {
      assert Written(memory[..], blocks, k) && Fits(blocks, k, size);
      var nextEntry := offset + ENTRY + memory[offset / 8].size;
      if k + 1 < |blocks| {
        InRegion(blocks, size, k + 1);
        assert Fits(blocks, k + 1, size);
      }
      if nextEntry >= size || nextEntry + ENTRY + MIN_BLOCK > size {
        return None;
      }
      next := Some(nextEntry);
    }

    /** Whether an entry makes sense (lines 264-289). */
    method ValidEntry(offset: nat, ghost k: nat) returns (ok: bool)
      requires Shaped() && k < |blocks| && blocks[k].offset == offset
      ensures ok <==> blocks[k].size <= remaining
    {
      assert Written(memory[..], blocks, k) && Fits(blocks, k, size);
      InRegion(blocks, size, k);
      var entry := memory[offset / 8];
      ok := (entry.signature == FREE || entry.signature == USED) && entry.size <= remaining &&
            entry.size <= size - HEADER - ENTRY && entry.size >= MIN_BLOCK;
    }

    /** The integrity check; false stands for its panic (lines 164-181). */
    method Check() returns (ok: bool)
      requires Shaped()
      ensures ok <==> AllWithin(blocks, remaining)
    {
      var total := HEADER;
      var entry := Some(HEADER);
      ghost var k: nat := 0;
      while entry.Some?
        invariant k <= |blocks| && (entry.Some? <==> k < |blocks|) && (entry.Some? ==> entry.value == blocks[k].offset)
        invariant total == Total(blocks, k)
        invariant forall i | 0 <= i < k :: blocks[i].size <= remaining
        decreases |blocks| - k
      {
        var valid := ValidEntry(entry.value, k);
        if !valid {
          return false;
        }
        assert Written(memory[..], blocks, k);
        total := total + ENTRY + memory[entry.value / 8].size;
        entry := NextEntry(entry.value, k);
        k := k + 1;
      }
      TotalIsEnd(blocks, size, |blocks|);
      ok := total == size;
    }

    /** The first free block of at least `count` bytes (lines 63-73). */
    method FindFree(count: nat) returns (entry: Option<nat>, ghost k: nat)
      requires Shaped() && AllWithin(blocks, remaining)
      ensures entry.Some? ==> k < |blocks| && entry.value == blocks[k].offset && IsFirstFree(blocks, count, k)
      ensures entry.None? ==> NoneFreeFor(blocks, count, |blocks|)
    {
      entry, k := Some(HEADER), 0;
      while entry.Some?
        invariant k <= |blocks| && (entry.Some? <==> k < |blocks|) && (entry.Some? ==> entry.value == blocks[k].offset)
        invariant NoneFreeFor(blocks, count, k)
        decreases |blocks| - k
      {
        var valid := ValidEntry(entry.value, k);
        assert Written(memory[..], blocks, k);
        if memory[entry.value / 8].signature == FREE && memory[entry.value / 8].size >= count {
          return;
        }
        entry := NextEntry(entry.value, k);
        k := k + 1;
      }
    }

    /** Takes the free block k for `count` bytes (lines 77-87). */
    method Take(offset: nat, count: nat, ghost k: nat)
      requires Valid() && k < |blocks| && blocks[k].offset == offset && !blocks[k].used
      requires blocks[k].size >= count >= MIN_BLOCK && count % 8 == 0
      modifies this`remaining, this`blocks, memory
      ensures Shaped() && blocks == Taken(old(blocks), k, count)
      ensures remaining == FreeBytes(blocks, |blocks|) && remaining + Cost(old(blocks[k]), count) == old(remaining)
      ensures k < |blocks| && blocks[..k] == old(blocks)[..k]
      ensures blocks[k].used && blocks[k].offset == offset && count <= blocks[k].size < count + ENTRY + MIN_BLOCK
      ensures old(blocks)[k].size >= count + ENTRY + MIN_BLOCK ==>
                && k + 1 < |blocks| && blocks[k].size == count && !blocks[k + 1].used
                && blocks[k + 1].offset == End(blocks[k]) && End(blocks[k + 1]) == End(old(blocks)[k])
                && blocks[k + 2..] == old(blocks)[k + 1..] && remaining + count + ENTRY == old(remaining)
      ensures old(blocks)[k].size < count + ENTRY + MIN_BLOCK ==>
                && blocks[k].size == old(blocks)[k].size && blocks[k + 1..] == old(blocks)[k + 1..]
                && remaining + blocks[k].size == old(remaining)
      ensures old(remaining) - remaining <= count + ENTRY
    {
      ghost var words := memory[..];
      assert Written(words, blocks, k);
      InRegion(blocks, size, k);
      TakenFreeBytes(blocks, k, count);
      TakenTiles(blocks, size, k, count);
      TakenExactly(blocks, size, k, count);
      assert Fits(blocks, k, size);
      var entry := memory[offset / 8];
      if entry.size >= count + ENTRY + MIN_BLOCK {
        memory[offset / 8] := Word(USED, count);
        memory[(offset + ENTRY + count) / 8] := Word(FREE, entry.size - count - ENTRY);
        remaining := remaining - (count + ENTRY);
      } else {
        memory[offset / 8] := entry.(signature := USED);
        remaining := remaining - entry.size;
      }
      TakenWritten(words, memory[..], blocks, size, k, count);
      blocks := Taken(blocks, k, count);
    }

    /** Serves a request from this region (lines 62-91); `count` is a multiple of 8. None stands for
        an access through a null entry or past the end of the table. */
    method Serve(count: nat) returns (r: Option<nat>, ghost k: nat)
      requires Valid() && AllWithin(blocks, remaining) && MIN_BLOCK <= count <= remaining && count % 8 == 0
      modifies this, memory, entryTable
      ensures r.Some? <==> !NoneFreeFor(old(blocks), count, |old(blocks)|) && old(entryCount) < entryTable.Length
      ensures r.Some? ==>
                && Valid() && IsFirstFree(old(blocks), count, k) && blocks == Taken(old(blocks), k, count)
                && r.value == Payload(base, old(blocks)[k])
                && entryTable[..entryCount] == old(entryTable[..entryCount]) + [r.value]
      ensures r.Some? ==>
                && |old(blocks)| <= |blocks| && blocks[k].used && r.value == Payload(base, blocks[k])
                && count <= blocks[k].size < count + ENTRY + MIN_BLOCK && old(remaining) - remaining <= count + ENTRY
    {
      var entry;
      entry, k := FindFree(count);
      if entry.None? {
        return None, k;
      }
      Take(entry.value, count, k);
      var address := base + entry.value + ENTRY;
      if entryCount >= entryTable.Length {
        return None, k;
      }
      ghost var table := entryTable[..entryCount];
      entryTable[entryCount] := address;
      entryCount := entryCount + 1;
      ServedLists(table, old(blocks), size, base, k, count);
      assert entryTable[..entryCount] == table + [address];
      r := Some(address);
    }

    /** Where an address stands in the table (lines 122-129). */
    method FindListed(address: nat) returns (i: nat)
      requires entryCount <= entryTable.Length
      ensures i <= entryCount && (i < entryCount ==> entryTable[i] == address)
      ensures i == entryCount ==> !Listed(entryTable[..entryCount], address)
    {
      i := 0;
      while i < entryCount && entryTable[i] != address
        invariant i <= entryCount && forall j | 0 <= j < i :: entryTable[j] != address
      {
        i := i + 1;
      }
    }

    /** Gives a block back if the address is one in use here (lines 116-139). */
    method Release(address: nat) returns (freed: bool, ghost k: nat)
      requires Valid()
      modifies this, memory, entryTable
      ensures Valid()
      ensures freed <==> IsLive(old(blocks), base, address)
      ensures freed ==>
                && k < |old(blocks)| && old(blocks)[k].used && Payload(base, old(blocks)[k]) == address
                && blocks == Given(old(blocks), k) && remaining == old(remaining) + old(blocks)[k].size
      ensures !freed ==> blocks == old(blocks) && remaining == old(remaining)
    {
      k := 0;
      freed := false;
      if base + HEADER + ENTRY <= address < base + size {
        var i := FindListed(address);
        if i < entryCount {
          k := LiveBlock(entryTable[..entryCount], blocks, size, base, i);
          ghost var table := entryTable[..entryCount];
          entryCount := entryCount - 1;
          entryTable[i] := entryTable[entryCount];
          assert entryTable[..entryCount] == Without(table, i);
          GivenLists(table, blocks, size, base, i, k);
          GiveBack(address - ENTRY - base, k);
          return true, k;
        }
      } else {
        OutsideNotLive(blocks, size, base, address);
      }
    }

    /** Marks the entry of block k free (lines 133-135). */
    method GiveBack(offset: nat, ghost k: nat)
      requires Shaped() && k < |blocks| && blocks[k].offset == offset && blocks[k].used
      requires remaining == FreeBytes(blocks, |blocks|)
      modifies this`remaining, this`blocks, memory
      ensures Shaped() && blocks == Given(old(blocks), k)
      ensures remaining == FreeBytes(blocks, |blocks|) == old(remaining) + old(blocks[k]).size
    {
      ghost var words := memory[..];
      assert Written(words, blocks, k);
      GivenFreeBytes(blocks, k);
      GivenTiles(blocks, size, k);
      memory[offset / 8] := memory[offset / 8].(signature := FREE);
      remaining := remaining + memory[offset / 8].size;
      GivenWritten(words, memory[..], blocks, size, k);
      blocks := Given(blocks, k);
    }
  }

  predicate NoneFreeFor(blocks: Blocks, count: nat, n: nat)
    requires n <= |blocks|
  {
    forall i | 0 <= i < n :: blocks[i].used || blocks[i].size < count
  }

  predicate IsFirstFree(blocks: Blocks, count: nat, k: nat) {
    k < |blocks| && !blocks[k].used && blocks[k].size >= count && NoneFreeFor(blocks, count, k)
  }

  lemma TakenWritten(words: seq<Word>, words': seq<Word>, blocks: Blocks, size: nat, k: nat, count: nat)
    requires Tiles(blocks, size) && AllWritten(words, blocks) && 8 * |words| == size && |words'| == |words|
    requires k < |blocks| && blocks[k].size >= count >= MIN_BLOCK && count % 8 == 0
    requires forall i | 0 <= i < |words| && !(blocks[k].offset <= 8 * i < End(blocks[k])) :: words'[i] == words[i]
    requires forall i | 0 <= i < |Split(blocks[k], count)| :: Written(words', Split(blocks[k], count), i)
    ensures AllWritten(words', Taken(blocks, k, count))
  {
    var r, mid := Taken(blocks, k, count), Split(blocks[k], count);
    var d := |mid| - 1;
    forall i | 0 <= i < |r| ensures Written(words', r, i) {
      if k <= i <= k + d {
        assert Written(words', mid, i - k);
      } else {
        var o := if i < k then i else i - d;
        assert r[i] == blocks[o] && Written(words, blocks, o) && Fits(blocks, o, size);
        LiveBlocksDisjoint(blocks, size, o, k);
      }
    }
  }

  lemma GivenWritten(words: seq<Word>, words': seq<Word>, blocks: Blocks, size: nat, k: nat)
    requires Tiles(blocks, size) && AllWritten(words, blocks) && k < |blocks| && blocks[k].offset / 8 < |words|
    requires words' == words[blocks[k].offset / 8 := EntryOf(blocks[k].(used := false))]
    ensures AllWritten(words', Given(blocks, k))
  {
    var r := Given(blocks, k);
    forall i | 0 <= i < |r| ensures Written(words', r, i) {
      assert Written(words, blocks, i);
      if i != k {
        LiveBlocksDisjoint(blocks, size, i, k);
        assert Fits(blocks, i, size) && Fits(blocks, k, size);
      }
    }
  }

  lemma ServedLists(table: seq<nat>, blocks: Blocks, size: nat, base: nat, k: nat, count: nat)
    requires Tiles(blocks, size) && Lists(table, blocks, base) && k < |blocks| && !blocks[k].used
             && blocks[k].size >= count
    ensures Lists(table + [Payload(base, blocks[k])], Taken(blocks, k, count), base)
  {
    FreeNotLive(blocks, size, base, k);
    forall a: nat ensures IsLive(Taken(blocks, k, count), base, a)
        <==> IsLive(blocks, base, a) || a == Payload(base, blocks[k]) {
      TakenLive(blocks, base, k, count, a);
    }
    ListsOneMore(table, blocks, Taken(blocks, k, count), base, Payload(base, blocks[k]));
  }

  /** The block whose address stands in the table. */
  lemma LiveBlock(table: seq<nat>, blocks: Blocks, size: nat, base: nat, i: nat) returns (k: nat)
    requires Lists(table, blocks, base) && i < |table|
    ensures k < |blocks| && blocks[k].used && Payload(base, blocks[k]) == table[i]
  {
    assert Listed(table, table[i]);
    k :| 0 <= k < |blocks| && blocks[k].used && Payload(base, blocks[k]) == table[i];
  }

  lemma GivenLists(table: seq<nat>, blocks: Blocks, size: nat, base: nat, i: nat, k: nat)
    requires Tiles(blocks, size) && Lists(table, blocks, base) && i < |table|
    requires k < |blocks| && blocks[k].used && Payload(base, blocks[k]) == table[i]
    ensures Lists(Without(table, i), Given(blocks, k), base)
  {
    forall a: nat ensures IsLive(Given(blocks, k), base, a) <==> IsLive(blocks, base, a) && a != table[i] {
      GivenLive(blocks, size, base, k, a);
    }
    ListsOneLess(table, blocks, Given(blocks, k), base, i);
  }

  lemma OutsideNotLive(blocks: Blocks, size: nat, base: nat, address: nat)
    requires Tiles(blocks, size) && !(base + HEADER + ENTRY <= address < base + size)
    ensures !IsLive(blocks, base, address)
  {
    forall i | 0 <= i < |blocks| && blocks[i].used ensures Payload(base, blocks[i]) != address {
      InRegion(blocks, size, i);
      assert Fits(blocks, i, size);
    }
  }
}
