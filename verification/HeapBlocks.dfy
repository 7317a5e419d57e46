/** The blocks of a heap region as values (src/boot/heapmemmgmt.cpp). Offsets are in bytes from the
    region's start; an entry of 8 bytes stands before the payload of each block. */
module HeapBlocks {

  const REGION_SIZE: nat := 0x20_0000
  const HEADER: nat := 48
  const ENTRY: nat := 8
  const MIN_BLOCK: nat := 8
  const FREE: nat := 0x4545_5246
  const USED: nat := 0x4445_5355

  /** Eight bytes of a region, read as an entry. */
  datatype Word = Word(signature: nat, size: nat)

  datatype Block = Block(offset: nat, used: bool, size: nat)

  type Blocks = seq<Block>

  function End(b: Block): nat {
    b.offset + ENTRY + b.size
  }

  /** Block i is aligned, not too small, and ends where the next begins or the region ends. */
  ghost predicate Fits(blocks: Blocks, i: nat, size: nat)
    requires i < |blocks|
  {
    var b := blocks[i];
    && b.offset % 8 == 0 && b.size % 8 == 0 && b.size >= MIN_BLOCK && b.offset >= HEADER
    && End(b) == if i + 1 < |blocks| then blocks[i + 1].offset else size
  }

  /** The blocks fill the region after its header, with no gap and no overlap. */
  ghost predicate Tiles(blocks: Blocks, size: nat) {
    && blocks != [] && blocks[0].offset == HEADER
    && forall i | 0 <= i < |blocks| :: Fits(blocks, i, size)
  }

  function EntryOf(b: Block): Word {
    Word(if b.used then USED else FREE, b.size)
  }

  /** The region's memory holds the entry of block i. */
  predicate Written(memory: seq<Word>, blocks: Blocks, i: nat)
    requires i < |blocks|
  {
    blocks[i].offset / 8 < |memory| && memory[blocks[i].offset / 8] == EntryOf(blocks[i])
  }

  ghost predicate AllWritten(memory: seq<Word>, blocks: Blocks) {
    forall i | 0 <= i < |blocks| :: Written(memory, blocks, i)
  }

  function FreeBytes(blocks: Blocks, n: nat): nat
    requires n <= |blocks|
  {
    if n == 0 then 0 else FreeBytes(blocks, n - 1) + if blocks[n - 1].used then 0 else blocks[n - 1].size
  }

  function Payload(base: nat, b: Block): nat {
    base + b.offset + ENTRY
  }

  /** The address is that of a block in use. */
  predicate IsLive(blocks: Blocks, base: nat, address: nat) {
    exists i | 0 <= i < |blocks| :: blocks[i].used && Payload(base, blocks[i]) == address
  }

  predicate Listed(table: seq<nat>, address: nat) {
    exists i | 0 <= i < |table| :: table[i] == address
  }

  predicate Distinct(table: seq<nat>) {
    forall i, j | 0 <= i < j < |table| :: table[i] != table[j]
  }

  /** The table lists each address in use once, and no other. */
  ghost predicate Lists(table: seq<nat>, blocks: Blocks, base: nat) {
    Distinct(table) && forall address: nat :: Listed(table, address) <==> IsLive(blocks, base, address)
  }

  /** No block is larger than `remaining`: the code asks this of blocks in use as well. */
  predicate AllWithin(blocks: Blocks, remaining: nat) {
    forall i | 0 <= i < |blocks| :: blocks[i].size <= remaining
  }

  predicate UsedWithin(blocks: Blocks, remaining: nat) {
    forall i | 0 <= i < |blocks| && blocks[i].used :: blocks[i].size <= remaining
  }

  // ----- tiling -----

  lemma {:induction false} InOrder(blocks: Blocks, size: nat, i: nat, j: nat)
    requires Tiles(blocks, size) && i < j < |blocks|
    ensures End(blocks[i]) <= blocks[j].offset
    decreases j
  {
    assert Fits(blocks, i, size);
    if i + 1 < j {
      InOrder(blocks, size, i, j - 1);
      assert Fits(blocks, j - 1, size);
    }
  }

  lemma InRegion(blocks: Blocks, size: nat, i: nat)
    requires Tiles(blocks, size) && i < |blocks|
    ensures HEADER <= blocks[i].offset && End(blocks[i]) <= size && size % 8 == 0
  {
    var n := |blocks| - 1;
    assert Fits(blocks, i, size) && Fits(blocks, n, size);
    if i < n {
      InOrder(blocks, size, i, n);
    }
  }

  /** Blocks in use do not overlap. */
  lemma LiveBlocksDisjoint(blocks: Blocks, size: nat, i: nat, j: nat)
    requires Tiles(blocks, size) && i < |blocks| && j < |blocks| && i != j
    ensures End(blocks[i]) <= blocks[j].offset || End(blocks[j]) <= blocks[i].offset
    ensures blocks[i].offset != blocks[j].offset
  {
    assert Fits(blocks, i, size) && Fits(blocks, j, size);
    if i < j {
      InOrder(blocks, size, i, j);
    } else {
      InOrder(blocks, size, j, i);
    }
  }

  /** The bytes handed out for a block are in the region behind its header, apart from those of every
      other block and from every entry. */
  lemma PayloadsApart(blocks: Blocks, size: nat, base: nat, i: nat, j: nat)
    requires Tiles(blocks, size) && i < |blocks| && j < |blocks|
    ensures var a, b := Payload(base, blocks[i]), Payload(base, blocks[j]);
      var entry := base + blocks[j].offset;
      && base + HEADER + ENTRY <= a && a + blocks[i].size <= base + size && (a - base) % 8 == 0
      && (i != j ==> a + blocks[i].size <= b || b + blocks[j].size <= a)
      && (a + blocks[i].size <= entry || entry + ENTRY <= a)
  {
    InRegion(blocks, size, i);
    assert Fits(blocks, i, size) && Fits(blocks, j, size);
    if i != j {
      LiveBlocksDisjoint(blocks, size, i, j);
    }
  }

  /** What the integrity check adds up: the header and every entry with its payload. */
  lemma {:induction false} TotalIsEnd(blocks: Blocks, size: nat, n: nat)
    requires Tiles(blocks, size) && n <= |blocks|
    ensures Total(blocks, n) == if n < |blocks| then blocks[n].offset else size
  {
    if n > 0 {
      TotalIsEnd(blocks, size, n - 1);
      assert Fits(blocks, n - 1, size);
    }
  }

  function Total(blocks: Blocks, n: nat): nat
    requires n <= |blocks|
  {
    if n == 0 then HEADER else Total(blocks, n - 1) + ENTRY + blocks[n - 1].size
  }

  // ----- free bytes -----

  lemma {:induction false} FreeFits(blocks: Blocks, n: nat, i: nat)
    requires i < n <= |blocks| && !blocks[i].used
    ensures blocks[i].size <= FreeBytes(blocks, n)
  {
    if i < n - 1 {
      FreeFits(blocks, n - 1, i);
    }
  }

  /** Free blocks are never larger than what is free altogether, so only those in use can be. */
  lemma WithinIffUsedWithin(blocks: Blocks, remaining: nat)
    requires FreeBytes(blocks, |blocks|) == remaining
    ensures AllWithin(blocks, remaining) <==> UsedWithin(blocks, remaining)
  {
    forall i | 0 <= i < |blocks| && !blocks[i].used ensures blocks[i].size <= remaining {
      FreeFits(blocks, |blocks|, i);
    }
  }

  // ----- taking a block -----

  /** The block that is taken for `count` bytes, and the rest of it if there is room for an entry. */
  function Split(b: Block, count: nat): Blocks
    requires b.size >= count
  {
    if b.size >= count + ENTRY + MIN_BLOCK
    then [Block(b.offset, true, count), Block(b.offset + ENTRY + count, false, b.size - count - ENTRY)]
    else [b.(used := true)]
  }

  function Taken(blocks: Blocks, k: nat, count: nat): Blocks
    requires k < |blocks| && blocks[k].size >= count
  {
    blocks[..k] + Split(blocks[k], count) + blocks[k + 1..]
  }

  /** What the counter of free bytes loses. */
  function Cost(b: Block, count: nat): nat {
    if b.size >= count + ENTRY + MIN_BLOCK then count + ENTRY else b.size
  }

  lemma TakenTiles(blocks: Blocks, size: nat, k: nat, count: nat)
    requires Tiles(blocks, size) && k < |blocks| && blocks[k].size >= count >= MIN_BLOCK && count % 8 == 0
    ensures Tiles(Taken(blocks, k, count), size)
  {
    var r := Taken(blocks, k, count);
    var extra := |Split(blocks[k], count)| - 1;
    forall i | 0 <= i < |r| ensures Fits(r, i, size) {
      if i < k {
        FitsBefore(blocks, size, k, count, i);
      } else if i <= k + extra {
        assert Fits(blocks, k, size);
      } else {
        FitsBehind(blocks, size, k, count, i - extra);
      }
    }
  }

  lemma FitsBefore(blocks: Blocks, size: nat, k: nat, count: nat, i: nat)
    requires k < |blocks| && blocks[k].size >= count && i < k && Fits(blocks, i, size)
    ensures Fits(Taken(blocks, k, count), i, size)
  {
    var r := Taken(blocks, k, count);
    assert r[i] == blocks[i] && r[i + 1].offset == blocks[i + 1].offset;
  }

  lemma FitsBehind(blocks: Blocks, size: nat, k: nat, count: nat, i: nat)
    requires k < i < |blocks| && blocks[k].size >= count && Fits(blocks, i, size)
    ensures Fits(Taken(blocks, k, count), i + |Split(blocks[k], count)| - 1, size)
  {
    var r, j := Taken(blocks, k, count), i + |Split(blocks[k], count)| - 1;
    assert r[j] == blocks[i] && (i + 1 < |blocks| ==> r[j + 1] == blocks[i + 1]);
  }

  /** The block taken begins where the free one did and wastes less than an entry and a least block. If
      the free block had room for these as well, the rest of it is a free block of its own. No other
      block changes. */
  lemma TakenExactly(blocks: Blocks, size: nat, k: nat, count: nat)
    requires Tiles(blocks, size) && k < |blocks| && blocks[k].size >= count >= MIN_BLOCK && count % 8 == 0
    ensures var r := Taken(blocks, k, count);
      && k < |r| && r[..k] == blocks[..k] && r[k].used && r[k].offset == blocks[k].offset
      && count <= r[k].size < count + ENTRY + MIN_BLOCK
      && (blocks[k].size >= count + ENTRY + MIN_BLOCK ==>
            && |r| == |blocks| + 1 && r[k].size == count
            && !r[k + 1].used && r[k + 1].offset == End(r[k]) && End(r[k + 1]) == End(blocks[k])
            && r[k + 2..] == blocks[k + 1..])
      && (blocks[k].size < count + ENTRY + MIN_BLOCK ==>
            |r| == |blocks| && r[k].size == blocks[k].size && r[k + 1..] == blocks[k + 1..])
    ensures Cost(blocks[k], count) == blocks[k].size || Cost(blocks[k], count) == count + ENTRY
    ensures count <= Cost(blocks[k], count) <= count + ENTRY
  {
    assert Fits(blocks, k, size);
  }

  lemma {:induction false} FreeBytesSame(a: Blocks, b: Blocks, n: nat)
    requires n <= |a| && n <= |b| && forall i | 0 <= i < n :: a[i] == b[i]
    ensures FreeBytes(a, n) == FreeBytes(b, n)
  {
    if n > 0 {
      FreeBytesSame(a, b, n - 1);
    }
  }

  lemma {:induction false} FreeBytesShifted(a: Blocks, b: Blocks, m: nat, n: nat, d: nat)
    requires m <= n <= |a| && n + d <= |b| && forall i | m <= i < n :: a[i] == b[i + d]
    ensures FreeBytes(b, n + d) - FreeBytes(b, m + d) == FreeBytes(a, n) - FreeBytes(a, m)
    decreases n
  {
    if m < n {
      FreeBytesShifted(a, b, m, n - 1, d);
    }
  }

  lemma TakenFreeBytes(blocks: Blocks, k: nat, count: nat)
    requires k < |blocks| && blocks[k].size >= count && !blocks[k].used
    ensures FreeBytes(Taken(blocks, k, count), |Taken(blocks, k, count)|) + Cost(blocks[k], count)
            == FreeBytes(blocks, |blocks|)
  {
    var r := Taken(blocks, k, count);
    var d := |Split(blocks[k], count)| - 1;
    FreeBytesSame(blocks, r, k);
    FreeBytesShifted(blocks, r, k + 1, |blocks|, d);
    assert FreeBytes(r, k + 1) == FreeBytes(r, k);
    if d == 1 {
      assert FreeBytes(r, k + 2) == FreeBytes(r, k + 1) + r[k + 1].size;
    }
  }

  /** In use afterwards are the addresses in use before and that of the block. */
  lemma TakenLive(blocks: Blocks, base: nat, k: nat, count: nat, address: nat)
    requires k < |blocks| && blocks[k].size >= count && !blocks[k].used
    ensures IsLive(Taken(blocks, k, count), base, address) <==>
            IsLive(blocks, base, address) || address == Payload(base, blocks[k])
  {
    var r := Taken(blocks, k, count);
    var d := |Split(blocks[k], count)| - 1;
    if IsLive(blocks, base, address) {
      var i :| 0 <= i < |blocks| && blocks[i].used && Payload(base, blocks[i]) == address;
      assert r[if i < k then i else i + d] == blocks[i];
    }
    assert r[k].used && Payload(base, r[k]) == Payload(base, blocks[k]);
    if IsLive(r, base, address) {
      var i :| 0 <= i < |r| && r[i].used && Payload(base, r[i]) == address;
      if i != k {
        assert r[i] == blocks[if i < k then i else i - d];
      }
    }
  }

  lemma FreeNotLive(blocks: Blocks, size: nat, base: nat, k: nat)
    requires Tiles(blocks, size) && k < |blocks| && !blocks[k].used
    ensures !IsLive(blocks, base, Payload(base, blocks[k]))
  {
    forall i | 0 <= i < |blocks| && blocks[i].used ensures Payload(base, blocks[i]) != Payload(base, blocks[k]) {
      LiveBlocksDisjoint(blocks, size, i, k);
    }
  }

  lemma ListsOneMore(table: seq<nat>, blocks: Blocks, blocks': Blocks, base: nat, address: nat)
    requires Lists(table, blocks, base) && !IsLive(blocks, base, address)
    requires forall a: nat :: IsLive(blocks', base, a) <==> IsLive(blocks, base, a) || a == address
    ensures Lists(table + [address], blocks', base)
  {
    var table' := table + [address];
    forall a: nat ensures Listed(table', a) <==> IsLive(blocks', base, a) {
      if Listed(table, a) {
        var i :| 0 <= i < |table| && table[i] == a;
        assert table'[i] == a;
      }
      assert table'[|table|] == address;
    }
    assert forall i | 0 <= i < |table| :: Listed(table, table[i]);
  }

  // ----- giving a block back -----

  function Given(blocks: Blocks, k: nat): Blocks
    requires k < |blocks|
  {
    blocks[k := blocks[k].(used := false)]
  }

  lemma GivenTiles(blocks: Blocks, size: nat, k: nat)
    requires Tiles(blocks, size) && k < |blocks|
    ensures Tiles(Given(blocks, k), size)
  {
    forall i | 0 <= i < |blocks| ensures Fits(Given(blocks, k), i, size) {
      assert Fits(blocks, i, size);
    }
  }

  lemma GivenFreeBytes(blocks: Blocks, k: nat)
    requires k < |blocks| && blocks[k].used
    ensures FreeBytes(Given(blocks, k), |blocks|) == FreeBytes(blocks, |blocks|) + blocks[k].size
  {
    var r := Given(blocks, k);
    FreeBytesSame(blocks, r, k);
    FreeBytesShifted(blocks, r, k + 1, |blocks|, 0);
  }

  lemma GivenLive(blocks: Blocks, size: nat, base: nat, k: nat, address: nat)
    requires Tiles(blocks, size) && k < |blocks| && blocks[k].used
    ensures IsLive(Given(blocks, k), base, address) <==>
            IsLive(blocks, base, address) && address != Payload(base, blocks[k])
  {
    var r := Given(blocks, k);
    if IsLive(r, base, address) {
      var i :| 0 <= i < |r| && r[i].used && Payload(base, r[i]) == address;
      LiveBlocksDisjoint(blocks, size, i, k);
      assert blocks[i] == r[i];
    }
    if IsLive(blocks, base, address) && address != Payload(base, blocks[k]) {
      var i :| 0 <= i < |blocks| && blocks[i].used && Payload(base, blocks[i]) == address;
      assert r[i] == blocks[i];
    }
  }

  /** The table with entry i replaced by the last one and shortened. */
  function Without(table: seq<nat>, i: nat): seq<nat>
    requires i < |table|
  {
    table[i := table[|table| - 1]][..|table| - 1]
  }

  lemma ListsOneLess(table: seq<nat>, blocks: Blocks, blocks': Blocks, base: nat, i: nat)
    requires Lists(table, blocks, base) && i < |table|
    requires forall a: nat :: IsLive(blocks', base, a) <==> IsLive(blocks, base, a) && a != table[i]
    ensures Lists(Without(table, i), blocks', base)
  {
    var table' := Without(table, i);
    var n := |table| - 1;
    forall a: nat ensures Listed(table', a) <==> IsLive(blocks', base, a) {
      if Listed(table', a) {
        var k :| 0 <= k < |table'| && table'[k] == a;
        assert table[if k == i then n else k] == a;
      }
      if Listed(table, a) && a != table[i] {
        var k :| 0 <= k < |table| && table[k] == a;
        assert table'[if k == n then i else k] == a;
      }
    }
  }
}
