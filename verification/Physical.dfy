/** The physical memory manager (src/boot/phymemmgmt.cpp): a bitmap of pages and nine bitmaps of
    ever larger buddies, kept as bytes. Addresses are page numbers. */
module Physical {
  import opened Options
  import opened Shifts
  import opened BuddyBits

  const PAGE_SIZE: nat := 4096

  // ----- bits of a byte -----

  function Bit(b: bv8, k: nat): bool
    requires k < 8
  {
    b & (1 << k) != 0
  }

  /** Bit k is the binary digit of weight 2^k. */
  lemma BitIsDigit(b: bv8, k: nat)
    requires k < 8
    ensures Bit(b, k) <==> (b >> k) as nat % 2 == 1
  {
    OneShifted(k);
  }

  lemma OneShifted(k: nat)
    requires k < 8
    ensures var m: bv8 := 1 << k;
      m == if k == 0 then 1 else if k == 1 then 2 else if k == 2 then 4 else if k == 3 then 8
           else if k == 4 then 16 else if k == 5 then 32 else if k == 6 then 64 else 128
  {
  }

  /** Masks with one bit each. */
  lemma MasksDiffer(k: nat, j: nat)
    requires k < 8 && j < 8 && j != k
    ensures var m: bv8, n: bv8 := 1 << k, 1 << j; m & n == 0
  {
    OneShifted(k);
    OneShifted(j);
  }

  lemma MaskWritten(b: bv8, m: bv8, n: bv8)
    ensures (b | m) & n == (b & n) | (m & n)
    ensures (b & !m) & n == (b & n) & !(m & n)
  {
  }

  lemma BitWritten(b: bv8, k: nat, j: nat)
    requires k < 8 && j < 8
    ensures Bit(b | (1 << k), j) == (j == k || Bit(b, j))
    ensures Bit(b & !(1 << k), j) == (j != k && Bit(b, j))
  {
    MaskWritten(b, 1 << k, 1 << j);
    if j != k {
      MasksDiffer(k, j);
    } else {
      SameBitWritten(b, k);
    }
  }

  lemma SameBitWritten(b: bv8, k: nat)
    requires k < 8
    ensures Bit(b | (1 << k), k) && !Bit(b & !(1 << k), k)
  {
    OneShifted(k);
  }

  lemma FullByte(b: bv8)
    ensures b == 0xff <==> forall k | 0 <= k < 8 :: Bit(b, k)
  {
    OneShifted(0); OneShifted(1); OneShifted(2); OneShifted(3);
    OneShifted(4); OneShifted(5); OneShifted(6); OneShifted(7);
    if forall k | 0 <= k < 8 :: Bit(b, k) {
      assert Bit(b, 0) && Bit(b, 1) && Bit(b, 2) && Bit(b, 3) && Bit(b, 4) && Bit(b, 5) && Bit(b, 6) && Bit(b, 7);
    } else {
      var k :| 0 <= k < 8 && !Bit(b, k);
      OneShifted(k);
    }
  }

  function WithBit(b: bv8, k: nat, v: bool): bv8
    requires k < 8
  {
    if v then b | (1 << k) else b & !(1 << k)
  }

  lemma WithBitAt(b: bv8, k: nat, v: bool, j: nat)
    requires k < 8 && j < 8
    ensures Bit(WithBit(b, k, v), j) == if j == k then v else Bit(b, j)
  {
    BitWritten(b, k, j);
  }

  /** The bytes hold the bits, lowest bit first. */
  ghost predicate Holds(bytes: seq<bv8>, s: seq<bool>) {
    |bytes| * 8 == |s| &&
    forall byte, bit | 0 <= byte < |bytes| && 0 <= bit < 8 :: Bit(bytes[byte], bit) == s[byte * 8 + bit]
  }

  lemma HoldsWritten(bytes: seq<bv8>, s: seq<bool>, byte: nat, bit: nat, v: bool)
    requires Holds(bytes, s) && bit < 8 && byte * 8 + bit < |s|
    ensures Holds(bytes[byte := WithBit(bytes[byte], bit, v)], s[byte * 8 + bit := v])
  {
    var bytes', s' := bytes[byte := WithBit(bytes[byte], bit, v)], s[byte * 8 + bit := v];
    forall b, i | 0 <= b < |bytes'| && 0 <= i < 8 ensures Bit(bytes'[b], i) == s'[b * 8 + i] {
      if b == byte {
        WithBitAt(bytes[byte], bit, v, i);
      } else {
        assert b * 8 + i != byte * 8 + bit;
        assert Bit(bytes[b], i) == s[b * 8 + i];
      }
    }
  }

  lemma ByteOfLevel(bytes: seq<bv8>, s: seq<bool>, byte: nat)
    requires Holds(bytes, s) && byte < |bytes|
    ensures forall j | byte * 8 <= j < byte * 8 + 8 :: s[j] == Bit(bytes[byte], j - byte * 8)
  {
    forall j | byte * 8 <= j < byte * 8 + 8 ensures s[j] == Bit(bytes[byte], j - byte * 8) {
      var bit := j - byte * 8;
      assert Bit(bytes[byte], bit) == s[byte * 8 + bit];
    }
  }

  method WriteBit(bytes: array<bv8>, byte: nat, bit: nat, v: bool)
    requires byte < bytes.Length && bit < 8
    modifies bytes
    ensures bytes[..] == old(bytes[..])[byte := WithBit(old(bytes[byte]), bit, v)]
  {
    if v {
      bytes[byte] := bytes[byte] | (1 << bit);
    } else {
      bytes[byte] := bytes[byte] & !(1 << bit);
    }
  }

  lemma BuddyInMemory(bits: Bits, total: nat, j: nat, order: nat)
    requires Shaped(bits, total) && order < ORDERS && j < |bits[order]|
    ensures Left(j, order) < total
  {
    LevelSize(bits, total, order);
    LeftAdds(j, 1, order);
    LeftPositive(order);
    LeftMonotone(j + 1, |bits[order]|, order);
  }

  /** The i-th buddy after the one holding a page. */
  lemma BuddyNumber(page: nat, order: nat, i: nat)
    ensures Left(Right(page, order), order) + i * Left(1, order) == Left(Right(page, order) + i, order)
    ensures Right(Left(Right(page, order) + i, order), order) == Right(page, order) + i
  {
    LeftScales(i, order);
    LeftAdds(Right(page, order), i, order);
    RightOfLeft(Right(page, order) + i, order);
  }

  /** A level after its buddies from `first` up to `upto` have been compared with the level below. */
  function Synced(level: seq<bool>, below: seq<bool>, first: nat, upto: nat): (r: seq<bool>)
    ensures |r| == |level|
  {
    seq(|level|, j requires 0 <= j < |level| =>
      level[j] || (first <= j < upto && (At(below, 2 * j) || At(below, 2 * j + 1))))
  }

  lemma SyncedNone(level: seq<bool>, below: seq<bool>, first: nat)
    ensures Synced(level, below, first, first) == level
  {
  }

  lemma SyncedOneMore(level: seq<bool>, below: seq<bool>, first: nat, j: nat)
    requires first <= j < |level| && 2 * j + 2 <= |below|
    ensures var s := Synced(level, below, first, j);
      Synced(level, below, first, j + 1) == if Run(below, 2 * j, 2, false) then s else s[j := true]
  {
    assert Run(below, 2 * j, 2, false) <==> !below[2 * j] && !below[2 * j + 1];
  }

  lemma SyncedAll(bits: Bits, start: nat, count: nat, used: bool, k: nat, below: seq<bool>, lo: nat, hi: nat)
    requires |bits| == ORDERS && 0 < k < ORDERS && count > 0
    requires below == MarkedLevel(bits, start, count, used, k - 1)
    requires lo == Right(start, k) && hi == Right(start + count - 1, k)
    ensures Synced(bits[k], below, lo, hi + 1) == MarkedLevel(bits, start, count, used, k)
  {
  }

  /** The address is a page number; Refused stands for the invalid address with no pages. */
  datatype PageRequestResult = Refused | Granted(page: nat, count: nat)

  lemma ShiftedBit(b: bv8, k: nat)
    requires k < 8
    ensures (b >> k) & 1 != 0 <==> Bit(b, k)
    ensures (b >> k) >> 1 == b >> (k + 1)
  {
    OneShifted(k);
  }

  /** The lowest clear bit of a byte that has one (lines 205-211). */
  method LowestClearBit(b: bv8) returns (bit: nat)
    requires b != 0xff
    ensures bit < 8 && !Bit(b, bit) && forall k | 0 <= k < bit :: Bit(b, k)
  {
    FullByte(b);
    var current := b;
    bit := 0;
    while bit < 8
      invariant bit <= 8 && current == b >> bit && forall k | 0 <= k < bit :: Bit(b, k)
    {
      ShiftedBit(b, bit);
      if current & 1 == 0 {
        break;
      }
      current := current >> 1;
      bit := bit + 1;
    }
  }

  lemma ZeroByte(k: nat)
    requires k < 8
    ensures !Bit(0, k)
  {
    OneShifted(k);
  }

  ghost predicate HoldsClear(bitmap: array<bv8>, n: nat)
    reads bitmap
  {
    Holds(bitmap[..], AllClear(n))
  }

  /** A cleared bitmap of n bits (line 98). */
  method ClearBitmap(n: nat) returns (bitmap: array<bv8>)
    requires n % 8 == 0
    ensures fresh(bitmap) && HoldsClear(bitmap, n)
  {
    bitmap := new bv8[n / 8](_ => 0);
    forall byte, bit | 0 <= byte < n / 8 && 0 <= bit < 8 ensures !Bit(bitmap[byte], bit) {
      ZeroByte(bit);
    }
  }

  /** One cleared bitmap for each order (lines 83-98). */
  method ClearBitmaps(total: nat) returns (maps: seq<array<bv8>>)
    requires forall k | 0 <= k < ORDERS :: Right(total, k) % 8 == 0
    ensures |maps| == ORDERS
    ensures forall k | 0 <= k < ORDERS :: fresh(maps[k]) && HoldsClear(maps[k], Right(total, k))
    ensures forall i, j | 0 <= i < j < ORDERS :: maps[i] != maps[j]
  {
    maps := [];
    for k := 0 to ORDERS
      invariant |maps| == k
      invariant forall i | 0 <= i < k :: fresh(maps[i]) && HoldsClear(maps[i], Right(total, i))
      invariant forall i, j | 0 <= i < j < k :: maps[i] != maps[j]
    {
      var bitmap := ClearBitmap(Right(total, k));
      maps := maps + [bitmap];
    }
  }

  lemma AddressOfPage(page: nat, total: nat)
    ensures page * PAGE_SIZE / PAGE_SIZE == page
    ensures page * PAGE_SIZE >= total * PAGE_SIZE <==> page >= total
  {
  }

  class PhysicalMemory {
    const total: nat
    var available: nat
    const bitmaps: seq<array<bv8>>
    ghost var bits: Bits

    ghost predicate LevelHolds(k: nat)
      requires k < |bitmaps| && k < |bits|
      reads `bits, bitmaps
    {
      Holds(bitmaps[k][..], bits[k])
    }

    /** The bitmaps hold `bits`. */
    ghost predicate Represents()
      reads `bits, bitmaps
    {
      && Shaped(bits, total)
      && |bitmaps| == ORDERS
      && (forall i, j | 0 <= i < j < ORDERS :: bitmaps[i] != bitmaps[j])
      && (forall k {:trigger LevelHolds(k)} | 0 <= k < ORDERS :: LevelHolds(k))
    }

    ghost predicate Valid()
      reads this, bitmaps
    {
      Represents() && Layered(bits) && available == CountClear(bits[0])
    }

    /** The byte and bit of the buddy of an order that holds a page (BuddyBitmapIndex). */
    function BitmapIndex(page: nat, order: nat): (r: Option<(nat, nat)>)
      ensures r.Some? <==> page < total && order < ORDERS
      ensures r.Some? ==> r.value.1 < 8 && r.value.0 * 8 + r.value.1 == Right(page, order)
    {
      if page < total && order < ORDERS then
        var q := Right(page, order);
        Some((q / 8, q - q / 8 * 8))
      else None
    }

    lemma PageInLevel(page: nat, order: nat)
      requires Shaped(bits, total) && page < total && order < ORDERS
      ensures Right(page, order) < |bits[order]|
    {
      LevelSize(bits, total, order);
      RightAtMost(page, |bits[order]|, order);
    }

    /** All pages free; the page count must fill whole bytes at every order (lines 71-98). */
    constructor (total: nat)
      requires total % 4096 == 0
      ensures Valid() && this.total == total && available == total && bits == Cleared(total)
      ensures forall k | 0 <= k < ORDERS :: fresh(bitmaps[k])
    {
      this.total := total;
      available := total;
      bits := Cleared(total);
      ClearedIsLayered(total);
      CountAllClear(Cleared(total)[0]);
      var maps := ClearBitmaps(total);
      bitmaps := maps;
      new;
      forall k | 0 <= k < ORDERS ensures LevelHolds(k) {
        assert HoldsClear(bitmaps[k], Right(total, k));
      }
    }

    method Read(k: nat, byte: nat, bit: nat) returns (v: bool)
      requires Represents() && k < ORDERS && bit < 8 && byte * 8 + bit < |bits[k]|
      ensures v == bits[k][byte * 8 + bit]
    {
      assert LevelHolds(k);
      v := Bit(bitmaps[k][byte], bit);
    }

    method Write(k: nat, byte: nat, bit: nat, v: bool)
      requires Represents() && k < ORDERS && bit < 8 && byte * 8 + bit < |bits[k]|
      modifies bitmaps[k], `bits
      ensures Represents() && bits == old(bits)[k := old(bits)[k][byte * 8 + bit := v]]
    {
      assert forall i | 0 <= i < ORDERS :: LevelHolds(i) && Holds(bitmaps[i][..], bits[i]);
      HoldsWritten(bitmaps[k][..], bits[k], byte, bit, v);
      WriteBit(bitmaps[k], byte, bit, v);
      ghost var bits' := bits[k := bits[k][byte * 8 + bit := v]];
      forall i | 0 < i < ORDERS ensures Halves(bits', i) {
        assert Halves(bits, i);
      }
      bits := bits';
    }

    /** Where the bit of the i-th buddy after the one holding `page` is. */
    method NthIndex(page: nat, order: nat, i: nat) returns (byte: nat, bit: nat)
      requires Represents() && order < ORDERS && Right(page, order) + i < |bits[order]|
      ensures bit < 8 && byte * 8 + bit == Right(page, order) + i
    {
      BuddyNumber(page, order, i);
      BuddyInMemory(bits, total, Right(page, order) + i, order);
      var index := BitmapIndex(Left(Right(page, order), order) + i * Left(1, order), order).value;
      byte, bit := index.0, index.1;
    }

    /** Whether the `count` buddies of an order from the one holding `page` are all used (all free). */
    method AreBuddiesOfType(page: nat, order: nat, count: nat, used: bool) returns (r: bool)
      requires Represents() && order < ORDERS
      requires count == 0 || page >= total || Right(page, order) + count <= |bits[order]|
      ensures r <==> count == 0 || (page < total && Run(bits[order], Right(page, order), count, used))
    {
      if count == 0 {
        return true;
      }
      if page >= total {
        return false;
      }
      var i := 0;
      while i < count
        invariant i <= count && Run(bits[order], Right(page, order), i, used)
      {
        var byte, bit := NthIndex(page, order, i);
        var isUsed := Read(order, byte, bit);
        if isUsed != used {
          return false;
        }
        i := i + 1;
      }
      return true;
    }

    /** Sets or clears one order-0 bit, keeping the count of available pages (lines 277-289). */
    method MarkOne(page: nat, used: bool)
      requires Represents() && available == CountClear(bits[0]) && page < total
      modifies bitmaps[0], `bits, `available
      ensures Represents() && available == CountClear(bits[0])
      ensures bits == old(bits)[0 := old(bits)[0][page := used]]
    {
      var byte, bit := NthIndex(page, 0, 0);
      var currentUsed := Read(0, byte, bit);
      CountClearUpdate(bits[0], page, used);
      Write(0, byte, bit, used);
      if used {
        if !currentUsed {
          available := available - 1;
        }
      } else {
        if currentUsed {
          available := available + 1;
        }
      }
    }

    method MarkEach(page: nat, count: nat, used: bool)
      requires Represents() && available == CountClear(bits[0]) && page + count <= total
      modifies bitmaps[0], `bits, `available
      ensures Represents() && available == CountClear(bits[0])
      ensures bits == old(bits)[0 := MarkedLevel(old(bits), page, count, used, 0)]
    {
      MarkedNone(bits, page, used);
      for i := 0 to count
        invariant Represents() && available == CountClear(bits[0])
        invariant bits == old(bits)[0 := MarkedLevel(old(bits), page, i, used, 0)]
      {
        MarkedOneMore(old(bits), page, i, used);
        MarkOne(page + i, used);
      }
    }

    /** Sets the bits of order `k` over the pages just marked that have a set bit beneath them (lines 295-303). */
    method SyncLevel(k: nat, page: nat, count: nat, ghost orig: Bits, ghost used: bool)
      requires Represents() && 0 < k < ORDERS && 0 < count && page + count <= total
      requires Shaped(orig, total) && bits[k - 1] == MarkedLevel(orig, page, count, used, k - 1) && bits[k] == orig[k]
      modifies bitmaps[k], `bits
      ensures Represents() && bits == old(bits)[k := MarkedLevel(orig, page, count, used, k)]
    {
      ghost var lo, hi := Right(page, k), Right(page + count - 1, k);
      LastBuddy(k, page, count);
      SyncedAll(orig, page, count, used, k, bits[k - 1], lo, hi);
      forall j: nat ensures Left(j, k) < page + count <==> j <= hi {
        RightAtMost(page + count - 1, j, k);
      }
      SyncBuddies(k, Left(Right(page, k), k), page + count, lo, hi);
    }

    method SyncBuddies(k: nat, first: nat, end: nat, ghost lo: nat, ghost hi: nat)
      requires Represents() && 0 < k < ORDERS && first == Left(lo, k)
      requires lo <= hi < |bits[k]| && |bits[k - 1]| == 2 * |bits[k]|
      requires forall j: nat :: Left(j, k) < end <==> j <= hi
      modifies bitmaps[k], `bits
      ensures Represents() && bits == old(bits)[k := Synced(old(bits)[k], old(bits)[k - 1], lo, hi + 1)]
    {
      var current := first;
      ghost var j, level, below := lo, bits[k], bits[k - 1];
      SyncedNone(level, below, lo);
      while current < end
        invariant Represents() && lo <= j <= hi + 1 && current == Left(j, k)
        invariant bits == old(bits)[k := Synced(level, below, lo, j)]
        decreases hi + 1 - j
      {
        SyncOne(k, current, level, lo, j);
        LeftAdds(j, 1, k);
        current := current + Left(1, k);
        j := j + 1;
      }
    }

    method SyncOne(k: nat, current: nat, ghost level: seq<bool>, ghost lo: nat, ghost j: nat)
      requires Represents() && 0 < k < ORDERS && lo <= j < |bits[k]| && |bits[k - 1]| == 2 * |bits[k]|
               && current == Left(j, k)
      requires bits[k] == Synced(level, bits[k - 1], lo, j)
      modifies bitmaps[k], `bits
      ensures Represents() && bits == old(bits)[k := Synced(level, old(bits)[k - 1], lo, j + 1)]
    {
      SyncedOneMore(level, bits[k - 1], lo, j);
      BuddyPair(k, j);
      var bothFree := AreBuddiesOfType(current, k - 1, 2, false);
      if !bothFree {
        SetBuddy(k, current, j);
      }
    }

    method SetBuddy(k: nat, current: nat, ghost j: nat)
      requires Represents() && 0 < k < ORDERS && j < |bits[k]| && Right(current, k) == j
      modifies bitmaps[k], `bits
      ensures Represents() && bits == old(bits)[k := old(bits)[k][j := true]]
    {
      var byte, bit := NthIndex(current, k, 0);
      Write(k, byte, bit, true);
    }

    lemma LastBuddy(k: nat, page: nat, count: nat)
      requires Shaped(bits, total) && 0 < k < ORDERS && 0 < count && page + count <= total
      ensures Right(page, k) <= Right(page + count - 1, k) < |bits[k]| && |bits[k - 1]| == 2 * |bits[k]|
    {
      assert Halves(bits, k);
      RightMonotone(page, page + count - 1, k);
      PageInLevel(page + count - 1, k);
    }

    lemma BuddyPair(k: nat, j: nat)
      requires Shaped(bits, total) && 0 < k < ORDERS && j < |bits[k]|
      ensures Right(Left(j, k), k - 1) == 2 * j && 2 * j + 2 <= |bits[k - 1]| && Left(j, k) < total
      ensures Right(Left(j, k), k) == j
    {
      assert Halves(bits, k);
      LeftDoubles(j, k - 1);
      RightOfLeft(2 * j, k - 1);
      RightOfLeft(j, k);
      BuddyInMemory(bits, total, j, k);
    }

    /** Marks whole pages from an address as used or free; addresses beyond memory are ignored. */
    method MarkPages(address: nat, count: nat, used: bool)
      requires Valid()
      requires count == 0 || address >= total * PAGE_SIZE || address / PAGE_SIZE + count <= total
      modifies this`available, this`bits, bitmaps
      ensures Valid()
      ensures bits == if count == 0 || address >= total * PAGE_SIZE then old(bits)
                      else Marked(old(bits), address / PAGE_SIZE, count, used)
    {
      if count == 0 {
        return;
      }
      if address >= total * PAGE_SIZE {
        return;
      }
      var page := address / PAGE_SIZE;
      MarkEach(page, count, used);
      for k := 1 to ORDERS
        invariant Represents() && available == CountClear(bits[0])
        invariant forall i | 0 <= i < ORDERS ::
                    bits[i] == if i < k then MarkedLevel(old(bits), page, count, used, i) else old(bits)[i]
      {
        SyncLevel(k, page, count, old(bits), used);
      }
      assert bits == Marked(old(bits), page, count, used);
      MarkedKeepsLayers(old(bits), page, count, used, total);
    }

    /** The lowest clear bit of an order, found byte by byte (lines 198-212 and 223-238). */
    method FirstFreeBuddy(k: nat) returns (r: Option<nat>)
      requires Represents() && k < ORDERS
      ensures r.Some? ==> LowestClear(bits[k], r.value)
      ensures r.None? ==> AllSet(bits[k])
    {
      var byte := 0;
      assert LevelHolds(k);
      while byte < bitmaps[k].Length
        invariant byte <= bitmaps[k].Length && forall j | 0 <= j < 8 * byte :: bits[k][j]
      {
        ByteOfLevel(bitmaps[k][..], bits[k], byte);
        if bitmaps[k][byte] != 0xff {
          var bit := LowestClearBit(bitmaps[k][byte]);
          return Some(bit + byte * 8);
        }
        FullByte(bitmaps[k][byte]);
        byte := byte + 1;
      }
      return None;
    }

    /** The first run of `count` free pages from 1 MiB up (lines 149-167). */
    method FindRun(count: nat) returns (start: Option<nat>)
      requires Represents() && 0 < count
      ensures start.Some? ==> IsFirstFit(bits[0], count, start.value)
      ensures start.None? ==> NoFit(bits[0], count)
    {
      var allocateStart := FIRST_PAGE;
      var countedSoFar := 0;
      var page := allocateStart;
      while page < total
        invariant FIRST_PAGE <= allocateStart && allocateStart + countedSoFar == page && countedSoFar < count
        invariant page <= total || page == FIRST_PAGE
        invariant page > FIRST_PAGE ==> Run(bits[0], allocateStart, countedSoFar, false)
        invariant allocateStart == FIRST_PAGE || bits[0][allocateStart - 1]
        invariant forall s | FIRST_PAGE <= s && s + count <= page :: !Run(bits[0], s, count, false)
        decreases total - page
      {
        var byte := page / 8;
        var used := Read(0, byte, page - byte * 8);
        if used {
          countedSoFar := 0;
          allocateStart := page + 1;
        } else {
          countedSoFar := countedSoFar + 1;
          if countedSoFar == count {
            return Some(allocateStart);
          }
        }
        page := page + 1;
      }
      return None;
    }

    /** The order to look for buddies in first (lines 176-193). */
    static method ClosestLevel(count: nat) returns (level: nat)
      requires 0 < count <= Left(1, ORDERS - 1)
      ensures IsClosestLevel(count, level)
    {
      level := 0;
      while level < ORDERS && !(count <= Left(1, level))
        invariant level < ORDERS && (level > 0 ==> Left(1, level - 1) < count)
      {
        level := level + 1;
      }
      var perfectFit := count == Left(1, level);
      if !perfectFit {
        var remaining := count - Left(1, level - 1);
        if remaining < Left(1, level - 2) {
          level := level - 1;
        }
      }
    }

    /** Takes a clear buddy of an order and marks its pages used (lines 212-216 and 238-242). */
    method TakeBuddy(k: nat, j: nat) returns (r: PageRequestResult)
      requires Valid() && k < ORDERS && LowestClear(bits[k], j)
      modifies this`available, this`bits, bitmaps
      ensures Valid() && r == Granted(Left(j, k), Left(1, k))
      ensures Run(old(bits)[0], Left(j, k), Left(1, k), false)
      ensures bits == Marked(old(bits), Left(j, k), Left(1, k), true)
    {
      ClearBuddyIsFree(bits, total, k, j);
      LeftPositive(k);
      var page, count := Left(j, k), Left(1, k);
      AddressOfPage(page, total);
      MarkPages(page * PAGE_SIZE, count, true);
      r := Granted(page, count);
    }

    /** A buddy from the closest order, or the largest one from the orders below (lines 174-245). */
    method RequestBuddy(count: nat) returns (r: PageRequestResult, ghost level: nat, ghost k: nat, ghost j: nat)
      requires Valid() && 0 < count <= available && count <= Left(1, ORDERS - 1)
      modifies this`available, this`bits, bitmaps
      ensures Valid() && IsClosestLevel(count, level) && IsBuddyChoice(old(bits), level, k, j)
      ensures r == Granted(Left(j, k), Left(1, k)) && Run(old(bits)[0], Left(j, k), Left(1, k), false)
      ensures bits == Marked(old(bits), Left(j, k), Left(1, k), true)
    {
      var closestLevel := ClosestLevel(count);
      level := closestLevel;
      var found := FirstFreeBuddy(closestLevel);
      var i: nat := closestLevel;
      while found.None? && i > 0
        invariant Valid() && bits == old(bits) && available == old(available) && i <= closestLevel < |bits|
        invariant forall n | i < n <= closestLevel :: AllSet(bits[n])
        invariant if found.Some? then LowestClear(bits[i], found.value) else AllSet(bits[i])
      {
        i := i - 1;
        found := FirstFreeBuddy(i);
      }
      if found.None? {
        CountClearZero(bits[0]);
        assert false;
      }
      k, j := i, found.value;
      r := TakeBuddy(i, found.value);
    }

    /** Requests pages; `contiguous` is the PhysicalContiguous flag (lines 140-248). */
    method RequestPages(count: nat, contiguous: bool) returns (r: PageRequestResult)
      requires Valid()
      modifies this`available, this`bits, bitmaps
      ensures Valid()
      ensures r.Refused? ==> bits == old(bits)
      ensures r.Refused? <==> count == 0 || count > old(available) || (contiguous && NoFit(old(bits)[0], count)) ||
                              (!contiguous && count > Left(1, ORDERS - 1))
      ensures r.Granted? ==>
                && r.count > 0 && Run(old(bits)[0], r.page, r.count, false)
                && bits == Marked(old(bits), r.page, r.count, true)
      ensures r.Granted? && contiguous ==> r.count == count && IsFirstFit(old(bits)[0], count, r.page)
      ensures r.Granted? && !contiguous ==>
                exists level, k, j :: IsClosestLevel(count, level) && IsBuddyChoice(old(bits), level, k, j) &&
                  r == Granted(Left(j, k), Left(1, k))
      ensures r.Granted? && r.count > count ==> 4 * (r.count - count) <= r.count
    {
      r := Refused;
      if count == 0 || count > available {
        return;
      }
      if contiguous {
        var start := FindRun(count);
        if start.Some? {
          AddressOfPage(start.value, total);
          MarkPages(start.value * PAGE_SIZE, count, true);
          r := Granted(start.value, count);
        }
      } else if count <= Left(1, ORDERS - 1) {
        ghost var level, k, j;
        r, level, k, j := RequestBuddy(count);
        LeftPositive(k);
        if Left(1, k) > count {
          WasteBound(count, level, k);
        }
      }
    }
  }
}
