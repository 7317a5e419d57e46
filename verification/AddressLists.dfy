/** Address-space lists as values (src/boot/virtualmemmgmt.cpp, lines 283-482): blocks of pages,
    and the sequence of used pages that a list encodes. Addresses are page numbers. */
module AddressLists {
  import opened Shifts
  import opened BuddyBits

  /** The pages of a 64-bit address space. */
  const PAGES: nat := 0x10_0000_0000_0000

  datatype Block = Block(available: bool, base: nat, pageCount: nat)

  type List = seq<Block>

  function Last(list: List): Block
    requires list != []
  {
    list[|list| - 1]
  }

  function Repeat(v: bool, n: nat): (s: seq<bool>)
    ensures |s| == n && forall i | 0 <= i < n :: s[i] == v
  {
    seq(n, _ => v)
  }

  /** For each page that the list covers, whether it is in use. */
  ghost function Usage(list: List): seq<bool> {
    if list == [] then [] else Usage(list[..|list| - 1]) + Repeat(!Last(list).available, Last(list).pageCount)
  }

  /** Every block begins where the one before it ends. */
  ghost predicate Chained(list: List, origin: nat) {
    forall i | 0 <= i < |list| :: BeginsAt(list, origin, i)
  }

  ghost predicate BeginsAt(list: List, origin: nat, i: nat)
    requires i < |list|
  {
    list[i].base == origin + |Usage(list[..i])|
  }

  predicate NoneZero(list: List) {
    forall i | 0 <= i < |list| :: list[i].pageCount > 0
  }

  predicate Alternating(list: List) {
    forall i | 0 < i < |list| :: Differs(list, i)
  }

  predicate Differs(list: List, i: nat)
    requires 0 < i < |list|
  {
    list[i - 1].available != list[i].available
  }

  /** The list encodes its usage with as few blocks as possible. */
  ghost predicate Canonical(list: List, origin: nat) {
    Chained(list, origin) && NoneZero(list) && Alternating(list)
  }

  // ----- usage and blocks -----

  lemma {:induction false} UsageConcat(a: List, b: List)
    ensures Usage(a + b) == Usage(a) + Usage(b)
  {
    if b == [] {
      assert a + b == a;
    } else {
      assert (a + b)[..|a + b| - 1] == a + b[..|b| - 1];
      UsageConcat(a, b[..|b| - 1]);
    }
  }

  lemma UsageOne(b: Block)
    ensures Usage([b]) == Repeat(!b.available, b.pageCount)
  {
    assert [b][..0] == [];
  }

  lemma UsageSplit(list: List, i: nat)
    requires i < |list|
    ensures Usage(list) == Usage(list[..i]) + Repeat(!list[i].available, list[i].pageCount) + Usage(list[i + 1..])
    ensures Usage(list[..i + 1]) == Usage(list[..i]) + Repeat(!list[i].available, list[i].pageCount)
  {
    TakeOneMore(list, i);
    UsageConcat(list[..i + 1], list[i + 1..]);
    UsageConcat(list[..i], [list[i]]);
    UsageOne(list[i]);
  }

  lemma UsageAppend(list: List, b: Block)
    ensures Usage(list + [b]) == Usage(list) + Repeat(!b.available, b.pageCount)
  {
    assert (list + [b])[..|list|] == list;
  }

  lemma TakeOneMore<T>(s: seq<T>, i: nat)
    requires i < |s|
    ensures s == s[..i + 1] + s[i + 1..] && s[..i + 1] == s[..i] + [s[i]]
  {
  }

  /** A list with a block replaced by others that are as long together. */
  lemma ReplacedUsage(list: List, i: nat, mid: List)
    requires i < |list|
    ensures Usage(list[..i] + mid + list[i + 1..]) == Usage(list[..i]) + Usage(mid) + Usage(list[i + 1..])
  {
    UsageConcat(list[..i] + mid, list[i + 1..]);
    UsageConcat(list[..i], mid);
  }

  /** The usage of a list, and of the list with a block replaced, in three parts. */
  lemma UsageInParts(list: List, i: nat, mid: List)
    requires i < |list|
    ensures Usage(list) == Usage(list[..i]) + Repeat(!list[i].available, list[i].pageCount) + Usage(list[i + 1..])
    ensures Usage(list[..i] + mid + list[i + 1..]) == Usage(list[..i]) + Usage(mid) + Usage(list[i + 1..])
  {
    ReplacedUsage(list, i, mid);
    UsageSplit(list, i);
  }

  /** The pages of block i are used or free as the block says. */
  lemma BlockRun(list: List, origin: nat, i: nat)
    requires Chained(list, origin) && i < |list|
    ensures origin <= list[i].base && Run(Usage(list), list[i].base - origin, list[i].pageCount, !list[i].available)
  {
    UsageSplit(list, i);
    assert BeginsAt(list, origin, i);
  }

  /** A block ends no later than the next one begins. */
  lemma BlocksInOrder(list: List, origin: nat, i: nat, j: nat)
    requires Chained(list, origin) && i < j < |list|
    ensures list[i].base + list[i].pageCount <= list[j].base
  {
    assert BeginsAt(list, origin, i) && BeginsAt(list, origin, j);
    UsageSplit(list, i);
    assert list[..j] == list[..i + 1] + list[i + 1..j];
    UsageConcat(list[..i + 1], list[i + 1..j]);
  }

  lemma LastEnds(list: List, origin: nat)
    requires Chained(list, origin) && list != []
    ensures Last(list).base + Last(list).pageCount == origin + |Usage(list)|
  {
    assert BeginsAt(list, origin, |list| - 1);
  }

  lemma ChainedPrefix(list: List, origin: nat, n: nat)
    requires Chained(list, origin) && n <= |list|
    ensures Chained(list[..n], origin)
  {
    forall i | 0 <= i < n ensures BeginsAt(list[..n], origin, i) {
      assert BeginsAt(list, origin, i) && list[..n][..i] == list[..i];
    }
  }

  lemma AlternatingPrefix(list: List, n: nat)
    requires Alternating(list) && n <= |list|
    ensures Alternating(list[..n])
  {
    forall i | 0 < i < n ensures Differs(list[..n], i) {
      assert Differs(list, i);
    }
  }

  lemma ChainedAppend(list: List, origin: nat, b: Block)
    requires Chained(list, origin) && b.base == origin + |Usage(list)|
    ensures Chained(list + [b], origin)
  {
    forall i | 0 <= i < |list| + 1 ensures BeginsAt(list + [b], origin, i) {
      assert (list + [b])[..i] == if i == |list| then list else list[..i];
      assert i < |list| ==> BeginsAt(list, origin, i);
    }
  }

  lemma {:induction false} ChainedConcat(a: List, b: List, origin: nat)
    requires Chained(a, origin) && Chained(b, origin + |Usage(a)|)
    ensures Chained(a + b, origin)
  {
    if b == [] {
      assert a + b == a;
    } else {
      var n := |b| - 1;
      ChainedPrefix(b, origin + |Usage(a)|, n);
      ChainedConcat(a, b[..n], origin);
      UsageConcat(a, b[..n]);
      assert BeginsAt(b, origin + |Usage(a)|, n);
      ChainedAppend(a + b[..n], origin, b[n]);
      assert a + b[..n] + [b[n]] == a + b;
    }
  }

  lemma ChainedSuffix(list: List, origin: nat, n: nat)
    requires Chained(list, origin) && n <= |list|
    ensures Chained(list[n..], origin + |Usage(list[..n])|)
  {
    var start := origin + |Usage(list[..n])|;
    forall i | 0 <= i < |list| - n ensures BeginsAt(list[n..], start, i) {
      assert BeginsAt(list, origin, n + i);
      assert list[..n + i] == list[..n] + list[n..][..i];
      UsageConcat(list[..n], list[n..][..i]);
    }
  }

  lemma SameLength(list: List, i: nat, mid: List)
    requires i < |list| && |Usage(mid)| == list[i].pageCount
    ensures |Usage(list[..i] + mid)| == |Usage(list[..i + 1])|
  {
    UsageConcat(list[..i], mid);
    UsageSplit(list, i);
  }

  lemma ReplacedChained(list: List, origin: nat, i: nat, mid: List)
    requires Chained(list, origin) && i < |list|
    requires Chained(mid, list[i].base) && |Usage(mid)| == list[i].pageCount
    ensures Chained(list[..i] + mid + list[i + 1..], origin)
  {
    assert BeginsAt(list, origin, i);
    ChainedPrefix(list, origin, i);
    ChainedConcat(list[..i], mid, origin);
    SameLength(list, i, mid);
    ChainedSuffix(list, origin, i + 1);
    ChainedConcat(list[..i] + mid, list[i + 1..], origin);
  }

  // ----- the encoding is unique -----

  /** Two canonical lists of the same pages with the same usage are equal. */
  lemma {:induction false} EncodingIsUnique(a: List, b: List, origin: nat)
    requires Canonical(a, origin) && Canonical(b, origin) && Usage(a) == Usage(b)
    ensures a == b
    decreases |a|
  {
    NotEmpty(a);
    NotEmpty(b);
    if a != [] && b != [] {
      var m, n := |a| - 1, |b| - 1;
      LastBlocksEqual(a, b, origin);
      ChainedPrefix(a, origin, m);
      ChainedPrefix(b, origin, n);
      AlternatingPrefix(a, m);
      AlternatingPrefix(b, n);
      assert Usage(a)[..|Usage(a[..m])|] == Usage(a[..m]) && Usage(b)[..|Usage(b[..n])|] == Usage(b[..n]);
      EncodingIsUnique(a[..m], b[..n], origin);
      assert a == a[..m] + [a[m]] && b == b[..n] + [b[n]];
    }
  }

  lemma NotEmpty(list: List)
    requires NoneZero(list)
    ensures Usage(list) == [] <==> list == []
  {
  }

  lemma LastBlocksEqual(a: List, b: List, origin: nat)
    requires Canonical(a, origin) && Canonical(b, origin) && Usage(a) == Usage(b) && a != [] && b != []
    ensures Last(a) == Last(b)
  {
    var total := |Usage(a)|;
    assert Usage(a)[total - 1] == !Last(a).available && Usage(b)[total - 1] == !Last(b).available;
    LastNotLonger(a, b, origin);
    LastNotLonger(b, a, origin);
    LastEnds(a, origin);
    LastEnds(b, origin);
  }

  lemma LastNotLonger(a: List, b: List, origin: nat)
    requires Canonical(a, origin) && Canonical(b, origin) && Usage(a) == Usage(b) && a != [] && b != []
    requires Last(a).available == Last(b).available
    ensures Last(b).pageCount <= Last(a).pageCount
  {
    var m := |a| - 1;
    var p := |Usage(a[..m])|;
    if a[..m] != [] {
      assert Last(a[..m]) == a[m - 1] && Differs(a, m);
      assert Usage(a)[p - 1] == Usage(a[..m])[p - 1] == !a[m - 1].available;
    }
  }

  // ----- defragmentation (lines 429-450) -----

  /** Without the blocks of no pages. */
  function DropEmpty(list: List): List {
    if list == [] then []
    else DropEmpty(list[..|list| - 1]) + if Last(list).pageCount == 0 then [] else [Last(list)]
  }

  /** Neighbours of the same kind merged. */
  function Merge(list: List): (r: List)
    ensures r == [] <==> list == []
  {
    if list == [] then [] else MergeOne(Merge(list[..|list| - 1]), Last(list))
  }

  function MergeOne(merged: List, b: Block): (r: List)
    ensures r != []
  {
    if merged != [] && Last(merged).available == b.available
    then merged[..|merged| - 1] + [Last(merged).(pageCount := Last(merged).pageCount + b.pageCount)]
    else merged + [b]
  }

  function Defragmented(list: List): List {
    Merge(DropEmpty(list))
  }

  lemma {:induction false} DropEmptyKeeps(list: List, origin: nat)
    ensures Usage(DropEmpty(list)) == Usage(list) && NoneZero(DropEmpty(list))
    ensures Chained(list, origin) ==> Chained(DropEmpty(list), origin)
  {
    if list != [] {
      var n := |list| - 1;
      DropEmptyKeeps(list[..n], origin);
      if list[n].pageCount == 0 {
        assert Usage(list) == Usage(list[..n]);
        assert DropEmpty(list) == DropEmpty(list[..n]);
      } else {
        UsageAppend(DropEmpty(list[..n]), list[n]);
      }
      if Chained(list, origin) {
        ChainedPrefix(list, origin, n);
        assert BeginsAt(list, origin, n);
        ChainedAppend(DropEmpty(list[..n]), origin, list[n]);
      }
    }
  }

  lemma {:induction false} MergeKeeps(list: List, origin: nat)
    requires NoneZero(list)
    ensures Usage(Merge(list)) == Usage(list) && NoneZero(Merge(list)) && Alternating(Merge(list))
    ensures Chained(list, origin) ==> Chained(Merge(list), origin)
  {
    if list != [] {
      var n := |list| - 1;
      MergeKeeps(list[..n], origin);
      MergeOneKeeps(Merge(list[..n]), list[n], origin);
      if Chained(list, origin) {
        ChainedPrefix(list, origin, n);
        assert BeginsAt(list, origin, n);
      }
    }
  }

  lemma MergeOneKeeps(merged: List, b: Block, origin: nat)
    requires NoneZero(merged) && Alternating(merged) && b.pageCount > 0
    ensures Usage(MergeOne(merged, b)) == Usage(merged) + Repeat(!b.available, b.pageCount)
    ensures NoneZero(MergeOne(merged, b)) && Alternating(MergeOne(merged, b))
    ensures Chained(merged, origin) && b.base == origin + |Usage(merged)| ==> Chained(MergeOne(merged, b), origin)
  {
    MergeOneUsage(merged, b);
    MergeOneShape(merged, b);
    if Chained(merged, origin) && b.base == origin + |Usage(merged)| {
      MergeOneChained(merged, b, origin);
    }
  }

  lemma MergeOneUsage(merged: List, b: Block)
    ensures Usage(MergeOne(merged, b)) == Usage(merged) + Repeat(!b.available, b.pageCount)
  {
    var r := MergeOne(merged, b);
    if merged != [] && Last(merged).available == b.available {
      var m := |merged| - 1;
      assert r[..m] == merged[..m];
      RepeatConcat(!b.available, merged[m].pageCount, b.pageCount);
    } else {
      UsageAppend(merged, b);
    }
  }

  lemma RepeatConcat(v: bool, m: nat, n: nat)
    ensures Repeat(v, m + n) == Repeat(v, m) + Repeat(v, n)
  {
  }

  lemma MergeOneShape(merged: List, b: Block)
    requires NoneZero(merged) && Alternating(merged) && b.pageCount > 0
    ensures NoneZero(MergeOne(merged, b)) && Alternating(MergeOne(merged, b))
  {
    forall i | 0 < i < |MergeOne(merged, b)| ensures Differs(MergeOne(merged, b), i) {
      assert i < |merged| ==> Differs(merged, i);
    }
  }

  lemma MergeOneChained(merged: List, b: Block, origin: nat)
    requires Chained(merged, origin) && b.base == origin + |Usage(merged)|
    ensures Chained(MergeOne(merged, b), origin)
  {
    if merged != [] && Last(merged).available == b.available {
      var m := |merged| - 1;
      ChainedPrefix(merged, origin, m);
      assert BeginsAt(merged, origin, m);
      ChainedAppend(merged[..m], origin, Last(MergeOne(merged, b)));
    } else {
      ChainedAppend(merged, origin, b);
    }
  }

  /** Defragmenting a chained list gives the canonical list of the same usage. */
  lemma DefragmentedIsCanonical(list: List, origin: nat)
    requires Chained(list, origin)
    ensures Canonical(Defragmented(list), origin) && Usage(Defragmented(list)) == Usage(list)
  {
    DropEmptyKeeps(list, origin);
    MergeKeeps(DropEmpty(list), origin);
  }

  // ----- the integrity check (lines 452-482) -----

  /** The pages counted by the check: those of available blocks, and those of the last block. */
  function Counted(list: List, n: nat): nat
    requires n <= |list|
  {
    if n == 0 then 0 else Counted(list, n - 1) + if list[n - 1].available then list[n - 1].pageCount else 0
  }

  /** Block i and the next differ in kind, and the next begins where i ends, modulo 2^64 bytes. */
  predicate Follows(list: List, i: nat)
    requires i + 1 < |list|
  {
    && list[i].pageCount != 0
    && list[i].available != list[i + 1].available
    && list[i + 1].base == (list[i].base + list[i].pageCount) % PAGES
  }

  predicate Sound(list: List, origin: nat, available: nat) {
    && list != [] && list[0].base == origin
    && (forall i | 0 <= i < |list| - 1 :: Follows(list, i))
    && Last(list).pageCount != 0
    && Counted(list, |list| - 1) + Last(list).pageCount == available
  }

  lemma {:induction false} CountedIsClear(list: List, n: nat)
    requires n <= |list|
    ensures Counted(list, n) == CountClear(Usage(list[..n]))
  {
    if n > 0 {
      CountedIsClear(list, n - 1);
      assert list[..n][..n - 1] == list[..n - 1];
      CountClearConcat(Usage(list[..n - 1]), Repeat(!list[n - 1].available, list[n - 1].pageCount));
      CountClearRepeat(!list[n - 1].available, list[n - 1].pageCount);
    }
  }

  /** How many pages the blocks say are available. */
  function FreeCount(list: List): nat {
    Counted(list, |list|)
  }

  /** It is the number of pages that are not in use. */
  lemma FreeCountIsClear(list: List)
    ensures FreeCount(list) == CountClear(Usage(list))
  {
    CountedIsClear(list, |list|);
    assert list[..|list|] == list;
  }

  lemma {:induction false} CountFits(list: List, n: nat, i: nat)
    requires i < n <= |list| && list[i].available
    ensures list[i].pageCount <= Counted(list, n)
  {
    if i < n - 1 {
      CountFits(list, n - 1, i);
    }
  }

  lemma {:induction false} CountClearConcat(a: seq<bool>, b: seq<bool>)
    ensures CountClear(a + b) == CountClear(a) + CountClear(b)
  {
    if b == [] {
      assert a + b == a;
    } else {
      assert (a + b)[..|a + b| - 1] == a + b[..|b| - 1];
      CountClearConcat(a, b[..|b| - 1]);
    }
  }

  lemma {:induction false} CountClearRepeat(v: bool, n: nat)
    ensures CountClear(Repeat(v, n)) == if v then 0 else n
  {
    if n > 0 {
      CountClearRepeat(v, n - 1);
      assert Repeat(v, n)[..n - 1] == Repeat(v, n - 1);
    }
  }

  /** For a canonical list below 2^64 bytes with the right counter, the check comes down to whether
      the last block is available. */
  lemma SoundMeansLastAvailable(list: List, origin: nat, available: nat)
    requires Canonical(list, origin) && list != [] && origin + |Usage(list)| <= PAGES && available == FreeCount(list)
    ensures Sound(list, origin, available) <==> Last(list).available
  {
    forall i | 0 <= i < |list| - 1 ensures Follows(list, i) {
      NextFollows(list, origin, i);
    }
    assert BeginsAt(list, origin, 0) && list[..0] == [];
  }

  lemma NextFollows(list: List, origin: nat, i: nat)
    requires Canonical(list, origin) && i + 1 < |list| && origin + |Usage(list)| <= PAGES
    ensures Follows(list, i)
  {
    NextBegins(list, origin, i);
    assert Differs(list, i + 1);
  }

  lemma NextBegins(list: List, origin: nat, i: nat)
    requires Chained(list, origin) && NoneZero(list) && i + 1 < |list| && origin + |Usage(list)| <= PAGES
    ensures list[i + 1].base == list[i].base + list[i].pageCount < PAGES
  {
    UsageSplit(list, i);
    assert BeginsAt(list, origin, i) && BeginsAt(list, origin, i + 1);
    BlocksInOrder(list, origin, i, i + 1);
    BlockRun(list, origin, i + 1);
    assert list[i + 1].pageCount > 0;
  }

  lemma UsageGrows(list: List, i: nat)
    requires i < |list|
    ensures |Usage(list[..i + 1])| == |Usage(list[..i])| + list[i].pageCount
  {
    assert list[..i + 1][..i] == list[..i];
  }

  lemma {:induction false} FollowsChains(list: List, origin: nat, i: nat)
    requires i < |list| && list[0].base == origin
    requires forall k | 0 <= k < i :: list[k + 1].base == list[k].base + list[k].pageCount
    ensures BeginsAt(list, origin, i)
    decreases i
  {
    if i > 0 {
      FollowsChains(list, origin, i - 1);
      UsageGrows(list, i - 1);
    } else {
      assert list[..0] == [];
    }
  }

  lemma ChainFollows(list: List, origin: nat, i: nat)
    requires Chained(list, origin) && i + 1 < |list|
    ensures list[i + 1].base == list[i].base + list[i].pageCount
  {
    assert BeginsAt(list, origin, i) && BeginsAt(list, origin, i + 1);
    UsageGrows(list, i);
  }

  /** For any list whose blocks, but perhaps for the last, end below 2^64 bytes, the check says whether
      the list is canonical and the counter is that of the available pages, those of the last block
      counted as available. */
  lemma SoundIff(list: List, origin: nat, available: nat)
    requires list != [] && forall i | 0 <= i < |list| - 1 :: list[i].base + list[i].pageCount < PAGES
    ensures Sound(list, origin, available) <==>
            && Canonical(list, origin)
            && available == FreeCount(list) + if Last(list).available then 0 else Last(list).pageCount
  {
    if Sound(list, origin, available) {
      forall i | 0 <= i < |list| ensures BeginsAt(list, origin, i) && (i > 0 ==> Differs(list, i)) {
        forall k | 0 <= k < i ensures list[k + 1].base == list[k].base + list[k].pageCount {
          assert Follows(list, k);
        }
        FollowsChains(list, origin, i);
        assert i > 0 ==> Follows(list, i - 1);
      }
      forall i | 0 <= i < |list| ensures list[i].pageCount > 0 {
        assert i < |list| - 1 ==> Follows(list, i);
      }
    }
    if Canonical(list, origin) {
      forall i | 0 <= i < |list| - 1 ensures Follows(list, i) {
        ChainFollows(list, origin, i);
        assert Differs(list, i + 1);
      }
      assert BeginsAt(list, origin, 0) && list[..0] == [];
    }
  }

  // ----- changing the usage of a range -----

  /** The pages from `first` become used (v) or free (not v). */
  function Filled(s: seq<bool>, first: nat, count: nat, v: bool): (r: seq<bool>)
    requires first + count <= |s|
    ensures |r| == |s|
  {
    s[..first] + Repeat(v, count) + s[first + count..]
  }

  lemma CountClearFilled(s: seq<bool>, first: nat, count: nat, v: bool)
    requires Run(s, first, count, !v)
    ensures CountClear(Filled(s, first, count, v)) == if v then CountClear(s) - count else CountClear(s) + count
  {
    assert s == s[..first] + Repeat(!v, count) + s[first + count..];
    CountClearConcat(s[..first] + Repeat(v, count), s[first + count..]);
    CountClearConcat(s[..first], Repeat(v, count));
    CountClearConcat(s[..first] + Repeat(!v, count), s[first + count..]);
    CountClearConcat(s[..first], Repeat(!v, count));
    CountClearRepeat(v, count);
    CountClearRepeat(!v, count);
  }

  /** Filling part of a run that is the other way. */
  lemma FilledMiddle(s: seq<bool>, s': seq<bool>, a: seq<bool>, run: seq<bool>, run': seq<bool>, c: seq<bool>,
                     x: nat, count: nat, n: nat, v: bool)
    requires x + count <= n && s == a + run + c && run == Repeat(!v, n)
    requires s' == a + run' + c && run' == Repeat(!v, x) + Repeat(v, count) + Repeat(!v, n - x - count)
    ensures |a| + x + count <= |s| && Run(s, |a| + x, count, !v)
    ensures s' == Filled(s, |a| + x, count, v)
  {
    assert s[..|a| + x] == a + Repeat(!v, x);
    assert s[|a| + x + count..] == Repeat(!v, n - x - count) + c;
  }

  /** Part of a run of pages goes the other way. */
  lemma FilledParts(s: seq<bool>, s': seq<bool>, a: seq<bool>, flag: bool, mid: seq<bool>, c: seq<bool>,
                    x: nat, count: nat, n: nat, v: bool)
    requires flag == !v && x + count <= n && s == a + Repeat(flag, n) + c && s' == a + mid + c
    requires mid == Repeat(!v, x) + Repeat(v, count) + Repeat(!v, n - x - count)
    ensures |a| + x + count <= |s| && Run(s, |a| + x, count, !v) && s' == Filled(s, |a| + x, count, v)
  {
    FilledMiddle(s, s', a, Repeat(flag, n), mid, c, x, count, n, v);
  }

  lemma CountFilled(s: seq<bool>, s': seq<bool>, first: nat, count: nat, v: bool)
    requires Run(s, first, count, !v) && s' == Filled(s, first, count, v)
    ensures |s'| == |s| && if v then CountClear(s') + count == CountClear(s)
                           else CountClear(s') == CountClear(s) + count
  {
    CountClearFilled(s, first, count, v);
    CountClearPositive(s, first, count, v);
  }

  lemma CountFlipped(list: List, list': List, first: nat, count: nat, v: bool)
    requires Run(Usage(list), first, count, !v) && Usage(list') == Filled(Usage(list), first, count, v)
    ensures if v then FreeCount(list') + count == FreeCount(list) else FreeCount(list') == FreeCount(list) + count
  {
    FreeCountIsClear(list);
    FreeCountIsClear(list');
    CountFilled(Usage(list), Usage(list'), first, count, v);
  }

  lemma CountClearPositive(s: seq<bool>, first: nat, count: nat, v: bool)
    requires Run(s, first, count, !v)
    ensures v ==> CountClear(s) >= count
  {
    assert s == s[..first] + Repeat(!v, count) + s[first + count..];
    CountClearConcat(s[..first] + Repeat(!v, count), s[first + count..]);
    CountClearConcat(s[..first], Repeat(!v, count));
    CountClearRepeat(!v, count);
  }

  lemma FilledBack(s: seq<bool>, first: nat, count: nat, v: bool)
    requires Run(s, first, count, !v)
    ensures Filled(Filled(s, first, count, v), first, count, !v) == s
    ensures Run(Filled(s, first, count, v), first, count, v)
  {
  }
}
