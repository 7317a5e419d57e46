/** The buddy bitmaps of the physical memory manager as values, and what marking pages does to them
    (src/boot/phymemmgmt.cpp). Bit j of level k stands for the 2^k pages from j * 2^k; set is used. */
module BuddyBits {
  import opened Shifts

  const ORDERS: nat := 10

  type Bits = seq<seq<bool>>

  ghost predicate Halves(bits: Bits, k: nat)
    requires 0 < k < |bits|
  {
    |bits[k - 1]| == 2 * |bits[k]|
  }

  /** Each level has half as many bits as the one below; order 0 has one for each page. */
  ghost predicate Shaped(bits: Bits, total: nat) {
    && |bits| == ORDERS
    && |bits[0]| == total
    && forall k | 0 < k < ORDERS :: Halves(bits, k)
  }

  lemma {:induction false} LevelSize(bits: Bits, total: nat, k: nat)
    requires Shaped(bits, total) && k < ORDERS
    ensures |bits[k]| == Right(total, k) && Left(|bits[k]|, k) == total
    decreases k
  {
    if k > 0 {
      LevelSize(bits, total, k - 1);
      assert Halves(bits, k);
      LeftDoubles(|bits[k]|, k - 1);
    }
  }

  /** The `count` bits from `first` are all `v`. */
  predicate Run(s: seq<bool>, first: nat, count: nat, v: bool) {
    first + count <= |s| && forall i | first <= i < first + count :: s[i] == v
  }

  /** Bit j of level k, if clear, has two clear bits below it. */
  ghost predicate Consistent(bits: Bits, k: nat, j: nat)
    requires 0 < k < |bits| && j < |bits[k]|
  {
    bits[k][j] || (2 * j + 1 < |bits[k - 1]| && !bits[k - 1][2 * j] && !bits[k - 1][2 * j + 1])
  }

  ghost predicate Layered(bits: Bits) {
    |bits| == ORDERS && forall k, j | 0 < k < ORDERS && 0 <= j < |bits[k]| :: Consistent(bits, k, j)
  }

  /** A clear bit at order k means that all 2^k pages beneath it are free. */
  lemma {:induction false} ClearMeansFree(bits: Bits, k: nat, j: nat, p: nat)
    requires Layered(bits) && k < ORDERS && j < |bits[k]| && !bits[k][j]
    requires Right(p, k) == j
    ensures p < |bits[0]| && !bits[0][p]
    decreases k
  {
    if k > 0 {
      assert Consistent(bits, k, j);
      ClearMeansFree(bits, k - 1, Right(p, k - 1), p);
    }
  }

  /** The buddies of order k that the sync of pages start .. start + count - 1 visits. */
  predicate Touched(k: nat, j: nat, start: nat, count: nat) {
    count > 0 && Right(start, k) <= j <= Right(start + count - 1, k)
  }

  /** Level k after marking: order 0 takes the new value; above, a visited bit with a set bit below
      it becomes set, and nothing is ever cleared. */
  function MarkedLevel(bits: Bits, start: nat, count: nat, used: bool, k: nat): (r: seq<bool>)
    requires k < |bits| == ORDERS
    ensures |r| == |bits[k]|
    decreases k
  {
    if k == 0 then
      seq(|bits[0]|, p requires 0 <= p < |bits[0]| => if start <= p < start + count then used else bits[0][p])
    else
      var below := MarkedLevel(bits, start, count, used, k - 1);
      seq(|bits[k]|, j requires 0 <= j < |bits[k]| =>
        bits[k][j] || (Touched(k, j, start, count) && (At(below, 2 * j) || At(below, 2 * j + 1))))
  }

  function At(s: seq<bool>, i: nat): bool {
    i < |s| && s[i]
  }

  function Marked(bits: Bits, start: nat, count: nat, used: bool): (r: Bits)
    requires |bits| == ORDERS
    ensures |r| == ORDERS
  {
    seq(ORDERS, k requires 0 <= k < ORDERS => MarkedLevel(bits, start, count, used, k))
  }

  lemma MarkedOneMore(bits: Bits, start: nat, count: nat, used: bool)
    requires |bits| == ORDERS && start + count < |bits[0]|
    ensures MarkedLevel(bits, start, count + 1, used, 0)
            == MarkedLevel(bits, start, count, used, 0)[start + count := used]
  {
  }

  lemma MarkedNone(bits: Bits, start: nat, used: bool)
    requires |bits| == ORDERS
    ensures MarkedLevel(bits, start, 0, used, 0) == bits[0]
  {
  }

  /** What one page's bit becomes. */
  lemma MarkedPage(bits: Bits, start: nat, count: nat, used: bool, p: nat)
    requires |bits| == ORDERS && p < |bits[0]|
    ensures |Marked(bits, start, count, used)[0]| == |bits[0]|
    ensures Marked(bits, start, count, used)[0][p] == if start <= p < start + count then used else bits[0][p]
  {
  }

  /** Marking pages as used or as free keeps the layers consistent. */
  lemma MarkedKeepsLayers(bits: Bits, start: nat, count: nat, used: bool, total: nat)
    requires Shaped(bits, total) && Layered(bits)
    ensures Shaped(Marked(bits, start, count, used), total) && Layered(Marked(bits, start, count, used))
  {
    var bits' := Marked(bits, start, count, used);
    forall k | 0 < k < ORDERS ensures Halves(bits', k) {
      assert Halves(bits, k);
    }
    forall k, j | 0 < k < ORDERS && 0 <= j < |bits'[k]| ensures Consistent(bits', k, j) {
      assert Halves(bits, k);
      MarkedKeepsPair(bits, start, count, used, k, j);
    }
  }

  lemma MarkedKeepsPair(bits: Bits, start: nat, count: nat, used: bool, k: nat, j: nat)
    requires Layered(bits) && 0 < k < ORDERS && j < |bits[k]| && 2 * j + 1 < |bits[k - 1]|
    ensures Consistent(Marked(bits, start, count, used), k, j)
  {
    assert Consistent(bits, k, j);
    if !Touched(k, j, start, count) {
      assert !Touched(k - 1, 2 * j, start, count) && !Touched(k - 1, 2 * j + 1, start, count);
      UntouchedKept(bits, start, count, used, k - 1, 2 * j);
      UntouchedKept(bits, start, count, used, k - 1, 2 * j + 1);
    }
  }

  lemma UntouchedKept(bits: Bits, start: nat, count: nat, used: bool, k: nat, j: nat)
    requires |bits| == ORDERS && k < ORDERS && j < |bits[k]| && !Touched(k, j, start, count)
    ensures MarkedLevel(bits, start, count, used, k)[j] == bits[k][j]
  {
  }

  /** No bit of order k was cleared. */
  ghost predicate LevelOnlySet(bits: Bits, bits': Bits, k: nat)
    requires k < |bits| && k < |bits'|
  {
    |bits'[k]| == |bits[k]| && forall j | 0 <= j < |bits[k]| :: bits[k][j] ==> bits'[k][j]
  }

  /** No bit was cleared. */
  ghost predicate OnlySet(bits: Bits, bits': Bits) {
    && |bits'| == |bits|
    && forall k {:trigger LevelOnlySet(bits, bits', k)} | 0 <= k < |bits| :: LevelOnlySet(bits, bits', k)
  }

  lemma OnlySetReflexive(bits: Bits)
    ensures OnlySet(bits, bits)
  {
  }

  lemma OnlySetTransitive(bits: Bits, bits': Bits, bits'': Bits)
    requires OnlySet(bits, bits') && OnlySet(bits', bits'')
    ensures OnlySet(bits, bits'')
  {
    forall k | 0 <= k < |bits| ensures LevelOnlySet(bits, bits'', k) {
      assert LevelOnlySet(bits, bits', k) && LevelOnlySet(bits', bits'', k);
    }
  }

  lemma MarkedOnlySets(bits: Bits, start: nat, count: nat)
    requires |bits| == ORDERS
    ensures OnlySet(bits, Marked(bits, start, count, true))
  {
    forall k | 0 <= k < |bits| ensures LevelOnlySet(bits, Marked(bits, start, count, true), k) {
    }
  }

  // ----- choosing pages -----

  const FIRST_PAGE: nat := 256

  /** The lowest start at or above 1 MiB of a run of free pages. */
  ghost predicate IsFirstFit(pages: seq<bool>, count: nat, start: nat) {
    && FIRST_PAGE <= start && Run(pages, start, count, false)
    && forall s | FIRST_PAGE <= s < start :: !Run(pages, s, count, false)
  }

  ghost predicate NoFit(pages: seq<bool>, count: nat) {
    forall s | FIRST_PAGE <= s :: !Run(pages, s, count, false)
  }

  lemma NoneFree(pages: seq<bool>)
    ensures CountClear(pages) == 0 ==> NoFit(pages, 1)
  {
    CountClearZero(pages);
    forall s | FIRST_PAGE <= s && Run(pages, s, 1, false) ensures CountClear(pages) != 0 {
      assert !pages[s];
    }
  }

  /** How many pages at or above 1 MiB are free. */
  function FreeAbove(pages: seq<bool>): nat {
    if |pages| <= FIRST_PAGE then 0 else CountClear(pages[FIRST_PAGE..])
  }

  /** A single page can be had exactly if there is such a page. */
  lemma NoFitMeansNone(pages: seq<bool>)
    ensures NoFit(pages, 1) <==> FreeAbove(pages) == 0
  {
    if |pages| > FIRST_PAGE {
      CountClearZero(pages[FIRST_PAGE..]);
      assert NoFit(pages, 1) <==> forall p | 0 <= p < |pages[FIRST_PAGE..]| :: pages[FIRST_PAGE..][p] by {
        if NoFit(pages, 1) {
          forall p | 0 <= p < |pages[FIRST_PAGE..]| ensures pages[FIRST_PAGE..][p] {
            assert !Run(pages, FIRST_PAGE + p, 1, false);
          }
        } else {
          var s :| FIRST_PAGE <= s && Run(pages, s, 1, false);
          assert !pages[FIRST_PAGE..][s - FIRST_PAGE];
        }
      }
    }
  }

  /** Taking such a page leaves one less. */
  lemma FreeAboveTaken(pages: seq<bool>, f: nat)
    requires FIRST_PAGE <= f < |pages| && !pages[f]
    ensures FreeAbove(pages[f := true]) + 1 == FreeAbove(pages)
  {
    assert pages[f := true][FIRST_PAGE..] == pages[FIRST_PAGE..][f - FIRST_PAGE := true];
    CountClearUpdate(pages[FIRST_PAGE..], f - FIRST_PAGE, true);
  }

  ghost predicate LowestClear(level: seq<bool>, j: nat) {
    j < |level| && !level[j] && forall i | 0 <= i < j :: level[i]
  }

  ghost predicate AllSet(level: seq<bool>) {
    forall i | 0 <= i < |level| :: level[i]
  }

  /** Buddy j of order k: the highest order up to `level` with a clear bit, and its lowest such bit. */
  ghost predicate IsBuddyChoice(bits: Bits, level: nat, k: nat, j: nat)
    requires level < |bits|
  {
    k <= level && LowestClear(bits[k], j) && forall i | k < i <= level :: AllSet(bits[i])
  }

  lemma BuddyChoiceUnique(bits: Bits, level: nat, k: nat, j: nat, k': nat, j': nat)
    requires level < |bits| && IsBuddyChoice(bits, level, k, j) && IsBuddyChoice(bits, level, k', j')
    ensures k == k' && j == j'
  {
  }

  /** The order asked for: a power of two that holds `count` pages and wastes at most a quarter of
      itself, or else the largest power of two below `count`. */
  ghost predicate IsClosestLevel(count: nat, level: nat) {
    && level < ORDERS
    && var size := Left(1, level);
       if count <= size then 3 * size <= 4 * count else 2 * count < 3 * size
  }

  /** The closest order holds more pages than asked for exactly if they are three quarters of it or more. */
  lemma LargerThanAsked(count: nat, level: nat)
    requires count > 0 && IsClosestLevel(count, level)
    ensures Left(1, level) > count <==> 3 * Left(1, level) <= 4 * count < 4 * Left(1, level)
  {
  }

  /** Such an order is unique. */
  lemma ClosestLevelUnique(count: nat, a: nat, b: nat)
    requires count > 0 && IsClosestLevel(count, a) && IsClosestLevel(count, b)
    ensures a == b
  {
    if a < b {
      LeftGrows(a, b);
    } else if b < a {
      LeftGrows(b, a);
    }
  }

  lemma {:induction false} LeftGrows(a: nat, b: nat)
    requires a < b
    ensures 2 * Left(1, a) <= Left(1, b)
    ensures b > a + 1 ==> 4 * Left(1, a) <= Left(1, b)
    decreases b
  {
    if b > a + 1 {
      LeftGrows(a, b - 1);
    }
  }

  /** The pages of a clear buddy are all free. */
  lemma ClearBuddyIsFree(bits: Bits, total: nat, k: nat, j: nat)
    requires Shaped(bits, total) && Layered(bits) && k < ORDERS && j < |bits[k]| && !bits[k][j]
    ensures Run(bits[0], Left(j, k), Left(1, k), false)
  {
    LevelSize(bits, total, k);
    LeftMonotone(j + 1, |bits[k]|, k);
    LeftAdds(j, 1, k);
    forall p | Left(j, k) <= p < Left(j, k) + Left(1, k) ensures p < |bits[0]| && !bits[0][p] {
      InBuddy(p, j, k);
      ClearMeansFree(bits, k, j, p);
    }
  }

  /** A grant of an order up to the closest one that is larger than the request wastes at most a quarter. */
  lemma WasteBound(count: nat, level: nat, k: nat)
    requires count > 0 && IsClosestLevel(count, level) && k <= level && Left(1, k) > count
    ensures 4 * (Left(1, k) - count) <= Left(1, k)
  {
    if k < level {
      LeftGrows(k, level);
    }
  }

  /** The fewer pages, the smaller the closest order. */
  lemma ClosestMonotone(a: nat, b: nat, level: nat, level': nat)
    requires 0 < b <= a && IsClosestLevel(a, level) && IsClosestLevel(b, level')
    ensures level' <= level
  {
    if level < level' {
      LeftGrows(level, level');
    }
  }

  // ----- binary digits -----

  /** Two neighbouring binary digits of n are ones: n & (n >> 1) != 0. */
  predicate Adjacent(n: nat) {
    n > 0 && (n % 4 == 3 || Adjacent(n / 2))
  }

  lemma Twice(n: nat, k: nat)
    requires k > 0
    ensures Left(n, k) == 2 * Left(n, k - 1)
  {
  }

  lemma HalfOfSum(n: nat, x: nat)
    ensures (n + 2 * x) / 2 == n / 2 + x && (n + 4 * x) % 4 == n % 4
  {
  }

  lemma HalfOfBand(n: nat, q: nat)
    requires 24 * q <= 4 * n < 32 * q
    ensures 12 * q <= 4 * (n / 2) < 16 * q
  {
  }

  /** The two digits below the k-th are ones in a number from three quarters of 2^k up to 2^k,
      whatever is above them. */
  lemma {:induction false} AdjacentBelow(n: nat, m: nat, k: nat)
    requires 3 * Left(1, k) <= 4 * n < 4 * Left(1, k)
    ensures n > 0 && Adjacent(n + Left(m, k))
    decreases k
  {
    if k > 0 {
      Twice(1, k);
      Twice(m, k);
      if k == 2 {
        Twice(1, 1);
        Twice(m, 1);
        HalfOfSum(3, m);
      } else if k > 2 {
        Twice(1, k - 1);
        Twice(1, k - 2);
        HalfOfBand(n, Left(1, k - 3));
        AdjacentBelow(n / 2, m, k - 1);
        HalfOfSum(n, Left(m, k - 1));
      }
    }
  }

  /** The k-th digit has no neighbour in a number below half of 2^k. */
  lemma {:induction false} AdjacentAbove(n: nat, k: nat)
    requires 2 * n < Left(1, k)
    ensures Adjacent(n + Left(1, k)) <==> Adjacent(n)
    decreases k
  {
    if k == 0 {
      assert !Adjacent(1);
    } else if k == 1 {
      Twice(1, 1);
      assert !Adjacent(1) && !Adjacent(2);
    } else {
      var q := Left(1, k - 2);
      Twice(1, k);
      Twice(1, k - 1);
      AdjacentAbove(n / 2, k - 1);
      HalfOfSum(n, 2 * q);
      HalfOfSum(n, q);
      assert Adjacent(n + 4 * q) <==> n % 4 == 3 || Adjacent(n / 2 + 2 * q);
    }
  }

  /** The closest order is larger than a number only if it has neighbouring ones; else taking it off
      leaves neighbouring ones exactly if there were some. */
  lemma ClosestTakenOff(count: nat, level: nat)
    requires count > 0 && IsClosestLevel(count, level)
    ensures Left(1, level) > count ==> Adjacent(count)
    ensures Left(1, level) <= count ==> (Adjacent(count) <==> Adjacent(count - Left(1, level)))
  {
    if Left(1, level) > count {
      LeftScales(0, level);
      AdjacentBelow(count, 0, level);
    } else {
      LeftPositive(level);
      AdjacentAbove(count - Left(1, level), level);
    }
  }

  lemma {:induction false} LeftLeft(n: nat, a: nat, b: nat)
    ensures Left(Left(n, a), b) == Left(n, a + b)
    decreases b
  {
    if b > 0 {
      LeftLeft(n, a, b - 1);
    }
  }

  // ----- the empty bitmaps -----

  function AllClear(n: nat): (r: seq<bool>)
    ensures |r| == n && forall i | 0 <= i < n :: !r[i]
  {
    seq(n, _ => false)
  }

  /** The bitmaps of `total` pages, all free; each level has half the bits of the one below. */
  function Cleared(total: nat): Bits {
    seq(ORDERS, k requires 0 <= k < ORDERS => AllClear(Right(total, k)))
  }

  lemma {:induction false} CountAllClear(s: seq<bool>)
    requires forall i | 0 <= i < |s| :: !s[i]
    ensures CountClear(s) == |s|
  {
    if s != [] {
      CountAllClear(s[..|s| - 1]);
    }
  }

  lemma ClearedIsLayered(total: nat)
    requires total % 4096 == 0
    ensures Shaped(Cleared(total), total) && Layered(Cleared(total))
    ensures forall k | 0 <= k < ORDERS :: Right(total, k) % 8 == 0
  {
    var bits := Cleared(total);
    forall k | 0 < k < ORDERS ensures Halves(bits, k) {
      WholeBytes(total, k);
    }
    forall k, j | 0 < k < ORDERS && 0 <= j < |bits[k]| ensures Consistent(bits, k, j) {
      WholeBytes(total, k);
    }
    forall k | 0 <= k < ORDERS ensures Right(total, k) % 8 == 0 {
      WholeBytes(total, k);
    }
  }

  /** A multiple of 4096 pages fills whole bytes at every order. */
  lemma WholeBytes(total: nat, k: nat)
    requires total % 4096 == 0 && k < ORDERS
    ensures Right(total, k) % 8 == 0
    ensures k > 0 ==> Right(total, k - 1) == 2 * Right(total, k)
  {
    var q := total / 4096;
    TwelveBits(q);
    RightOfShifted(q, 12, k);
    LastThreeBits(q, 12 - k);
    if k > 0 {
      RightOfShifted(q, 12, k - 1);
    }
  }

  lemma {:induction false} RightOfShifted(q: nat, a: nat, k: nat)
    requires k <= a
    ensures Right(Left(q, a), k) == Left(q, a - k)
    decreases k
  {
    if k > 0 {
      RightOfShifted(q, a, k - 1);
    }
  }

  lemma TwelveBits(q: nat)
    ensures Left(q, 12) == 4096 * q
  {
    assert Left(q, 3) == 8 * q;
    assert Left(q, 6) == 64 * q;
    assert Left(q, 9) == 512 * q;
  }

  lemma LastThreeBits(q: nat, n: nat)
    requires n >= 3
    ensures Left(q, n) % 8 == 0
  {
    var x := Left(q, n - 3);
    assert Left(q, n - 2) == 2 * x;
    assert Left(q, n - 1) == 4 * x;
    assert Left(q, n) == 8 * x;
  }
}
