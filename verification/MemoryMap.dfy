/** The boot loader's clean-up of the firmware's memory map (src/boot/stage2/loader32.cpp, lines
    118-176): sort, trim overlaps, fill gaps, sort again. */
module MemoryMap {

  const USABLE: nat := 1
  const HOLE: nat := 10
  const WRAP: nat := 0x1_0000_0000_0000_0000

  /** No processor addresses more physical memory than this. */
  const PHYSICAL_LIMIT: nat := 0x10_0000_0000_0000

  datatype Entry = Entry(base: nat, length: nat, kind: nat, attributes: nat)

  function End(e: Entry): nat {
    e.base + e.length
  }

  /** Unsigned subtraction of 64-bit values. */
  function Minus(a: nat, b: nat): nat
    requires b <= a + WRAP
  {
    (a + WRAP - b) % WRAP
  }

  // ----- one pair of neighbours (lines 153-172) -----

  /** The first of two neighbours once they have been looked at. */
  function Lower(e1: Entry, e2: Entry): Entry
    requires e1.base <= WRAP
  {
    if End(e1) > e2.base && (e1.kind == e2.kind || e1.kind == USABLE) then e1.(length := Minus(e2.base, e1.base))
    else e1
  }

  /** The second. */
  function Upper(e1: Entry, e2: Entry): Entry {
    if End(e1) > e2.base && e1.kind != e2.kind && e1.kind != USABLE && e2.kind == USABLE then e2.(base := End(e1))
    else e2
  }

  /** The entry added for a gap. */
  function Gap(e1: Entry, e2: Entry): seq<Entry> {
    if End(e1) < e2.base then [Entry(End(e1), e2.base - End(e1), HOLE, 1)] else []
  }

  type Map = seq<Entry>

  /** What a sorted map of sensible entries is. */
  predicate Ordered(m: Map) {
    forall i | 0 <= i < |m| :: InOrder(m, i)
  }

  predicate InOrder(m: Map, i: nat)
    requires i < |m|
  {
    m[i].length > 0 && End(m[i]) <= PHYSICAL_LIMIT && (i + 1 < |m| ==> m[i].base < m[i + 1].base)
  }

  /** Entry i when its pair with the next is looked at. */
  function Arrived(m: Map, i: nat): Entry
    requires i < |m|
  {
    if i == 0 then m[0] else Upper(Arrived(m, i - 1), m[i])
  }

  /** Entry i as it was, or, if it is usable and the one before is not and reaches into it, moved up. */
  lemma {:induction false} ArrivedIs(m: Map, i: nat)
    requires i < |m|
    ensures var e := Arrived(m, i);
      e == m[i] || (i > 0 && e == m[i].(base := End(m[i - 1])) && End(m[i - 1]) > m[i].base
                       && m[i].kind == USABLE && m[i - 1].kind != USABLE)
    ensures i > 0 && Arrived(m, i) == m[i] && m[i].kind == USABLE && m[i - 1].kind != USABLE ==>
              End(m[i - 1]) <= m[i].base
  {
    if i > 0 {
      ArrivedIs(m, i - 1);
    }
  }

  lemma ArrivedSmall(m: Map, i: nat)
    requires Ordered(m) && i < |m|
    ensures Arrived(m, i).base <= 2 * PHYSICAL_LIMIT < WRAP
  {
    ArrivedIs(m, i);
    assert InOrder(m, i);
    assert i > 0 ==> InOrder(m, i - 1);
  }

  /** Entry i when all pairs have been looked at. */
  function Final(m: Map, i: nat): Entry
    requires Ordered(m) && i < |m|
  {
    ArrivedSmall(m, i);
    if i + 1 < |m| then Lower(Arrived(m, i), m[i + 1]) else Arrived(m, i)
  }

  function Trimmed(m: Map, n: nat): Map
    requires Ordered(m) && n <= |m|
  {
    if n == 0 then [] else Trimmed(m, n - 1) + [Final(m, n - 1)]
  }

  /** The entries added for the gaps of the first n pairs of neighbours. */
  function Holes(m: Map, n: nat): Map
    requires n == 0 || n < |m|
  {
    if n == 0 then [] else Holes(m, n - 1) + Gap(Arrived(m, n - 1), m[n])
  }

  function Pairs(m: Map, n: nat): nat
    requires n <= |m|
  {
    if n == |m| && n > 0 then n - 1 else n
  }

  // ----- what the clean-up is for -----

  /** No empty entry, and each begins where the one before ends. */
  predicate Contiguous(s: Map) {
    forall i | 0 <= i < |s| :: Abuts(s, i)
  }

  predicate Abuts(s: Map, i: nat)
    requires i < |s|
  {
    s[i].length > 0 && (i + 1 < |s| ==> End(s[i]) == s[i + 1].base)
  }

  /** No entry claims an address that it did not have. */
  predicate Shrunk(m: Map)
    requires Ordered(m)
  {
    forall i | 0 <= i < |m| :: Within(Final(m, i), m[i])
  }

  predicate Within(e: Entry, o: Entry) {
    o.base <= e.base && End(e) <= End(o)
  }

  /** The pairs that the clean-up handles: no overlap; or of the same kind; or the lower is usable; or
      the upper is usable, and a third entry begins in or right after it but after the lower's end. */
  predicate Handled(m: Map, i: nat)
    requires i + 1 < |m|
  {
    End(m[i]) > m[i + 1].base ==>
      || m[i].kind == m[i + 1].kind
      || m[i].kind == USABLE
      || (m[i + 1].kind == USABLE && i + 2 < |m| && End(m[i]) < m[i + 2].base <= End(m[i + 1]))
  }

  predicate AllHandled(m: Map) {
    forall i | 0 <= i < |m| - 1 :: Handled(m, i)
  }

  predicate SortedByBase(s: Map) {
    forall i, j | 0 <= i <= j < |s| :: s[i].base <= s[j].base
  }

  // ----- the entries and gaps in order -----

  /** The gap between the first n entries and the next. */
  function GapAfter(m: Map, n: nat): Map
    requires 0 < n <= |m|
  {
    if n < |m| then Gap(Arrived(m, n - 1), m[n]) else []
  }

  function Woven(m: Map, n: nat): Map
    requires Ordered(m) && n <= |m|
  {
    if n == 0 then []
    else Woven(m, n - 1) + [Final(m, n - 1)] + GapAfter(m, n)
  }

  lemma {:induction false} WovenIsAll(m: Map, n: nat, holes: Map)
    requires Ordered(m) && n <= |m| && holes == Holes(m, Pairs(m, n))
    ensures multiset(Woven(m, n)) == multiset(Trimmed(m, n)) + multiset(holes)
  {
    if n > 0 {
      var before := Holes(m, n - 1);
      WovenIsAll(m, n - 1, before);
      HolesOneMore(m, n);
      AppendBoth(Woven(m, n - 1), Trimmed(m, n - 1), before, Final(m, n - 1), GapAfter(m, n));
    }
  }

  lemma HolesOneMore(m: Map, n: nat)
    requires 0 < n <= |m|
    ensures Holes(m, Pairs(m, n)) == Holes(m, n - 1) + GapAfter(m, n)
  {
  }

  lemma AppendBoth(w: Map, t: Map, h: Map, e: Entry, g: Map)
    requires multiset(w) == multiset(t) + multiset(h)
    ensures multiset(w + [e] + g) == multiset(t + [e]) + multiset(h + g)
  {
  }

  /** A handled entry is trimmed to what it had and what comes next. */
  lemma FinalEnds(m: Map, i: nat)
    requires Ordered(m) && AllHandled(m) && i < |m|
    ensures Within(Final(m, i), m[i]) && Final(m, i).length > 0 && Final(m, i).base == Arrived(m, i).base
    ensures i + 1 < |m| ==>
              End(Final(m, i) ) + (if Gap(Arrived(m, i), m[i + 1]) == [] then 0 else m[i + 1].base - End(Arrived(m, i)))
                               == Arrived(m, i + 1).base
    ensures i + 1 < |m| && Gap(Arrived(m, i), m[i + 1]) != [] ==>
              Final(m, i) == Arrived(m, i) && Arrived(m, i + 1) == m[i + 1]
  {
    ArrivedIs(m, i);
    assert InOrder(m, i);
    if i > 0 {
      assert InOrder(m, i - 1) && Handled(m, i - 1);
    }
    if i + 1 < |m| {
      assert InOrder(m, i + 1) && Handled(m, i);
      ArrivedIs(m, i + 1);
    }
  }

  lemma {:induction false} WovenContiguous(m: Map, n: nat)
    requires Ordered(m) && AllHandled(m) && 0 < n <= |m|
    ensures Woven(m, n) != [] && Contiguous(Woven(m, n)) && Woven(m, n)[0].base == m[0].base
    ensures n < |m| ==> End(Woven(m, n)[|Woven(m, n)| - 1]) == Arrived(m, n).base
    ensures n == |m| ==> Woven(m, n)[|Woven(m, n)| - 1] == Final(m, n - 1)
  {
    FinalEnds(m, n - 1);
    if n > 1 {
      WovenContiguous(m, n - 1);
    } else {
      assert Woven(m, 0) == [];
    }
    AppendWithGap(Woven(m, n - 1), Final(m, n - 1), GapAfter(m, n));
  }

  /** An entry, and perhaps one for a gap, after contiguous ones. */
  lemma AppendWithGap(w: Map, e: Entry, g: Map)
    requires Contiguous(w) && e.length > 0 && (w != [] ==> End(w[|w| - 1]) == e.base)
    requires |g| <= 1 && (g != [] ==> g[0].length > 0 && End(e) == g[0].base)
    ensures var s := w + [e] + g;
      && s != [] && Contiguous(s) && s[0].base == (if w == [] then e.base else w[0].base)
      && s[|s| - 1] == if g == [] then e else g[0]
  {
    AppendContiguous(w, e);
    if g == [] {
      assert w + [e] + g == w + [e];
    } else {
      AppendContiguous(w + [e], g[0]);
      assert g == [g[0]];
    }
  }

  lemma AppendContiguous(s: Map, e: Entry)
    requires Contiguous(s) && e.length > 0 && (s != [] ==> End(s[|s| - 1]) == e.base)
    ensures Contiguous(s + [e])
  {
    forall i | 0 <= i < |s| + 1 ensures Abuts(s + [e], i) {
      assert i < |s| ==> Abuts(s, i);
    }
  }

  lemma {:induction false} ContiguousOrder(s: Map, i: nat, j: nat)
    requires Contiguous(s) && i < j < |s|
    ensures End(s[i]) <= s[j].base
    decreases j
  {
    assert Abuts(s, i);
    if i + 1 < j {
      ContiguousOrder(s, i, j - 1);
      assert Abuts(s, j - 1);
    }
  }

  /** A sorted list is known from its entries if no two have the same base. */
  lemma {:induction false} SortedUnique(a: Map, b: Map)
    requires Contiguous(a) && SortedByBase(b) && multiset(a) == multiset(b)
    ensures a == b
    decreases |a|
  {
    assert |a| == |multiset(a)| == |multiset(b)| == |b|;
    if a != [] {
      var n := |a| - 1;
      SameLast(a, b);
      WithoutLast(a, b);
      forall i | 0 <= i < n ensures Abuts(a[..n], i) {
        assert Abuts(a, i);
      }
      SortedUnique(a[..n], b[..n]);
      assert a == a[..n] + [a[n]] && b == b[..n] + [b[n]];
    }
  }

  lemma WithoutLast(a: Map, b: Map)
    requires multiset(a) == multiset(b) && |a| == |b| > 0 && a[|a| - 1] == b[|b| - 1]
    ensures multiset(a[..|a| - 1]) == multiset(b[..|b| - 1])
  {
    var n := |a| - 1;
    assert a == a[..n] + [a[n]] && b == b[..n] + [b[n]];
    assert multiset(a[..n]) + multiset{a[n]} == multiset(b[..n]) + multiset{a[n]};
    assert multiset(a[..n]) == multiset(a) - multiset{a[n]};
  }

  lemma SameLast(a: Map, b: Map)
    requires Contiguous(a) && SortedByBase(b) && multiset(a) == multiset(b) && |a| == |b| > 0
    ensures a[|a| - 1] == b[|b| - 1]
  {
    var n := |a| - 1;
    assert a[n] in multiset(b) && b[n] in multiset(a);
    var k :| 0 <= k < |a| && a[k] == b[n];
    var m :| 0 <= m < |b| && b[m] == a[n];
    assert Abuts(a, k);
    if k < n {
      ContiguousOrder(a, k, n);
    }
  }

  // ----- when the clean-up is right -----

  /** The trimmed entries and the entries for gaps. */
  ghost function Pieces(m: Map): multiset<Entry>
    requires Ordered(m)
  {
    multiset(Trimmed(m, |m|)) + multiset(Holes(m, Pairs(m, |m|)))
  }

  /** `s` is the outcome for the sorted map: its trimmed entries and its gaps, sorted. */
  ghost predicate IsOutcome(m: Map, s: Map)
    requires Ordered(m)
  {
    SortedByBase(s) && multiset(s) == Pieces(m)
  }

  lemma HandledIsRight(m: Map, s: Map)
    requires Ordered(m) && m != [] && AllHandled(m) && IsOutcome(m, s)
    ensures Shrunk(m) && Contiguous(s) && s == Woven(m, |m|)
  {
    forall i | 0 <= i < |m| ensures Within(Final(m, i), m[i]) {
      FinalEnds(m, i);
    }
    WovenContiguous(m, |m|);
    WovenIsAll(m, |m|, Holes(m, Pairs(m, |m|)));
    SortedUnique(Woven(m, |m|), s);
  }

  lemma {:induction false} FinalIn(m: Map, n: nat, i: nat)
    requires Ordered(m) && i < n <= |m|
    ensures Final(m, i) in Trimmed(m, n)
  {
    if i < n - 1 {
      FinalIn(m, n - 1, i);
    }
  }

  lemma FinalInOutcome(m: Map, s: Map, i: nat) returns (k: nat)
    requires Ordered(m) && i < |m| && IsOutcome(m, s)
    ensures k < |s| && s[k] == Final(m, i)
  {
    FinalIn(m, |m|, i);
    assert Final(m, i) in multiset(s);
    k :| 0 <= k < |s| && s[k] == Final(m, i);
  }

  /** Two entries of the outcome that come from different entries do not overlap. */
  lemma FinalsApart(m: Map, s: Map, i: nat, j: nat)
    requires Ordered(m) && i < |m| && j < |m| && Contiguous(s) && IsOutcome(m, s)
    ensures Final(m, i).length > 0
    ensures Final(m, i).base < Final(m, j).base ==> End(Final(m, i)) <= Final(m, j).base
  {
    var a := FinalInOutcome(m, s, i);
    var b := FinalInOutcome(m, s, j);
    assert Abuts(s, a) && Abuts(s, b);
    if a < b {
      ContiguousOrder(s, a, b);
    } else if b < a {
      ContiguousOrder(s, b, a);
    }
  }

  lemma RightIsHandled(m: Map, s: Map, i: nat)
    requires Ordered(m) && i + 1 < |m| && Shrunk(m) && Contiguous(s) && IsOutcome(m, s)
    ensures Handled(m, i)
  {
    FinalsApart(m, s, i, i + 1);
    FinalsApart(m, s, i + 1, i);
    assert Within(Final(m, i + 1), m[i + 1]);
    HandledFrom(m, i);
  }

  lemma HandledFrom(m: Map, i: nat)
    requires Ordered(m) && i + 1 < |m|
    requires Final(m, i).length > 0 && Final(m, i + 1).length > 0 && Within(Final(m, i + 1), m[i + 1])
    requires Final(m, i).base < Final(m, i + 1).base ==> End(Final(m, i)) <= Final(m, i + 1).base
    ensures Handled(m, i)
  {
    assert InOrder(m, i) && InOrder(m, i + 1);
    ArrivedIs(m, i);
    ArrivedIs(m, i + 1);
    if i + 2 < |m| {
      assert InOrder(m, i + 2);
    }
  }

  /** The clean-up gives a map without gaps, overlaps or empty entries, in which no entry has grown,
      exactly if every pair of neighbours is handled. */
  lemma RightIffHandled(m: Map, s: Map)
    requires Ordered(m) && m != [] && IsOutcome(m, s)
    ensures Shrunk(m) && Contiguous(s) <==> AllHandled(m)
  {
    if AllHandled(m) {
      HandledIsRight(m, s);
    }
    if Shrunk(m) && Contiguous(s) {
      forall i | 0 <= i < |m| - 1 ensures Handled(m, i) {
        RightIsHandled(m, s, i);
      }
    }
  }

  // ----- where the outcome comes from -----

  /** An entry of the outcome is one of the map, perhaps with another base or length, or else says that
      there is a hole between two of them. */
  predicate ComesFrom(e: Entry, m: Map) {
    || (exists i | 0 <= i < |m| :: e.kind == m[i].kind && e.attributes == m[i].attributes)
    || (e.kind == 10 && e.attributes == 1
        && exists i | 0 < i < |m| :: End(m[i - 1]) <= e.base < End(e) == m[i].base)
  }

  lemma {:induction false} HoleComesFrom(m: Map, n: nat, e: Entry)
    requires Ordered(m) && (n == 0 || n < |m|) && e in Holes(m, n)
    ensures ComesFrom(e, m)
    decreases n
  {
    if e in Holes(m, n - 1) {
      HoleComesFrom(m, n - 1, e);
    } else {
      ArrivedIs(m, n - 1);
      assert m[n].base == End(e);
    }
  }

  lemma {:induction false} TrimmedComesFrom(m: Map, n: nat, e: Entry)
    requires Ordered(m) && n <= |m| && e in Trimmed(m, n)
    ensures ComesFrom(e, m)
  {
    if e in Trimmed(m, n - 1) {
      TrimmedComesFrom(m, n - 1, e);
    } else {
      ArrivedIs(m, n - 1);
      assert e.kind == m[n - 1].kind && e.attributes == m[n - 1].attributes;
    }
  }

  /** So it is of every entry; no kind and no attribute is made up. */
  lemma OutcomeComesFrom(m: Map, s: Map, k: nat)
    requires Ordered(m) && m != [] && IsOutcome(m, s) && k < |s|
    ensures ComesFrom(s[k], m)
  {
    assert s[k] in multiset(s);
    if s[k] in Holes(m, Pairs(m, |m|)) {
      HoleComesFrom(m, Pairs(m, |m|), s[k]);
    } else {
      TrimmedComesFrom(m, |m|, s[k]);
    }
  }

  // ----- total size -----

  function Sum(s: Map): nat {
    if s == [] then 0 else Sum(s[..|s| - 1]) + s[|s| - 1].length
  }

  lemma {:induction false} ContiguousSum(s: Map)
    requires Contiguous(s) && s != []
    ensures s[0].base + Sum(s) == End(s[|s| - 1])
  {
    var n := |s| - 1;
    forall i | 0 <= i < n ensures Abuts(s[..n], i) {
      assert Abuts(s, i);
    }
    if n > 0 {
      ContiguousSum(s[..n]);
      assert Abuts(s, n - 1);
    }
  }

  /** The lengths add up to the last end less the first base: what the physical memory manager takes
      as the size of memory. */
  lemma SumIsSpan(m: Map, s: Map)
    requires Ordered(m) && m != [] && AllHandled(m) && IsOutcome(m, s)
    ensures m[0].base + Sum(s) == End(m[|m| - 1])
  {
    var n := |m|;
    HandledIsRight(m, s);
    WovenContiguous(m, n);
    ContiguousSum(s);
    ArrivedIs(m, n - 1);
    assert n > 1 ==> Handled(m, n - 2);
  }

  // ----- usable memory -----

  predicate Contains(e: Entry, x: nat) {
    e.base <= x < End(e)
  }

  lemma {:induction false} BasesIncrease(m: Map, i: nat, j: nat)
    requires Ordered(m) && i < j < |m|
    ensures m[i].base < m[j].base
    decreases j
  {
    assert InOrder(m, j - 1);
    if i < j - 1 {
      BasesIncrease(m, i, j - 1);
    }
  }

  /** An earlier entry that is not usable ends before a usable one, or no later than the entry right
      before it, which is not usable either and so moves its base up. */
  predicate Cleared(m: Map, j: nat, i: nat)
    requires j < i < |m|
  {
    m[j].kind != USABLE && m[i].kind == USABLE ==>
      End(m[j]) <= m[i].base || (m[i - 1].kind != USABLE && End(m[j]) <= End(m[i - 1]))
  }

  predicate AllCleared(m: Map) {
    forall j, i | 0 <= j < i < |m| :: Cleared(m, j, i)
  }

  lemma {:induction false} TrimmedIsFinal(m: Map, n: nat, e: Entry) returns (i: nat)
    requires Ordered(m) && n <= |m| && e in Trimmed(m, n)
    ensures i < n && e == Final(m, i)
  {
    if e == Final(m, n - 1) {
      i := n - 1;
    } else {
      i := TrimmedIsFinal(m, n - 1, e);
    }
  }

  lemma {:induction false} HolesAreHoles(m: Map, n: nat, e: Entry)
    requires (n == 0 || n < |m|) && e in Holes(m, n)
    ensures e.kind == HOLE
  {
    if e in Holes(m, n - 1) {
      HolesAreHoles(m, n - 1, e);
    }
  }

  /** The entry that a usable entry of the outcome comes from. */
  lemma UsableComesFrom(m: Map, s: Map, k: nat) returns (i: nat)
    requires Ordered(m) && m != [] && IsOutcome(m, s) && k < |s| && s[k].kind == USABLE
    ensures i < |m| && s[k] == Final(m, i) && m[i].kind == USABLE
  {
    assert s[k] in multiset(s);
    if s[k] in Holes(m, Pairs(m, |m|)) {
      HolesAreHoles(m, Pairs(m, |m|), s[k]);
    }
    i := TrimmedIsFinal(m, |m|, s[k]);
    ArrivedIs(m, i);
  }

  lemma UsableFrom(m: Map, s: Map, k: nat) returns (i: nat)
    requires Ordered(m) && m != [] && AllHandled(m) && IsOutcome(m, s) && k < |s| && s[k].kind == USABLE
    ensures i < |m| && s[k] == Final(m, i) && m[i].kind == USABLE && Within(s[k], m[i])
  {
    i := UsableComesFrom(m, s, k);
    FinalEnds(m, i);
  }

  /** No address that the outcome calls usable lies in an entry of another kind. */
  ghost predicate OnlyUsable(m: Map, s: Map) {
    forall k: nat, x: nat, j: nat ::
      k < |s| && s[k].kind == USABLE && Contains(s[k], x) && j < |m| && Contains(m[j], x) ==> m[j].kind == USABLE
  }

  /** Every address that the outcome calls usable lay in a usable entry. */
  lemma UsableWasUsable(m: Map, s: Map, k: nat, x: nat)
    requires Ordered(m) && m != [] && AllHandled(m) && IsOutcome(m, s)
    requires k < |s| && s[k].kind == USABLE && Contains(s[k], x)
    ensures exists i | 0 <= i < |m| :: m[i].kind == USABLE && Contains(m[i], x)
  {
    var i := UsableFrom(m, s, k);
  }

  // ----- any map -----

  /** Where a usable entry begins in the outcome. */
  function From(m: Map, i: nat): nat
    requires i < |m|
  {
    if i > 0 && m[i - 1].kind != USABLE && End(m[i - 1]) > m[i].base then End(m[i - 1]) else m[i].base
  }

  /** An entry begins exactly where the next one does, and so is empty in the outcome. */
  predicate Emptied(m: Map, i: nat)
    requires i < |m|
  {
    i + 1 < |m| && From(m, i) == m[i + 1].base
  }

  /** An entry begins after the next one, and so the subtraction for its length wraps around: in the
      outcome it has all addresses from its base on. */
  predicate Unbounded(m: Map, i: nat)
    requires i < |m|
  {
    i + 1 < |m| && From(m, i) > m[i + 1].base
  }

  /** What is left of a usable entry has no address of an entry j that is not usable. */
  predicate Spared(m: Map, i: nat, j: nat)
    requires i < |m| && j < |m|
  {
    m[i].kind == USABLE && m[j].kind != USABLE && !Emptied(m, i) && (j < i || Unbounded(m, i)) ==>
      End(m[j]) <= From(m, i)
  }

  predicate AllSpared(m: Map) {
    forall i, j | 0 <= i < |m| && 0 <= j < |m| :: Spared(m, i, j)
  }

  /** What is left of a usable entry. */
  lemma FinalReach(m: Map, i: nat)
    requires Ordered(m) && i < |m| && m[i].kind == USABLE
    ensures Final(m, i).base == From(m, i) && Final(m, i).kind == USABLE
    ensures Final(m, i).length == 0 <==> Emptied(m, i)
    ensures Unbounded(m, i) ==> End(Final(m, i)) >= WRAP
    ensures i + 1 < |m| && !Unbounded(m, i) ==> End(Final(m, i)) <= m[i + 1].base
  {
    ArrivedIs(m, i);
    assert InOrder(m, i);
    if i > 0 {
      assert InOrder(m, i - 1);
    }
    if i + 1 < |m| {
      assert InOrder(m, i + 1);
    }
  }

  lemma SparedIsOnlyUsable(m: Map, s: Map, k: nat, x: nat, j: nat)
    requires Ordered(m) && m != [] && AllSpared(m) && IsOutcome(m, s)
    requires k < |s| && s[k].kind == USABLE && Contains(s[k], x) && j < |m| && Contains(m[j], x)
    ensures m[j].kind == USABLE
  {
    var i := UsableComesFrom(m, s, k);
    FinalReach(m, i);
    assert Spared(m, i, j);
    if i + 1 < j {
      BasesIncrease(m, i + 1, j);
    }
  }

  lemma OnlyUsableIsSpared(m: Map, s: Map, i: nat, j: nat)
    requires Ordered(m) && m != [] && IsOutcome(m, s) && OnlyUsable(m, s) && i < |m| && j < |m|
    ensures Spared(m, i, j)
  {
    if m[i].kind == USABLE && m[j].kind != USABLE && !Emptied(m, i) && (j < i || Unbounded(m, i)) {
      var k := FinalInOutcome(m, s, i);
      FinalReach(m, i);
      assert InOrder(m, j) && InOrder(m, i);
      if j < i {
        BasesIncrease(m, j, i);
      }
      var x := if From(m, i) < m[j].base then m[j].base else From(m, i);
      assert !(Contains(s[k], x) && Contains(m[j], x));
    }
  }

  /** The clean-up of any sorted map makes no address usable that lay in another kind of entry, exactly
      if every usable entry spares every other one. */
  lemma OnlyUsableIffSpared(m: Map, s: Map)
    requires Ordered(m) && m != [] && IsOutcome(m, s)
    ensures OnlyUsable(m, s) <==> AllSpared(m)
  {
    if AllSpared(m) {
      forall k: nat, x: nat, j: nat |
        k < |s| && s[k].kind == USABLE && Contains(s[k], x) && j < |m| && Contains(m[j], x)
        ensures m[j].kind == USABLE
      {
        SparedIsOnlyUsable(m, s, k, x, j);
      }
    }
    if OnlyUsable(m, s) {
      forall i, j | 0 <= i < |m| && 0 <= j < |m| ensures Spared(m, i, j) {
        OnlyUsableIsSpared(m, s, i, j);
      }
    }
  }

  // ----- a map that the clean-up handles -----

  lemma HandledReach(m: Map, i: nat)
    requires Ordered(m) && AllHandled(m) && i < |m| && m[i].kind == USABLE
    ensures !Emptied(m, i) && !Unbounded(m, i)
  {
    assert InOrder(m, i);
    if i > 0 {
      assert Handled(m, i - 1);
    }
  }

  lemma SparedIffCleared(m: Map)
    requires Ordered(m) && AllHandled(m)
    ensures AllSpared(m) <==> AllCleared(m)
  {
    forall i: nat, j: nat | i < |m| && j < |m|
      ensures Spared(m, i, j) <==> (j < i ==> Cleared(m, j, i))
    {
      if m[i].kind == USABLE {
        HandledReach(m, i);
      }
    }
    if AllSpared(m) {
      forall j, i | 0 <= j < i < |m| ensures Cleared(m, j, i) {
        assert Spared(m, i, j);
      }
    }
  }

  /** If it handles the map, that is so exactly if every earlier entry of another kind is cleared. */
  lemma OnlyUsableIffCleared(m: Map, s: Map)
    requires Ordered(m) && m != [] && AllHandled(m) && IsOutcome(m, s)
    ensures OnlyUsable(m, s) <==> AllCleared(m)
  {
    OnlyUsableIffSpared(m, s);
    SparedIffCleared(m);
  }

  /** A usable entry that comes last and begins in one that is not usable ends later than it did. */
  lemma LastUsableGrows(m: Map)
    requires Ordered(m) && |m| >= 2
    requires var n := |m|; End(m[n - 2]) > m[n - 1].base && m[n - 2].kind != USABLE && m[n - 1].kind == USABLE
    ensures End(Final(m, |m| - 1)) == End(m[|m| - 1]) + (End(m[|m| - 2]) - m[|m| - 1].base)
    ensures !Shrunk(m)
  {
    var n := |m|;
    ArrivedIs(m, n - 2);
    ArrivedIs(m, n - 1);
    assert !Within(Final(m, n - 1), m[n - 1]);
  }

  /** So it is where no entry ends before the one before it. */
  lemma NotNestedIsCleared(m: Map, j: nat, i: nat)
    requires Ordered(m) && AllHandled(m) && j < i < |m|
    requires forall k | 0 <= k < |m| - 1 :: EndsLater(m, k)
    ensures Cleared(m, j, i)
    decreases i - j
  {
    if j + 1 < i && m[j].kind != USABLE && m[i].kind == USABLE {
      assert Handled(m, j) && EndsLater(m, j) && InOrder(m, j) && InOrder(m, j + 1);
      if j + 2 < i {
        BasesIncrease(m, j + 2, i);
      }
      BasesIncrease(m, j + 1, i);
      NotNestedIsCleared(m, j + 1, i);
    }
  }

  predicate EndsLater(m: Map, i: nat)
    requires i + 1 < |m|
  {
    End(m[i]) <= End(m[i + 1])
  }

  /** It is not so for a usable entry nested in a reserved one that another reserved one cuts short. */
  lemma NestedStaysUsable()
    ensures var m := [Entry(0, 100, 2, 1), Entry(10, 10, 2, 1), Entry(20, 10, USABLE, 1)];
      Ordered(m) && AllHandled(m) && !AllCleared(m)
  {
    var m := [Entry(0, 100, 2, 1), Entry(10, 10, 2, 1), Entry(20, 10, USABLE, 1)];
    assert !Cleared(m, 0, 2);
  }

  // ----- the clean-up itself -----

  predicate DistinctBases(s: Map) {
    forall i, j | 0 <= i < j < |s| :: s[i].base != s[j].base
  }

  /** What the clean-up takes for granted of the firmware's map. */
  predicate Sensible(s: Map) {
    DistinctBases(s) && forall i | 0 <= i < |s| :: s[i].length > 0 && End(s[i]) <= PHYSICAL_LIMIT
  }

  lemma CutOut(a: Map, k: nat)
    requires k < |a|
    ensures multiset(a) == multiset(a[..k] + a[k + 1..]) + multiset{a[k]}
  {
    assert a == a[..k] + [a[k]] + a[k + 1..];
  }

  lemma WithoutOne(a: Map, k: nat, b: Map, i: nat)
    requires multiset(a) == multiset(b) && k < |a| && i < |b| && a[k] == b[i]
    ensures multiset(a[..k] + a[k + 1..]) == multiset(b[..i] + b[i + 1..])
  {
    CutOut(a, k);
    CutOut(b, i);
    SameRest(multiset(a[..k] + a[k + 1..]), multiset(b[..i] + b[i + 1..]), b[i]);
  }

  lemma SameRest(x: multiset<Entry>, y: multiset<Entry>, e: Entry)
    requires x + multiset{e} == y + multiset{e}
    ensures x == y
  {
    assert x == (x + multiset{e}) - multiset{e};
  }

  /** Rearranging entries keeps their bases distinct. */
  lemma StillDistinct(a: Map, b: Map, i: nat, j: nat)
    requires DistinctBases(a) && multiset(a) == multiset(b) && i < j < |b|
    ensures b[i].base != b[j].base
  {
    assert b[i] in multiset(a);
    var k :| 0 <= k < |a| && a[k] == b[i];
    WithoutOne(a, k, b, i);
    var a', b' := a[..k] + a[k + 1..], b[..i] + b[i + 1..];
    assert b'[j - 1] == b[j] && b[j] in multiset(b');
    var m :| 0 <= m < |a'| && a'[m] == b[j];
    assert a'[m] == a[if m < k then m else m + 1];
  }

  lemma SortedIsOrdered(a: Map, b: Map)
    requires Sensible(a) && multiset(a) == multiset(b) && SortedByBase(b)
    ensures Ordered(b)
  {
    forall i | 0 <= i < |b| ensures InOrder(b, i) {
      assert b[i] in multiset(a);
      if i + 1 < |b| {
        StillDistinct(a, b, i, i + 1);
      }
    }
  }

  class FirmwareMap {
    const entries: array<Entry>
    var count: nat

    ghost predicate Valid()
      reads this
    {
      count <= entries.Length
    }

    ghost function Contents(): Map
      requires Valid()
      reads this, entries
    {
      entries[..count]
    }

    constructor (entries: array<Entry>, count: nat)
      requires count <= entries.Length
      ensures Valid() && this.entries == entries && this.count == count
    {
      this.entries, this.count := entries, count;
    }

    /** The entry of least base from i on (lines 123-130). */
    method Least(i: nat) returns (least: nat)
      requires Valid() && i < count
      ensures i <= least < count && forall b | i <= b < count :: entries[least].base <= entries[b].base
    {
      least := i;
      for j := i + 1 to count
        invariant i <= least < count && forall b | i <= b < j :: entries[least].base <= entries[b].base
      {
        if entries[j].base < entries[least].base {
          least := j;
        }
      }
    }

    method Swap(i: nat, j: nat)
      requires Valid() && i < count && j < count
      modifies entries
      ensures Contents() == Swapped(old(Contents()), i, j) && multiset(Contents()) == multiset(old(Contents()))
    {
      SwappedSame(Contents(), i, j);
      entries[i], entries[j] := entries[j], entries[i];
      assert Contents() == Swapped(old(Contents()), i, j);
    }

    /** One turn of the sort: the least of the entries from i goes to i (lines 122-133). */
    method SortNext(i: nat)
      requires Valid() && i < count && SortedUpTo(Contents(), i)
      modifies entries
      ensures SortedUpTo(Contents(), i + 1) && multiset(Contents()) == multiset(old(Contents()))
    {
      var least := Least(i);
      LeastNext(Contents(), i, least);
      if least != i {
        Swap(i, least);
      }
    }

    /** Selection sort by base (lines 118-135). */
    method Sort()
      requires Valid()
      modifies entries
      ensures SortedByBase(Contents()) && multiset(Contents()) == multiset(old(Contents()))
    {
      var i := 0;
      while i + 1 < count
        invariant i <= count && multiset(Contents()) == multiset(old(Contents()))
        invariant SortedUpTo(Contents(), i)
      {
        SortNext(i);
        i := i + 1;
      }
    }

    /** Trims the overlap of entry i and the next, or appends an entry for their gap (lines 153-172). */
    method LookAt(i: nat, actual: nat) returns (actual': nat)
      requires i + 1 < actual < entries.Length && entries[i].base <= WRAP
      modifies entries
      ensures actual' <= actual + 1 && actual' <= entries.Length
      ensures entries[..actual'] == LookedAt(old(entries[..actual]), i)
    {
      var e1, e2 := entries[i], entries[i + 1];
      actual' := actual;
      if e1.base + e1.length > e2.base {
        if e1.kind == e2.kind {
          entries[i] := e1.(length := Minus(e2.base, e1.base));
        } else if e1.kind == USABLE {
          entries[i] := e1.(length := Minus(e2.base, e1.base));
        } else if e2.kind == USABLE {
          entries[i + 1] := e2.(base := e1.base + e1.length);
        }
      } else if e1.base + e1.length < e2.base {
        var base := e1.base + e1.length;
        entries[actual] := Entry(base, e2.base - base, HOLE, 1);
        actual' := actual + 1;
      }
    }

    /** Looks at entry i of the sorted map and the next. */
    method LookAtNext(ghost m: Map, i: nat, actual: nat) returns (actual': nat)
      requires Ordered(m) && i + 1 < |m| && actual < entries.Length && entries[..actual] == Stage(m, i)
      modifies entries
      ensures |m| <= actual' <= actual + 1 && actual' <= entries.Length && entries[..actual'] == Stage(m, i + 1)
    {
      StageNext(m, i);
      StageLength(m, i + 1);
      actual' := LookAt(i, actual);
    }

    /** Looks at each pair of neighbours; `actual` is how many entries there are then (lines 152-173). */
    method MendPairs(ghost m: Map) returns (actual: nat)
      requires Valid() && 0 < count && 2 * count <= entries.Length && Ordered(m) && Contents() == m
      modifies this, entries
      ensures Valid() && count == old(count)
      ensures count <= actual < 2 * count && entries[..actual] == Stage(m, |m| - 1)
    {
      actual := count;
      StageFirst(m);
      var i := 0;
      while i + 1 < count
        invariant i < count == old(count) == |m| && count <= actual <= count + i
        invariant entries[..actual] == Stage(m, i)
      {
        actual := LookAtNext(m, i, actual);
        i := i + 1;
      }
    }

    /** Looks at every pair of neighbours of the sorted map (lines 149-174). */
    method Mend(ghost m: Map)
      requires Valid() && 2 * count <= entries.Length && Ordered(m) && Contents() == m
      modifies this, entries
      ensures Valid() && multiset(Contents()) == Pieces(m)
    {
      if count == 0 {
        NoPieces(m);
        return;
      }
      count := MendPairs(m);
      StageLast(m);
    }

    /** The clean-up (lines 137-176); `m` is the firmware's map sorted. */
    method Process() returns (ghost m: Map)
      requires Valid() && Sensible(Contents()) && 2 * count <= entries.Length
      modifies this, entries
      ensures Valid() && multiset(m) == multiset(old(Contents())) && SortedByBase(m)
      ensures Ordered(m) && IsOutcome(m, Contents())
    {
      Sort();
      m := Contents();
      SortedIsOrdered(old(Contents()), m);
      Mend(m);
      Sort();
    }
  }

  /** The map once entry i and the next have been looked at. */
  function LookedAt(s: Map, i: nat): Map
    requires i + 1 < |s| && s[i].base <= WRAP
  {
    s[i := Lower(s[i], s[i + 1])][i + 1 := Upper(s[i], s[i + 1])] + Gap(s[i], s[i + 1])
  }

  /** The map when entry i is about to be looked at. */
  function Stage(m: Map, i: nat): Map
    requires Ordered(m) && i < |m|
  {
    Trimmed(m, i) + [Arrived(m, i)] + m[i + 1..] + Holes(m, i)
  }

  lemma {:induction false} TrimmedLength(m: Map, n: nat)
    requires Ordered(m) && n <= |m|
    ensures |Trimmed(m, n)| == n
  {
    if n > 0 {
      TrimmedLength(m, n - 1);
    }
  }

  lemma StageNext(m: Map, i: nat)
    requires Ordered(m) && i + 1 < |m|
    ensures |Stage(m, i)| >= |m| && Stage(m, i)[i] == Arrived(m, i) && Arrived(m, i).base <= WRAP
    ensures LookedAt(Stage(m, i), i) == Stage(m, i + 1)
  {
    TrimmedLength(m, i);
    ArrivedSmall(m, i);
    var s := Stage(m, i);
    assert s[i + 1] == m[i + 1];
    assert m[i + 1..] == [m[i + 1]] + m[i + 2..];
    LookedAtParts(Trimmed(m, i), Arrived(m, i), m[i + 1], m[i + 2..] + Holes(m, i));
    assert s == Trimmed(m, i) + [Arrived(m, i), m[i + 1]] + (m[i + 2..] + Holes(m, i));
  }

  lemma LookedAtParts(t: Map, e1: Entry, e2: Entry, rest: Map)
    requires e1.base <= WRAP
    ensures var s := t + [e1, e2] + rest;
      LookedAt(s, |t|) == t + [Lower(e1, e2)] + [Upper(e1, e2)] + rest + Gap(e1, e2)
  {
  }

  lemma NoPieces(m: Map)
    requires Ordered(m) && m == []
    ensures Pieces(m) == multiset(m)
  {
  }

  lemma StageFirst(m: Map)
    requires Ordered(m) && m != []
    ensures Stage(m, 0) == m
  {
  }

  lemma StageLength(m: Map, i: nat)
    requires Ordered(m) && i < |m|
    ensures |Stage(m, i)| >= |m|
  {
    TrimmedLength(m, i);
  }

  lemma StageLast(m: Map)
    requires Ordered(m) && m != []
    ensures multiset(Stage(m, |m| - 1)) == Pieces(m)
  {
    var n := |m|;
    assert m[n..] == [];
    assert Stage(m, n - 1) == Trimmed(m, n) + Holes(m, n - 1);
  }

  function Swapped(s: Map, i: nat, j: nat): Map
    requires i < |s| && j < |s|
  {
    s[i := s[j]][j := s[i]]
  }

  lemma SwappedSame(s: Map, i: nat, j: nat)
    requires i < |s| && j < |s|
    ensures multiset(Swapped(s, i, j)) == multiset(s)
  {
  }

  /** The first n entries are sorted, and none after them has a lesser base. */
  predicate SortedUpTo(s: Map, n: nat) {
    forall a, b | 0 <= a < n && a <= b < |s| :: s[a].base <= s[b].base
  }

  lemma LeastNext(s: Map, i: nat, least: nat)
    requires SortedUpTo(s, i) && i <= least < |s| && forall b | i <= b < |s| :: s[least].base <= s[b].base
    ensures SortedUpTo(Swapped(s, i, least), i + 1) && (least == i ==> SortedUpTo(s, i + 1))
  {
  }
}
