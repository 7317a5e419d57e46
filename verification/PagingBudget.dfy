/** How many frames mapping a range takes: one for each table missing on the paths of its pages. It
    panics exactly if there are not as many (src/boot/virtualmemmgmt.cpp, lines 499-534). */
module PagingBudget {
  import opened Shifts
  import opened BuddyBits
  import opened PageWalk
  import opened PageTree
  import opened Paging

  /** The tables on the paths of n pages that are not there. */
  ghost function Missing(tables: Tables, address: nat, n: nat): set<Path> {
    Needed(address, n) - tables.Keys
  }

  lemma {:induction false} NeededGrows(address: nat, n: nat, count: nat)
    requires n <= count
    ensures Needed(address, n) <= Needed(address, count)
    decreases count
  {
    if n < count {
      NeededGrows(address, n, count - 1);
    }
  }

  /** The new tables of a range in part are missing tables of the range. */
  lemma NewAreMissing(tables: Tables, tables': Tables, address: nat, n: nat, count: nat)
    requires OnlyForRange(tables, tables', address, n) && n <= count
    ensures tables'.Keys - tables.Keys <= Missing(tables, address, count)
  {
    NeededGrows(address, n, count);
  }

  /** The tables of a page that is mapped are there. */
  lemma TablesOfMapped(ram: Ram, root: nat, tables: Tables, q: Path)
    requires Tree(ram, root, tables) && |q| == 4 && MappedAt(ram, tables, q).Some?
    ensures TablesFor(q) <= tables.Keys
  {
    forall p | p in TablesFor(q) ensures p in tables {
      TablesForIs(p, q);
      PageHasTables(ram, root, tables, p, q);
    }
  }

  /** As many frames were taken as there are new tables. */
  lemma FramesSpent(s: State, s': State)
    requires Grew(s.pages, s.tables, s'.pages, s'.tables)
    ensures FreeAbove(s.pages) == FreeAbove(s'.pages) + |s'.tables.Keys - s.tables.Keys|
  {
    assert s'.tables.Keys == s.tables.Keys + (s'.tables.Keys - s.tables.Keys);
  }

  ghost predicate Mapped(s: State, q: Path)
    requires |q| == 4
  {
    MappedAt(s.ram, s.tables, q).Some?
  }

  lemma RangeIsMapped(s: State, s': State, address: nat, frame: nat, flags: Flags, n: nat)
    requires RangeMapped(s, s', address, frame, flags, n)
    ensures forall i: nat | i < n :: Mapped(s', PageAt(address, i))
  {
    forall i: nat | i < n ensures Mapped(s', PageAt(address, i)) {
      assert PageIs(s, s', PageAt(address, i), i, frame, flags);
    }
  }

  ghost predicate TablesWithin(q: Path, paths: set<Path>)
    requires |q| == 4
  {
    TablesFor(q) <= paths
  }

  lemma {:induction false} NeededWithin(address: nat, n: nat, paths: set<Path>)
    requires forall i: nat | i < n :: TablesWithin(PageAt(address, i), paths)
    ensures Needed(address, n) <= paths
  {
    if n > 0 {
      NeededWithin(address, n - 1, paths);
      assert TablesWithin(PageAt(address, n - 1), paths);
    }
  }

  /** The tables on the paths of mapped pages are there. */
  lemma NeededMade(s: State, root: nat, address: nat, n: nat)
    requires Tree(s.ram, root, s.tables) && forall i: nat | i < n :: Mapped(s, PageAt(address, i))
    ensures Needed(address, n) <= s.tables.Keys
  {
    forall i: nat | i < n ensures TablesWithin(PageAt(address, i), s.tables.Keys) {
      assert Mapped(s, PageAt(address, i));
      TablesOfMapped(s.ram, root, s.tables, PageAt(address, i));
    }
    NeededWithin(address, n, s.tables.Keys);
  }

  lemma Joined(a: set<Path>, b: set<Path>, c: set<Path>)
    requires a <= b <= a + c && c <= b
    ensures b == a + c && b - a == c - a
  {
  }

  lemma KeysMade(s: State, s': State, address: nat, frame: nat, flags: Flags, n: nat)
    requires RangeMapped(s, s', address, frame, flags, n) && Needed(address, n) <= s'.tables.Keys
    ensures s'.tables.Keys == s.tables.Keys + Needed(address, n)
    ensures s'.tables.Keys - s.tables.Keys == Missing(s.tables, address, n)
  {
    Joined(s.tables.Keys, s'.tables.Keys, Needed(address, n));
  }

  /** A mapped range took a frame for each missing table, no more and no fewer. */
  lemma MissingMade(s: State, s': State, root: nat, address: nat, frame: nat, flags: Flags, n: nat)
    requires RangeMapped(s, s', address, frame, flags, n) && Tree(s'.ram, root, s'.tables)
    ensures s'.tables.Keys == s.tables.Keys + Needed(address, n)
    ensures FreeAbove(s.pages) == FreeAbove(s'.pages) + |Missing(s.tables, address, n)|
  {
    RangeIsMapped(s, s', address, frame, flags, n);
    NeededMade(s', root, address, n);
    KeysMade(s, s', address, frame, flags, n);
    FramesSpent(s, s');
  }

  /** Where mapping is stuck, every frame went to a missing table, and one more is missing. */
  lemma StuckShort(s: State, last: State, s': State, address: nat, frame: nat, flags: Flags, n: nat, count: nat)
    requires RangeMapped(s, last, address, frame, flags, n) && n < count
    requires Stuck(last, s', PageAt(address, n))
    ensures |Missing(s.tables, address, count)| > FreeAbove(s.pages)
  {
    GrewTransitive(s.pages, s.tables, last.pages, last.tables, s'.pages, s'.tables);
    OnlyForOneMore(s.tables, last.tables, s'.tables, address, n);
    NewAreMissing(s.tables, s'.tables, address, n + 1, count);
    FramesSpent(s, s');
    NoFitMeansNone(s'.pages);
    var p :| IsTableOf(p, PageAt(address, n)) && p !in s'.tables;
    TablesForIs(p, PageAt(address, n));
    NeededGrows(address, n + 1, count);
    StrictlyFewer(s'.tables.Keys - s.tables.Keys, Missing(s.tables, address, count), p);
  }

  lemma StrictlyFewer(a: set<Path>, b: set<Path>, p: Path)
    requires a <= b && p in b && p !in a
    ensures |a| < |b|
  {
    assert b == (b - a) + a && p in b - a;
  }

  /** How many pages of a range there are up to its first one that is not canonical. */
  ghost predicate Reaches(address: nat, count: nat, n: nat) {
    n <= count && AllCanonical(address, n) && (n < count ==> !IsCanonical(PageAddress(address, n)))
  }

  lemma StoppedReaches(address: nat, count: nat, n: nat, outcome: Outcome, reach: nat)
    requires Stopped(address, count, n, outcome) && Reaches(address, count, reach)
    ensures if outcome.Panicked? then n < reach else n == reach
  {
    assert reach < n ==> IsCanonical(PageAddress(address, reach));
    assert n < reach || (outcome.Panicked? && n == reach) ==> IsCanonical(PageAddress(address, n));
  }

  /** Mapping a range panics exactly if more tables are missing than frames are free. */
  lemma PanicsIffShort(s: State, last: State, s': State, root: nat, address: nat, frame: nat, flags: Flags,
                       count: nat, n: nat, outcome: Outcome, reach: nat)
    requires Stopped(address, count, n, outcome) && Reaches(address, count, reach)
    requires RangeMapped(s, last, address, frame, flags, n) && Tree(s'.ram, root, s'.tables)
    requires if outcome.Panicked? then Stuck(last, s', PageAt(address, n)) else last == s'
    ensures outcome.Panicked? <==> |Missing(s.tables, address, reach)| > FreeAbove(s.pages)
    ensures !outcome.Panicked? ==> FreeAbove(s'.pages) == FreeAbove(s.pages) - |Missing(s.tables, address, reach)|
  {
    StoppedReaches(address, count, n, outcome, reach);
    if outcome.Panicked? {
      StuckShort(s, last, s', address, frame, flags, n, reach);
    } else {
      MissingMade(s, s', root, address, frame, flags, n);
    }
  }

  // ----- runs of free frames -----

  lemma {:induction false} SuffixCounts(pages: seq<bool>, k: nat)
    requires k <= |pages|
    ensures CountClear(pages[k..]) <= CountClear(pages)
  {
    if k < |pages| {
      var n := |pages| - 1;
      assert pages[k..][..n - k] == pages[..n][k..];
      SuffixCounts(pages[..n], k);
    }
  }

  /** The pages from `frame` marked used or free. */
  function Refilled(pages: seq<bool>, frame: nat, count: nat, used: bool): (r: seq<bool>)
    ensures |r| == |pages|
  {
    seq(|pages|, p requires 0 <= p < |pages| => if frame <= p < frame + count then used else pages[p])
  }

  /** Taking a run of free pages leaves as many fewer. */
  lemma {:induction false} RunTaken(pages: seq<bool>, frame: nat, count: nat)
    requires FIRST_PAGE <= frame && Run(pages, frame, count, false)
    ensures FreeAbove(Refilled(pages, frame, count, true)) + count == FreeAbove(pages)
  {
    if count == 0 {
      assert Refilled(pages, frame, 0, true) == pages;
    } else {
      RunTaken(pages, frame, count - 1);
      var before := Refilled(pages, frame, count - 1, true);
      FreeAboveTaken(before, frame + count - 1);
      assert Refilled(pages, frame, count, true) == before[frame + count - 1 := true];
    }
  }

  /** There is no run of more pages than are free. */
  lemma TooManyDoNotFit(pages: seq<bool>, count: nat)
    ensures count > CountClear(pages) ==> NoFit(pages, count)
  {
    forall s | FIRST_PAGE <= s && Run(pages, s, count, false) ensures count <= CountClear(pages) {
      if |pages| > FIRST_PAGE {
        RunTaken(pages, s, count);
        SuffixCounts(pages, FIRST_PAGE);
      }
    }
  }
}
