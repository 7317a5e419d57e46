/** Giving a range of virtual pages physical pages of its own, and taking them back
    (src/boot/virtualmemmgmt.cpp, lines 322-347 and 416-421). */
module Allocation {
  import opened Options
  import opened Shifts
  import opened BuddyBits
  import opened Physical
  import opened PageWalk
  import opened PageTree
  import opened Paging
  import opened PagingBudget
  import opened PagingRoundTrip

  // ----- the frames of a range -----

  function Consecutive(frame: nat, n: nat): (r: seq<nat>)
    ensures |r| == n && forall i | 0 <= i < n :: r[i] == frame + i
  {
    seq(n, i requires 0 <= i < n => frame + i)
  }

  function Elements(frames: seq<nat>): set<nat> {
    set f | f in frames
  }

  ghost predicate Distinct(frames: seq<nat>) {
    forall i, j | 0 <= i < j < |frames| :: frames[i] != frames[j]
  }

  /** Page f is used now if it was, or if it is one of the frames taken or holds a new table; and of
      these it is one only. */
  ghost predicate OnceUsed(s: State, s': State, taken: set<nat>, f: nat)
    requires f < |s.pages| == |s'.pages|
  {
    var made := f in NewFrames(s.tables, s'.tables);
    && s'.pages[f] == (s.pages[f] || f in taken || made)
    && !(s.pages[f] && f in taken) && !(s.pages[f] && made) && !(f in taken && made)
  }

  /** Frames were taken, new tables were made in others, and all of them were free. */
  ghost predicate FramesTaken(s: State, s': State, taken: set<nat>) {
    && |s'.pages| == |s.pages| && Extends(s.tables, s'.tables)
    && (forall f | f in taken :: f < |s.pages|)
    && forall f: nat | f < |s.pages| :: OnceUsed(s, s', taken, f)
  }

  /** Page q is mapped to a frame, unless it was mapped before. */
  ghost predicate FrameIs(s: State, s': State, q: Path, frame: nat, flags: Flags)
    requires |q| == 4
  {
    MappedAt(s'.ram, s'.tables, q) == MappedOnce(MappedAt(s.ram, s.tables, q), LeafEntry(frame, flags))
  }

  /** The pages from an address are mapped, one by one, to frames, and no other page changed. */
  ghost predicate MappedTo(s: State, s': State, address: nat, frames: seq<nat>, flags: Flags) {
    && SameMapping(s.ram, s.tables, s'.ram, s'.tables, PathsOf(address, |frames|))
    && forall i: nat | i < |frames| :: FrameIs(s, s', PageAt(address, i), frames[i], flags)
  }

  /** The pages from an address are mapped to frames that were all free, on top of which only new
      tables on the pages' paths were made. */
  ghost predicate FreshlyMapped(s: State, s': State, address: nat, frames: seq<nat>, flags: Flags) {
    && Distinct(frames) && FramesTaken(s, s', Elements(frames))
    && OnlyForRange(s.tables, s'.tables, address, |frames|)
    && MappedTo(s, s', address, frames, flags)
  }

  // ----- one piece more -----

  lemma {:induction false} PathsJoined(address: nat, a: nat, n: nat)
    ensures PathsOf(address, a + n) == PathsOf(address, a) + PathsOf(PageAddress(address, a), n)
    decreases n
  {
    if n > 0 {
      PathsJoined(address, a, n - 1);
      PagesJoined(address, a, n - 1);
      PathsOneMore(address, a + n);
      PathsOneMore(PageAddress(address, a), n);
    }
  }

  lemma PathsOneMore(address: nat, n: nat)
    requires n > 0
    ensures PathsOf(address, n) == PathsOf(address, n - 1) + {PageAt(address, n - 1)}
    ensures Needed(address, n) == Needed(address, n - 1) + TablesFor(PageAt(address, n - 1))
  {
  }

  lemma {:induction false} NeededJoined(address: nat, a: nat, n: nat)
    ensures Needed(address, a + n) == Needed(address, a) + Needed(PageAddress(address, a), n)
    decreases n
  {
    if n > 0 {
      NeededJoined(address, a, n - 1);
      PagesJoined(address, a, n - 1);
      PathsOneMore(address, a + n);
      PathsOneMore(PageAddress(address, a), n);
    }
  }

  lemma {:induction false} PagesJoined(address: nat, a: nat, i: nat)
    ensures PageAt(PageAddress(address, a), i) == PageAt(address, a + i)
    decreases a
  {
    if a > 0 {
      PagesJoined(address + 4096, a - 1, i);
      assert PageAddress(address + 4096, a - 1) == PageAddress(address, a);
    }
  }

  /** A page of the first piece of a range is not in the second. */
  lemma NotInSecond(address: nat, a: nat, n: nat, i: nat)
    requires AllCanonical(address, a + n) && i < a
    ensures PageAt(address, i) !in PathsOf(PageAddress(address, a), n)
  {
    var q := PageAt(address, i);
    PathsOfIs(PageAddress(address, a), n, q);
    if q in PathsOf(PageAddress(address, a), n) {
      var j: nat :| j < n && IsPage(q, PageAddress(address, a), j);
      PagesJoined(address, a, j);
      SamePageSameNumber(address, a + n, i, a + j);
    }
  }

  /** A page of the second piece is not in the first. */
  lemma NotInFirst(address: nat, a: nat, n: nat, i: nat)
    requires AllCanonical(address, a + n) && i < n
    ensures PageAt(PageAddress(address, a), i) == PageAt(address, a + i)
    ensures PageAt(PageAddress(address, a), i) !in PathsOf(address, a)
  {
    var q := PageAt(address, a + i);
    PagesJoined(address, a, i);
    PathsOfIs(address, a, q);
    if q in PathsOf(address, a) {
      var j: nat :| j < a && IsPage(q, address, j);
      SamePageSameNumber(address, a + n, a + i, j);
    }
  }

  lemma NewFramesJoined(tables: Tables, tables': Tables, tables'': Tables)
    requires Extends(tables, tables') && Extends(tables', tables'')
    ensures NewFrames(tables, tables'') == NewFrames(tables, tables') + NewFrames(tables', tables'')
    ensures Extends(tables, tables'')
  {
    ValuesExtend(tables, tables');
    ValuesExtend(tables', tables'');
  }

  lemma FramesTakenMore(s: State, s': State, s'': State, taken: set<nat>, frame: nat, n: nat)
    requires FramesTaken(s, s', taken) && Run(s'.pages, frame, n, false)
    requires Grew(Refilled(s'.pages, frame, n, true), s'.tables, s''.pages, s''.tables)
    ensures FramesTaken(s, s'', taken + Elements(Consecutive(frame, n)))
    ensures taken !! Elements(Consecutive(frame, n))
  {
    var more := Elements(Consecutive(frame, n));
    ConsecutiveIs(frame, n);
    NewFramesJoined(s.tables, s'.tables, s''.tables);
    forall f: nat | f < |s.pages| ensures OnceUsed(s, s'', taken + more, f) {
      assert OnceUsed(s, s', taken, f);
      assert f in more ==> !s'.pages[f];
    }
    forall f | f in taken ensures f !in more {
      assert OnceUsed(s, s', taken, f);
      assert s'.pages[f];
    }
  }

  lemma ConsecutiveIs(frame: nat, n: nat)
    ensures forall f: nat :: f in Elements(Consecutive(frame, n)) <==> frame <= f < frame + n
    ensures Distinct(Consecutive(frame, n))
  {
    forall f: nat | frame <= f < frame + n ensures f in Consecutive(frame, n) {
      assert Consecutive(frame, n)[f - frame] == f;
    }
  }

  lemma DistinctJoined(frames: seq<nat>, more: seq<nat>)
    requires Distinct(frames) && Distinct(more) && Elements(frames) !! Elements(more)
    ensures Distinct(frames + more) && Elements(frames + more) == Elements(frames) + Elements(more)
  {
    forall i, j | 0 <= i < j < |frames + more| ensures (frames + more)[i] != (frames + more)[j] {
      if i < |frames| <= j {
        assert frames[i] in Elements(frames) && more[j - |frames|] in Elements(more);
      }
    }
  }

  lemma SameMappingJoined(s: State, s': State, s'': State, a: set<Path>, b: set<Path>)
    requires SameMapping(s.ram, s.tables, s'.ram, s'.tables, a)
             && SameMapping(s'.ram, s'.tables, s''.ram, s''.tables, b)
    ensures SameMapping(s.ram, s.tables, s''.ram, s''.tables, a + b)
  {
  }

  /** A page of the first piece stays as it is. */
  lemma FirstPiece(s: State, s': State, s'': State, q: Path, frame: nat, flags: Flags, except: set<Path>)
    requires |q| == 4 && FrameIs(s, s', q, frame, flags) && q !in except
    requires SameMapping(s'.ram, s'.tables, s''.ram, s''.tables, except)
    ensures FrameIs(s, s'', q, frame, flags)
  {
  }

  /** A page of the second piece was not changed with the first. */
  lemma SecondPiece(s: State, s': State, s'': State, q: Path, frame: nat, flags: Flags, except: set<Path>)
    requires |q| == 4 && SameMapping(s.ram, s.tables, s'.ram, s'.tables, except) && q !in except
    requires FrameIs(s', s'', q, frame, flags)
    ensures FrameIs(s, s'', q, frame, flags)
  {
  }

  lemma PageOfFirst(s: State, s': State, s'': State, address: nat, frames: seq<nat>, n: nat, flags: Flags, i: nat)
    requires MappedTo(s, s', address, frames, flags) && AllCanonical(address, |frames| + n) && i < |frames|
    requires SameMapping(s'.ram, s'.tables, s''.ram, s''.tables, PathsOf(PageAddress(address, |frames|), n))
    ensures FrameIs(s, s'', PageAt(address, i), frames[i], flags)
  {
    NotInSecond(address, |frames|, n, i);
    FirstPiece(s, s', s'', PageAt(address, i), frames[i], flags, PathsOf(PageAddress(address, |frames|), n));
  }

  lemma PageOfSecond(s: State, s': State, s'': State, address: nat, a: nat, more: seq<nat>, flags: Flags, i: nat)
    requires SameMapping(s.ram, s.tables, s'.ram, s'.tables, PathsOf(address, a)) && AllCanonical(address, a + |more|)
    requires MappedTo(s', s'', PageAddress(address, a), more, flags) && i < |more|
    ensures FrameIs(s, s'', PageAt(PageAddress(address, a), i), more[i], flags)
    ensures PageAt(PageAddress(address, a), i) == PageAt(address, a + i)
  {
    NotInFirst(address, a, |more|, i);
    SecondPiece(s, s', s'', PageAt(PageAddress(address, a), i), more[i], flags, PathsOf(address, a));
  }

  lemma PageOfEither(s: State, s': State, s'': State, address: nat, frames: seq<nat>,
                     more: seq<nat>, flags: Flags, i: nat)
    requires AllCanonical(address, |frames| + |more|) && i < |frames + more|
    requires MappedTo(s, s', address, frames, flags) && MappedTo(s', s'', PageAddress(address, |frames|), more, flags)
    ensures FrameIs(s, s'', PageAt(address, i), (frames + more)[i], flags)
  {
    if i < |frames| {
      PageOfFirst(s, s', s'', address, frames, |more|, flags, i);
    } else {
      PageOfSecond(s, s', s'', address, |frames|, more, flags, i - |frames|);
    }
  }

  lemma OthersStay(s: State, s': State, s'': State, address: nat, a: nat, n: nat, total: nat)
    requires SameMapping(s.ram, s.tables, s'.ram, s'.tables, PathsOf(address, a)) && total == a + n
    requires SameMapping(s'.ram, s'.tables, s''.ram, s''.tables, PathsOf(PageAddress(address, a), n))
    ensures SameMapping(s.ram, s.tables, s''.ram, s''.tables, PathsOf(address, total))
  {
    PathsJoined(address, a, n);
    SameMappingJoined(s, s', s'', PathsOf(address, a), PathsOf(PageAddress(address, a), n));
  }

  /** Mapping one piece after another. */
  lemma MappedToJoined(s: State, s': State, s'': State, address: nat, frames: seq<nat>, more: seq<nat>, flags: Flags)
    requires AllCanonical(address, |frames| + |more|)
    requires MappedTo(s, s', address, frames, flags) && MappedTo(s', s'', PageAddress(address, |frames|), more, flags)
    ensures MappedTo(s, s'', address, frames + more, flags)
  {
    OthersStay(s, s', s'', address, |frames|, |more|, |frames + more|);
    forall i: nat | i < |frames + more| ensures FrameIs(s, s'', PageAt(address, i), (frames + more)[i], flags) {
      PageOfEither(s, s', s'', address, frames, more, flags, i);
    }
  }

  lemma OnlyForBoth(tables: Tables, tables': Tables, tables'': Tables, address: nat, a: nat, n: nat)
    requires OnlyForRange(tables, tables', address, a) && OnlyForRange(tables', tables'', PageAddress(address, a), n)
    ensures OnlyForRange(tables, tables'', address, a + n)
  {
    NeededJoined(address, a, n);
  }

  lemma PageIsFrame(s: State, taken: State, s': State, q: Path, i: nat, frame: nat, f: nat, flags: Flags)
    requires |q| == 4 && taken.ram == s.ram && taken.tables == s.tables && PageIs(taken, s', q, i, frame, flags)
    requires f == frame + i
    ensures FrameIs(s, s', q, f, flags)
  {
  }

  lemma RangeIsMappedTo(s: State, taken: State, s': State, address: nat, frame: nat, n: nat, flags: Flags)
    requires taken.ram == s.ram && taken.tables == s.tables && RangeMapped(taken, s', address, frame, flags, n)
    ensures MappedTo(s, s', address, Consecutive(frame, n), flags)
  {
    forall i: nat | i < n ensures FrameIs(s, s', PageAt(address, i), Consecutive(frame, n)[i], flags) {
      PageIsFrame(s, taken, s', PageAt(address, i), i, frame, Consecutive(frame, n)[i], flags);
    }
  }

  /** Mapping a run of free frames after the pages mapped so far. */
  lemma OnePieceMore(s: State, s': State, s'': State, address: nat, frames: seq<nat>, frame: nat, n: nat, flags: Flags)
    requires FreshlyMapped(s, s', address, frames, flags) && AllCanonical(address, |frames| + n)
    requires Run(s'.pages, frame, n, false)
    requires RangeMapped(s'.(pages := Refilled(s'.pages, frame, n, true)), s'', PageAddress(address, |frames|), frame,
                         flags, n)
    ensures FreshlyMapped(s, s'', address, frames + Consecutive(frame, n), flags)
  {
    var taken := s'.(pages := Refilled(s'.pages, frame, n, true));
    ConsecutiveIs(frame, n);
    TakenJoined(s, s', s'', frames, frame, n);
    OnlyForBoth(s.tables, s'.tables, s''.tables, address, |frames|, n);
    RunMappedJoined(s, s', taken, s'', address, frames, frame, n, flags);
  }

  lemma TakenJoined(s: State, s': State, s'': State, frames: seq<nat>, frame: nat, n: nat)
    requires Distinct(frames) && FramesTaken(s, s', Elements(frames)) && Run(s'.pages, frame, n, false)
    requires Grew(Refilled(s'.pages, frame, n, true), s'.tables, s''.pages, s''.tables)
    ensures Distinct(frames + Consecutive(frame, n)) && FramesTaken(s, s'', Elements(frames + Consecutive(frame, n)))
  {
    FramesTakenMore(s, s', s'', Elements(frames), frame, n);
    ConsecutiveIs(frame, n);
    DistinctJoined(frames, Consecutive(frame, n));
  }

  lemma RunMappedJoined(s: State, s': State, taken: State, s'': State, address: nat, frames: seq<nat>, frame: nat,
                        n: nat, flags: Flags)
    requires AllCanonical(address, |frames| + n) && MappedTo(s, s', address, frames, flags)
    requires taken.ram == s'.ram && taken.tables == s'.tables
    requires RangeMapped(taken, s'', PageAddress(address, |frames|), frame, flags, n)
    ensures MappedTo(s, s'', address, frames + Consecutive(frame, n), flags)
  {
    RangeIsMappedTo(s', taken, s'', PageAddress(address, |frames|), frame, n, flags);
    MappedToJoined(s, s', s'', address, frames, Consecutive(frame, n), flags);
  }

  lemma FreshNone(s: State, address: nat, flags: Flags)
    ensures FreshlyMapped(s, s, address, [], flags)
  {
  }

  // ----- taking the frames -----

  lemma MarkedIsRefilled(bits: Bits, frame: nat, count: nat, used: bool)
    requires |bits| == ORDERS
    ensures Marked(bits, frame, count, used)[0] == Refilled(bits[0], frame, count, used)
  {
  }

  lemma UsedWhenMore(tables: Tables, pages: seq<bool>, frame: nat, count: nat)
    requires AllUsed(tables, pages)
    ensures AllUsed(tables, Refilled(pages, frame, count, true))
  {
    forall p | p in tables ensures UsedFrame(tables, Refilled(pages, frame, count, true), p) {
      assert UsedFrame(tables, pages, p);
    }
  }

  /** With PhysicalContiguous: the first fit. */
  ghost predicate FirstFitGranted(pages: seq<bool>, count: nat, r: PageRequestResult) {
    r.Granted? && r.count == count && IsFirstFit(pages, count, r.page)
  }

  /** Without: a buddy of the closest order, or of the largest below, whatever is asked for. */
  ghost predicate BuddyGranted(bits: Bits, count: nat, r: PageRequestResult)
    requires |bits| == ORDERS
  {
    && r.Granted?
    && exists level, k, j ::
         IsClosestLevel(count, level) && IsBuddyChoice(bits, level, k, j) && r == Granted(Left(j, k), Left(1, k))
  }

  /** What a request for pages is granted. */
  ghost predicate Grants(bits: Bits, count: nat, contiguous: bool, r: PageRequestResult)
    requires |bits| == ORDERS
  {
    if contiguous then FirstFitGranted(bits[0], count, r) else BuddyGranted(bits, count, r)
  }

  lemma GrantsUnique(bits: Bits, count: nat, contiguous: bool, r: PageRequestResult, r': PageRequestResult)
    requires |bits| == ORDERS && count > 0 && Grants(bits, count, contiguous, r) && Grants(bits, count, contiguous, r')
    ensures r == r'
  {
    if !contiguous {
      var level, k, j :|
        && IsClosestLevel(count, level) && IsBuddyChoice(bits, level, k, j)
        && r == Granted(Left(j, k), Left(1, k));
      var level', k', j' :|
        && IsClosestLevel(count, level') && IsBuddyChoice(bits, level', k', j')
        && r' == Granted(Left(j', k'), Left(1, k'));
      ClosestLevelUnique(count, level, level');
      BuddyChoiceUnique(bits, level, k, j, k', j');
    }
  }

  /** No pages are granted. */
  ghost predicate Refuses(bits: Bits, count: nat, contiguous: bool)
    requires |bits| == ORDERS
  {
    if contiguous then NoFit(bits[0], count) else count > CountClear(bits[0]) || count > Left(1, ORDERS - 1)
  }

  /** Takes pages (line 325). */
  method TakePages(m: PageTables, count: nat, contiguous: bool) returns (r: PageRequestResult)
    requires m.Valid() && count > 0
    modifies m.physical`available, m.physical`bits, m.physical.bitmaps
    ensures m.Valid()
    ensures r.Refused? <==> Refuses(old(m.physical.bits), count, contiguous)
    ensures r.Refused? ==> m.physical.bits == old(m.physical.bits)
    ensures OnlySet(old(m.physical.bits), m.physical.bits)
    ensures r.Granted? ==>
              && Grants(old(m.physical.bits), count, contiguous, r) && r.count > 0
              && Run(old(m.physical.bits[0]), r.page, r.count, false)
              && m.physical.bits[0] == Refilled(old(m.physical.bits[0]), r.page, r.count, true)
  {
    TooManyDoNotFit(m.physical.bits[0], count);
    OnlySetReflexive(m.physical.bits);
    r := m.physical.RequestPages(count, contiguous);
    if r.Granted? {
      MarkedIsRefilled(old(m.physical.bits), r.page, r.count, true);
      MarkedOnlySets(old(m.physical.bits), r.page, r.count);
      UsedWhenMore(m.tables, old(m.physical.bits[0]), r.page, r.count);
    }
  }

  /** Too few pages are free for the tables that are missing once the grant is taken. */
  ghost predicate Short(pages: seq<bool>, tables: Tables, address: nat, r: PageRequestResult)
    requires r.Granted?
  {
    |Missing(tables, address, r.count)| > FreeAbove(Refilled(pages, r.page, r.count, true))
  }

  /** Why the pages that are left cannot be had: none are granted, or more than are left, or tables
      cannot be made. */
  ghost predicate PieceFails(bits: Bits, tables: Tables, address: nat, left: nat, contiguous: bool)
    requires |bits| == ORDERS
  {
    || Refuses(bits, left, contiguous)
    || exists r: PageRequestResult | r.Granted? ::
         Grants(bits, left, contiguous, r) && (r.count > left || Short(bits[0], tables, address, r))
  }

  lemma FailsIs(bits: Bits, tables: Tables, address: nat, left: nat, contiguous: bool, r: PageRequestResult)
    requires |bits| == ORDERS && left > 0 && r.Granted? && Grants(bits, left, contiguous, r)
    requires !Refuses(bits, left, contiguous)
    ensures PieceFails(bits, tables, address, left, contiguous) <==>
            r.count > left || Short(bits[0], tables, address, r)
  {
    if PieceFails(bits, tables, address, left, contiguous) {
      var r': PageRequestResult :|
        r'.Granted? && Grants(bits, left, contiguous, r') && (r'.count > left || Short(bits[0], tables, address, r'));
      GrantsUnique(bits, left, contiguous, r, r');
    }
  }

  /** With PhysicalContiguous: there is no run of as many free pages, or too few pages are free for
      them and for the missing tables. */
  ghost predicate OutOfMemory(pages: seq<bool>, tables: Tables, address: nat, count: nat) {
    NoFit(pages, count) || |Missing(tables, address, count)| + count > FreeAbove(pages)
  }

  /** If there is a run at all there is a first one. */
  lemma {:induction false} FirstFitFrom(pages: seq<bool>, count: nat, from: nat) returns (frame: nat)
    requires FIRST_PAGE <= from && !NoFit(pages, count)
    requires forall s | FIRST_PAGE <= s < from :: !Run(pages, s, count, false)
    ensures IsFirstFit(pages, count, frame)
    decreases |pages| - from
  {
    var s :| FIRST_PAGE <= s && Run(pages, s, count, false);
    if Run(pages, from, count, false) {
      frame := from;
    } else {
      frame := FirstFitFrom(pages, count, from + 1);
    }
  }

  lemma FailsContiguous(bits: Bits, tables: Tables, address: nat, count: nat)
    requires |bits| == ORDERS && count > 0
    ensures PieceFails(bits, tables, address, count, true) <==> OutOfMemory(bits[0], tables, address, count)
  {
    if !NoFit(bits[0], count) {
      var frame := FirstFitFrom(bits[0], count, FIRST_PAGE);
      FailsIs(bits, tables, address, count, true, Granted(frame, count));
      RunTaken(bits[0], frame, count);
    }
  }

  /** Takes pages and maps a range, or the first part of it, to them (lines 324-346); 0 stands for a
      panic. If more pages are granted than are left, the number that then is left wraps around, and
      no request for as many is granted; what was mapped before does not matter. */
  method MapPiece(m: PageTables, address: nat, left: nat, flags: Flags, contiguous: bool)
    returns (taken: nat, ghost frame: nat)
    requires m.Valid() && NoneEmpty(m.ram, m.tables)
    requires left > 0 && address % 4096 == 0 && address + left * 4096 <= ADDRESS_LIMIT
    requires AllCanonical(address, left) && AvoidsSelf(address, left)
    modifies m`ram, m`tables, m.physical`available, m.physical`bits, m.physical.bitmaps
    ensures m.Valid() && taken <= left && OnlySet(old(m.physical.bits), m.physical.bits)
    ensures taken == 0 <==> PieceFails(old(m.physical.bits), old(m.tables), address, left, contiguous)
    ensures taken > 0 ==> NoneEmpty(m.ram, m.tables) && Run(old(m.physical.bits[0]), frame, taken, false)
    ensures taken > 0 ==> Grants(old(m.physical.bits), left, contiguous, Granted(frame, taken))
    ensures taken > 0 ==>
              RangeMapped(old(m.Now()).(pages := Refilled(old(m.Now()).pages, frame, taken, true)), m.Now(), address,
                          frame, flags, taken)
  {
    var r := TakePages(m, left, contiguous);
    if r.Refused? {
      return 0, 0;
    }
    FailsIs(old(m.physical.bits), m.tables, address, left, contiguous, r);
    if r.count > left {
      return 0, 0;
    }
    frame := r.page;
    ghost var middle, between := m.Now(), m.physical.bits;
    var physicalAddress := r.page * 4096;
    assert physicalAddress / 4096 == frame && physicalAddress % 4096 == 0;
    var outcome, n, last := m.MapPages(address, physicalAddress, r.count, flags);
    OnlySetTransitive(old(m.physical.bits), between, m.physical.bits);
    StoppedByPanic(address, r.count, n, outcome);
    PanicsIffShort(middle, last, m.Now(), m.root, address, frame, flags, r.count, n, outcome, r.count);
    taken := if outcome == Done then r.count else 0;
  }

  lemma StoppedByPanic(address: nat, count: nat, n: nat, outcome: Outcome)
    requires Stopped(address, count, n, outcome) && AllCanonical(address, count)
    ensures !outcome.Failed?
  {
    assert n < count ==> IsCanonical(PageAddress(address, n));
  }

  /** A range of canonical pages outside slot 510, below 2^64 bytes. */
  ghost predicate MayBeMapped(address: nat, count: nat) {
    && address % 4096 == 0 && address + count * 4096 <= ADDRESS_LIMIT
    && AllCanonical(address, count) && AvoidsSelf(address, count)
  }

  lemma RestMayBeMapped(address: nat, count: nat, a: nat)
    requires MayBeMapped(address, count) && a <= count
    ensures MayBeMapped(PageAddress(address, a), Remaining(count, a))
  {
    forall i: nat | i < count - a ensures IsCanonical(PageAddress(PageAddress(address, a), i)) {
      assert PageAddress(PageAddress(address, a), i) == PageAddress(address, a + i);
      assert IsCanonical(PageAddress(address, a + i));
    }
    forall i: nat | i < count - a ensures Index(PageAddress(PageAddress(address, a), i), 4) != RECURSIVE_ENTRY {
      assert PageAddress(PageAddress(address, a), i) == PageAddress(address, a + i);
      assert IsCanonical(PageAddress(address, a + i)) && Index(PageAddress(address, a + i), 4) != RECURSIVE_ENTRY;
    }
  }

  lemma FirstMayBeMapped(address: nat, count: nat, n: nat)
    requires MayBeMapped(address, count) && n <= count
    ensures AllCanonical(address, n)
  {
  }

  /** How many of `count` pages are not mapped yet. */
  function Remaining(count: nat, total: nat): (left: nat)
    requires total <= count
  {
    count - total
  }

  /** Without PhysicalContiguous, while there is a clear buddy of the closest order, a number of pages
      that is not refused cannot be had exactly if it lies between three quarters of that buddy and all
      of it, or too few pages are free for the missing tables. */
  lemma OvershootIff(bits: Bits, tables: Tables, address: nat, count: nat, level: nat, j: nat)
    requires |bits| == ORDERS && count > 0 && IsClosestLevel(count, level) && LowestClear(bits[level], j)
    requires !Refuses(bits, count, false)
    ensures PieceFails(bits, tables, address, count, false) <==>
            || 3 * Left(1, level) <= 4 * count < 4 * Left(1, level)
            || Short(bits[0], tables, address, Granted(Left(j, level), Left(1, level)))
  {
    var r := Granted(Left(j, level), Left(1, level));
    assert IsBuddyChoice(bits, level, level, j);
    LargerThanAsked(count, level);
    FailsIs(bits, tables, address, count, false, r);
  }

  /** So such a number of pages cannot be had, however much memory is free. */
  lemma OvershootPanics(bits: Bits, tables: Tables, address: nat, count: nat, level: nat, j: nat)
    requires |bits| == ORDERS && level < ORDERS && LowestClear(bits[level], j)
    requires 3 * Left(1, level) <= 4 * count < 4 * Left(1, level)
    ensures PieceFails(bits, tables, address, count, false)
  {
    if !Refuses(bits, count, false) {
      OvershootIff(bits, tables, address, count, level, j);
    }
  }

  // ----- giving the frames back -----

  /** None of the frames of the range became a table, and none was one. */
  lemma FreshFramesApart(s: State, s': State, address: nat, frames: seq<nat>, flags: Flags, f: nat)
    requires FreshlyMapped(s, s', address, frames, flags) && f in frames && AllUsed(s.tables, s.pages)
    ensures f < |s'.pages| == |s.pages| && !s.pages[f] && s'.pages[f] && f !in s'.tables.Values
  {
    assert f in Elements(frames);
    assert OnceUsed(s, s', Elements(frames), f);
    forall p | p in s.tables ensures s.tables[p] != f {
      assert UsedFrame(s.tables, s.pages, p);
    }
  }

  ghost predicate MapsTo(s: State, q: Path, frame: nat)
    requires |q| == 4
  {
    FrameOf(MappedAt(s.ram, s.tables, q)) == Some(frame)
  }

  lemma OneMoreFrame(frames: seq<nat>, n: nat)
    requires 0 < n <= |frames|
    ensures Elements(frames[..n]) == Elements(frames[..n - 1]) + {frames[n - 1]}
  {
    assert frames[..n] == frames[..n - 1] + [frames[n - 1]];
  }

  lemma FreedIs(s: State, q: Path, frame: nat)
    requires |q| == 4 && MapsTo(s, q, frame)
    ensures FreedBy(s, q, true) == {frame}
  {
  }

  lemma {:induction false} FramesFreed(s: State, address: nat, frames: seq<nat>, n: nat)
    requires n <= |frames| && forall i: nat | i < n :: MapsTo(s, PageAt(address, i), frames[i])
    ensures FreedByRange(s, address, n, true) == Elements(frames[..n])
  {
    if n > 0 {
      FramesFreed(s, address, frames, n - 1);
      FreedIs(s, PageAt(address, n - 1), frames[n - 1]);
      OneMoreFrame(frames, n);
    }
  }

  lemma FreshEntry(s: State, s': State, address: nat, frames: seq<nat>, flags: Flags, i: nat)
    requires FreshlyMapped(s, s', address, frames, flags) && AllUnmapped(s, address, |frames|) && i < |frames|
    ensures MappedAt(s'.ram, s'.tables, PageAt(address, i)) == Some(LeafEntry(frames[i], flags))
    ensures MapsTo(s', PageAt(address, i), frames[i])
  {
    assert Unmapped(s, PageAt(address, i)) && FrameIs(s, s', PageAt(address, i), frames[i], flags);
  }

  lemma NewFrameLoads(s: State, s': State, root: nat, virtual: nat, q: Path, frame: nat, flags: Flags)
    requires |q| == 4 && FrameIs(s, s', q, frame, flags) && Unmapped(s, q)
    requires Tree(s'.ram, root, s'.tables) && Index(virtual, 4) != RECURSIVE_ENTRY && q == PathTo(virtual, 0)
    ensures LoadsAs(s'.ram, root, virtual, frame, flags)
  {
    LeafLoads(s'.ram, root, s'.tables, virtual, frame, flags, q);
  }

  /** What loads read in the pages of a freshly mapped range that were not mapped before. */
  lemma FreshLoads(s: State, s': State, root: nat, address: nat, frames: seq<nat>, flags: Flags)
    requires Tree(s'.ram, root, s'.tables) && FreshlyMapped(s, s', address, frames, flags)
    requires AllCanonical(address, |frames|) && AvoidsSelf(address, |frames|)
    ensures forall i: nat | i < |frames| && Unmapped(s, PageAt(address, i)) ::
              LoadsAs(s'.ram, root, PageAddress(address, i), frames[i], flags)
  {
    forall i: nat | i < |frames| && Unmapped(s, PageAt(address, i))
      ensures LoadsAs(s'.ram, root, PageAddress(address, i), frames[i], flags)
    {
      PageAtIs(address, i);
      PageOutsideSelf(address, |frames|, i);
      NewFrameLoads(s, s', root, PageAddress(address, i), PageAt(address, i), frames[i], flags);
    }
  }

  /** The frames freed with a freshly mapped range are the frames it was given. */
  lemma FreshFramesFreed(s: State, s': State, address: nat, frames: seq<nat>, flags: Flags)
    requires FreshlyMapped(s, s', address, frames, flags) && AllUnmapped(s, address, |frames|)
    ensures FreedByRange(s', address, |frames|, true) == Elements(frames)
  {
    forall i: nat | i < |frames| ensures MapsTo(s', PageAt(address, i), frames[i]) {
      FreshEntry(s, s', address, frames, flags, i);
    }
    FramesFreed(s', address, frames, |frames|);
    assert frames[..|frames|] == frames;
  }

  /** No page of a freshly mapped range is mapped to a table. */
  lemma FreshFreesNoTable(s: State, s': State, address: nat, frames: seq<nat>, flags: Flags)
    requires FreshlyMapped(s, s', address, frames, flags) && AllUnmapped(s, address, |frames|)
             && AllUsed(s.tables, s.pages)
    ensures forall i: nat | i < |frames| :: FreesNoTable(s', PageAt(address, i))
  {
    forall i: nat | i < |frames| ensures FreesNoTable(s', PageAt(address, i)) {
      FreshEntry(s, s', address, frames, flags, i);
      FreshFramesApart(s, s', address, frames, flags, frames[i]);
    }
  }

  /** Unmapping a freshly mapped range and freeing its pages restores everything. */
  lemma FreshRoundTrip(s: State, s': State, s'': State, root: nat, address: nat, frames: seq<nat>, flags: Flags)
    requires Tree(s.ram, root, s.tables) && NoneEmpty(s.ram, s.tables)
    requires FreshlyMapped(s, s', address, frames, flags) && RangeUnmapped(s', s'', address, |frames|, true)
    requires Tree(s''.ram, root, s''.tables) && NoneEmpty(s''.ram, s''.tables)
    requires AllUnmapped(s, address, |frames|)
    ensures SameMapping(s.ram, s.tables, s''.ram, s''.tables, {})
    ensures s''.tables == s.tables && s''.pages == s.pages
  {
    FreshMappingRestored(s, s', s'', address, frames, flags);
    SameMappingSameTables(s.ram, s.tables, s''.ram, s''.tables, root);
    assert forall p | p in s.tables :: s''.tables[p] == s.tables[p];
    FreshFramesFreed(s, s', address, frames, flags);
    FreshPagesRestored(s, s', s'', address, frames, flags);
  }

  lemma FreshMappingRestored(s: State, s': State, s'': State, address: nat, frames: seq<nat>, flags: Flags)
    requires FreshlyMapped(s, s', address, frames, flags) && RangeUnmapped(s', s'', address, |frames|, true)
    requires AllUnmapped(s, address, |frames|)
    ensures SameMapping(s.ram, s.tables, s''.ram, s''.tables, {})
  {
    forall q: Path | |q| == 4 ensures MappedAt(s''.ram, s''.tables, q) == MappedAt(s.ram, s.tables, q) {
      if q in PathsOf(address, |frames|) {
        PathsOfIs(address, |frames|, q);
        var i: nat :| i < |frames| && IsPage(q, address, i);
        assert Unmapped(s, PageAt(address, i)) && Unmapped(s'', PageAt(address, i));
      }
    }
  }

  lemma FreshPagesRestored(s: State, s': State, s'': State, address: nat, frames: seq<nat>, flags: Flags)
    requires FreshlyMapped(s, s', address, frames, flags) && RangeUnmapped(s', s'', address, |frames|, true)
    requires s''.tables == s.tables && FreedByRange(s', address, |frames|, true) == Elements(frames)
    ensures s''.pages == s.pages
  {
    forall f: nat | f < |s.pages| ensures s''.pages[f] == s.pages[f] {
      assert OnceUsed(s, s', Elements(frames), f);
    }
  }
}
