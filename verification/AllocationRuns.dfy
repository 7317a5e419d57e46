/** Giving a range of virtual pages memory, turn by turn (src/boot/virtualmemmgmt.cpp, lines 322-347):
    what the turns of a whole call have in common, and exactly when a call ends with the kernel stopping. */
module AllocationRuns {
  import opened Shifts
  import opened BuddyBits
  import opened Physical
  import opened PageTree
  import opened Paging
  import opened PagingBudget
  import opened Allocation

  /** What a call asks for. */
  datatype Request = Request(address: nat, count: nat, flags: Flags, contiguous: bool)

  /** What there is before a turn: the bitmaps, the state, and the frames mapped so far. */
  datatype Turn = Turn(bits: Bits, s: State, frames: seq<nat>)

  /** The bitmaps are consistent, and since the first turn bits were only set in them; the first pages
      of the range are mapped to frames that then were free. */
  ghost predicate TurnIs(first: Turn, t: Turn, q: Request) {
    && |t.bits| == ORDERS && Layered(t.bits) && t.bits[0] == t.s.pages && OnlySet(first.bits, t.bits)
    && |t.frames| <= q.count && FreshlyMapped(first.s, t.s, q.address, t.frames, q.flags)
  }

  /** A turn that can be taken or fail. */
  ghost predicate Open(t: Turn, q: Request) {
    |t.bits| == ORDERS && |t.frames| < q.count
  }

  /** How many pages are left. */
  function Rest(t: Turn, q: Request): nat
    requires |t.frames| <= q.count
  {
    Remaining(q.count, |t.frames|)
  }

  /** The turn ends with the kernel stopping. */
  ghost predicate Fails(t: Turn, q: Request)
    requires Open(t, q)
  {
    PieceFails(t.bits, t.s.tables, PageAddress(q.address, |t.frames|), Rest(t, q), q.contiguous)
  }

  /** What the turn is granted. */
  ghost predicate GrantedAt(t: Turn, q: Request, r: PageRequestResult)
    requires Open(t, q)
  {
    r.Granted? && r.count > 0 && Grants(t.bits, Rest(t, q), q.contiguous, r)
  }

  /** One turn after another: what was granted is mapped. */
  ghost predicate Follows(t: Turn, t': Turn, q: Request) {
    && Open(t, q) && !Fails(t, q) && OnlySet(t.bits, t'.bits)
    && exists r :: GrantedAt(t, q, r) && t'.frames == t.frames + Consecutive(r.page, r.count)
  }

  function LastTurn(turns: seq<Turn>): Turn
    requires turns != []
  {
    turns[|turns| - 1]
  }

  function Before(turns: seq<Turn>): seq<Turn>
    requires turns != []
  {
    turns[..|turns| - 1]
  }

  /** The turns of a call, up to the last one taken or failed, or the end. */
  ghost predicate IsRun(turns: seq<Turn>, q: Request) {
    && turns != []
    && TurnIs(turns[0], LastTurn(turns), q)
    && if |turns| == 1 then turns[0].frames == []
       else IsRun(Before(turns), q) && Follows(LastTurn(Before(turns)), LastTurn(turns), q)
  }

  /** All pages are mapped, or the last turn fails. */
  ghost predicate Ends(turns: seq<Turn>, q: Request, ok: bool) {
    && turns != []
    && if ok then |LastTurn(turns).frames| == q.count else Open(LastTurn(turns), q) && Fails(LastTurn(turns), q)
  }

  lemma FirstTurn(bits: Bits, s: State, q: Request)
    requires |bits| == ORDERS && Layered(bits) && bits[0] == s.pages
    ensures IsRun([Turn(bits, s, [])], q)
  {
    OnlySetReflexive(bits);
    FreshNone(s, q.address, q.flags);
  }

  lemma OneTurnMore(turns: seq<Turn>, t: Turn, q: Request)
    requires IsRun(turns, q) && TurnIs(turns[0], t, q) && Follows(LastTurn(turns), t, q)
    ensures IsRun(turns + [t], q) && (turns + [t])[0] == turns[0] && LastTurn(turns + [t]) == t
  {
    assert Before(turns + [t]) == turns;
  }

  /** The turn that follows once a piece has been mapped. */
  lemma TurnTaken(first: Turn, t: Turn, t': Turn, q: Request, frame: nat, n: nat)
    requires TurnIs(first, t, q) && Open(t, q) && !Fails(t, q) && MayBeMapped(q.address, q.count)
    requires 0 < n && |t.frames| + n <= q.count && Grants(t.bits, Rest(t, q), q.contiguous, Granted(frame, n))
    requires Run(t.s.pages, frame, n, false) && t'.frames == t.frames + Consecutive(frame, n)
    requires RangeMapped(t.s.(pages := Refilled(t.s.pages, frame, n, true)), t'.s, PageAddress(q.address, |t.frames|),
                         frame, q.flags, n)
    requires |t'.bits| == ORDERS && Layered(t'.bits) && t'.bits[0] == t'.s.pages && OnlySet(t.bits, t'.bits)
    ensures TurnIs(first, t', q) && Follows(t, t', q)
  {
    FirstMayBeMapped(q.address, q.count, |t.frames| + n);
    OnePieceMore(first.s, t.s, t'.s, q.address, t.frames, frame, n, q.flags);
    OnlySetTransitive(first.bits, t.bits, t'.bits);
    assert GrantedAt(t, q, Granted(frame, n));
  }

  /** One turn (lines 324-346), with `total` pages mapped before it. */
  method MapMore(m: PageTables, ghost turns: seq<Turn>, total: nat, q: Request) returns (taken: nat, ghost t': Turn)
    requires m.Valid() && NoneEmpty(m.ram, m.tables) && MayBeMapped(q.address, q.count)
    requires IsRun(turns, q) && |LastTurn(turns).frames| == total < q.count
    requires LastTurn(turns).bits == m.physical.bits && LastTurn(turns).s == m.Now()
    modifies m`ram, m`tables, m.physical`available, m.physical`bits, m.physical.bitmaps
    ensures m.Valid() && (taken > 0 ==> NoneEmpty(m.ram, m.tables))
    ensures taken == 0 ==> Open(LastTurn(turns), q) && Fails(LastTurn(turns), q)
    ensures taken > 0 ==> TurnIs(turns[0], t', q) && Follows(LastTurn(turns), t', q)
    ensures taken > 0 ==> t'.bits == m.physical.bits && t'.s == m.Now() && |t'.frames| == total + taken
  {
    ghost var t := LastTurn(turns);
    ghost var frame;
    RestMayBeMapped(q.address, q.count, total);
    taken, frame := MapPiece(m, PageAddress(q.address, total), Remaining(q.count, total), q.flags, q.contiguous);
    t' := Turn(m.physical.bits, m.Now(), t.frames + Consecutive(frame, taken));
    if taken > 0 {
      TurnTaken(turns[0], t, t', q, frame, taken);
    }
  }

  // ----- with PhysicalContiguous -----

  lemma FirstFails(t: Turn, q: Request)
    requires Open(t, q) && t.frames == []
    ensures Fails(t, q) <==> PieceFails(t.bits, t.s.tables, q.address, q.count, q.contiguous)
  {
    assert PageAddress(q.address, 0) == q.address;
  }

  lemma {:induction false} FirstIsFirst(turns: seq<Turn>, q: Request)
    requires IsRun(turns, q)
    ensures turns[0].frames == [] && TurnIs(turns[0], turns[0], q)
    decreases |turns|
  {
    if |turns| > 1 {
      FirstIsFirst(Before(turns), q);
    }
  }

  /** One turn maps everything, to the first fit. */
  ghost predicate AtOnce(first: Turn, last: Turn, q: Request) {
    && Open(first, q) && !Fails(first, q)
    && exists frame :: IsFirstFit(first.bits[0], q.count, frame) && last.frames == Consecutive(frame, q.count)
  }

  lemma AllGranted(t: Turn, t': Turn, q: Request)
    requires q.contiguous && t.frames == [] && Follows(t, t', q)
    ensures AtOnce(t, t', q)
  {
    var r :| GrantedAt(t, q, r) && t'.frames == t.frames + Consecutive(r.page, r.count);
    assert t'.frames == Consecutive(r.page, q.count);
  }

  lemma {:induction false} ContiguousTurns(turns: seq<Turn>, q: Request)
    requires IsRun(turns, q) && q.contiguous && |turns| > 1
    ensures AtOnce(turns[0], LastTurn(turns), q)
    decreases |turns|
  {
    FirstIsFirst(turns, q);
    if |turns| == 2 {
      AllGranted(turns[0], turns[1], q);
    } else {
      ContiguousTurns(Before(turns), q);
      assert false;
    }
  }

  lemma FirstFailsIff(t: Turn, q: Request)
    requires TurnIs(t, t, q) && t.frames == [] && q.contiguous && q.count > 0
    ensures Open(t, q) && (Fails(t, q) <==> OutOfMemory(t.s.pages, t.s.tables, q.address, q.count))
  {
    FirstFails(t, q);
    FailsContiguous(t.bits, t.s.tables, q.address, q.count);
  }

  lemma AllAtOnce(first: Turn, last: Turn, q: Request)
    requires AtOnce(first, last, q) && first.bits[0] == first.s.pages
    ensures |last.frames| == q.count
    ensures exists frame :: IsFirstFit(first.s.pages, q.count, frame) && last.frames == Consecutive(frame, q.count)
  {
  }

  /** With PhysicalContiguous a call panics exactly if no run of free frames is long enough, or too few
      are free, and else all is mapped to the first fit. */
  lemma ContiguousIff(turns: seq<Turn>, q: Request, ok: bool)
    requires IsRun(turns, q) && Ends(turns, q, ok) && q.contiguous && q.count > 0
    ensures !ok <==> OutOfMemory(turns[0].s.pages, turns[0].s.tables, q.address, q.count)
    ensures ok ==> exists frame ::
                     IsFirstFit(turns[0].s.pages, q.count, frame)
                       && LastTurn(turns).frames == Consecutive(frame, q.count)
  {
    var first, last := turns[0], LastTurn(turns);
    FirstIsFirst(turns, q);
    FirstFailsIff(first, q);
    if |turns| > 1 {
      ContiguousTurns(turns, q);
      AllAtOnce(first, last, q);
      assert ok;
    }
  }

  // ----- without -----

  /** The turn finds a clear buddy of the closest order, and frames for the tables of its pages. */
  ghost predicate Ample(t: Turn, q: Request)
    requires Open(t, q)
  {
    && !Refuses(t.bits, Rest(t, q), false)
    && exists level: nat, j: nat ::
         && IsClosestLevel(Rest(t, q), level) && LowestClear(t.bits[level], j)
         && !Lacks(t, q, Granted(Left(j, level), Left(1, level)))
  }

  /** Too few frames are free for the tables of the pages granted, if they are no more than are left. */
  ghost predicate Lacks(t: Turn, q: Request, r: PageRequestResult)
    requires Open(t, q) && r.Granted?
  {
    r.count <= Rest(t, q) && Short(t.bits[0], t.s.tables, PageAddress(q.address, |t.frames|), r)
  }

  ghost predicate AllAmple(turns: seq<Turn>, q: Request) {
    forall t | t in turns && Open(t, q) :: Ample(t, q)
  }

  lemma AmpleWith(t: Turn, q: Request, level: nat, j: nat)
    requires Open(t, q) && !q.contiguous && !Refuses(t.bits, Rest(t, q), false)
    requires IsClosestLevel(Rest(t, q), level) && LowestClear(t.bits[level], j)
    requires !Lacks(t, q, Granted(Left(j, level), Left(1, level)))
    ensures Fails(t, q) <==> Left(1, level) > Rest(t, q)
    ensures forall r | GrantedAt(t, q, r) :: r == Granted(Left(j, level), Left(1, level))
  {
    var r := Granted(Left(j, level), Left(1, level));
    assert IsBuddyChoice(t.bits, level, level, j);
    assert Grants(t.bits, Rest(t, q), false, r);
    FailsIs(t.bits, t.s.tables, PageAddress(q.address, |t.frames|), Rest(t, q), false, r);
    forall r' | GrantedAt(t, q, r') ensures r' == r {
      GrantsUnique(t.bits, Rest(t, q), false, r, r');
    }
  }

  lemma AmpleTurn(t: Turn, q: Request)
    requires Open(t, q) && !q.contiguous && Ample(t, q)
    ensures Fails(t, q) ==> Adjacent(Rest(t, q))
    ensures !Fails(t, q) ==>
              forall r | GrantedAt(t, q, r) ::
                r.count <= Rest(t, q) && (Adjacent(Rest(t, q)) <==> Adjacent(Rest(t, q) - r.count))
  {
    var level: nat, j: nat :|
      && IsClosestLevel(Rest(t, q), level) && LowestClear(t.bits[level], j)
      && !Lacks(t, q, Granted(Left(j, level), Left(1, level)));
    AmpleWith(t, q, level, j);
    ClosestTakenOff(Rest(t, q), level);
  }

  lemma AmpleStep(t: Turn, t': Turn, q: Request)
    requires Follows(t, t', q) && !q.contiguous && Ample(t, q) && |t'.frames| <= q.count
    ensures Adjacent(Rest(t, q)) <==> Adjacent(Rest(t', q))
  {
    AmpleTurn(t, q);
    var r :| GrantedAt(t, q, r) && t'.frames == t.frames + Consecutive(r.page, r.count);
    assert Rest(t', q) == Rest(t, q) - r.count;
  }

  lemma AmpleBefore(turns: seq<Turn>, q: Request)
    requires |turns| > 1 && AllAmple(turns, q)
    ensures AllAmple(Before(turns), q)
    ensures Open(LastTurn(Before(turns)), q) ==> Ample(LastTurn(Before(turns)), q)
  {
    assert forall t | t in Before(turns) :: t in turns;
    assert LastTurn(Before(turns)) in turns;
  }

  lemma {:induction false} AmpleKeeps(turns: seq<Turn>, q: Request)
    requires IsRun(turns, q) && !q.contiguous && AllAmple(turns, q)
    ensures Adjacent(q.count) <==> Adjacent(Rest(LastTurn(turns), q))
    decreases |turns|
  {
    if |turns| > 1 {
      AmpleBefore(turns, q);
      AmpleKeeps(Before(turns), q);
      AmpleStep(LastTurn(Before(turns)), LastTurn(turns), q);
    }
  }

  /** While every turn finds a clear buddy of its closest order, and frames for its tables, a number of
      pages can be had exactly if no two neighbouring binary digits of it are ones. */
  lemma AdjacentIff(turns: seq<Turn>, q: Request, ok: bool)
    requires IsRun(turns, q) && Ends(turns, q, ok) && !q.contiguous && AllAmple(turns, q)
    ensures ok <==> !Adjacent(q.count)
  {
    AmpleKeeps(turns, q);
    if !ok {
      AmpleTurn(LastTurn(turns), q);
    }
  }

  /** More pages are granted than are left. */
  ghost predicate Overshoots(t: Turn, q: Request) {
    Open(t, q) && exists r :: GrantedAt(t, q, r) && r.count > Rest(t, q)
  }

  /** The pages mapped so far are a multiple of 2^top, and no larger buddy, up to the closest order of
      an earlier turn, is clear. */
  ghost predicate Capped(t: Turn, q: Request, top: nat, m: nat, level: nat) {
    && |t.bits| == ORDERS && |t.frames| <= q.count && top <= level < ORDERS && |t.frames| == Left(m, top)
    && (forall o | top < o <= level :: AllSet(t.bits[o]))
    && forall l: nat | Rest(t, q) > 0 && IsClosestLevel(Rest(t, q), l) :: l <= level
  }

  lemma StillSet(bits: Bits, bits': Bits, k: nat)
    requires OnlySet(bits, bits') && k < |bits| && AllSet(bits[k])
    ensures AllSet(bits'[k])
  {
    assert LevelOnlySet(bits, bits', k);
  }

  /** What a turn adds: a buddy of an order up to the closest, below which all are set. */
  lemma CappedByTurn(t: Turn, t': Turn, q: Request, r: PageRequestResult, level: nat, k: nat, j: nat, m: nat)
    requires Open(t, q) && |t'.bits| == ORDERS && OnlySet(t.bits, t'.bits) && r.Granted? && r.count <= Rest(t, q)
    requires IsClosestLevel(Rest(t, q), level) && IsBuddyChoice(t.bits, level, k, j)
             && r == Granted(Left(j, k), Left(1, k))
    requires |t.frames| == Left(m, k) && t'.frames == t.frames + Consecutive(r.page, r.count)
    ensures Capped(t', q, k, m + 1, level)
  {
    LeftAdds(m, 1, k);
    forall o | k < o <= level ensures AllSet(t'.bits[o]) {
      StillSet(t.bits, t'.bits, o);
    }
    forall l: nat | Rest(t', q) > 0 && IsClosestLevel(Rest(t', q), l) ensures l <= level {
      ClosestMonotone(Rest(t, q), Rest(t', q), level, l);
    }
  }

  /** A buddy taken under a cap is no larger than it, so that the pages mapped before are a multiple of
      its pages. */
  lemma ChosenUnderCap(t: Turn, q: Request, top: nat, m: nat, cap: nat, level: nat, k: nat, j: nat) returns (m': nat)
    requires Open(t, q) && Capped(t, q, top, m, cap)
    requires IsClosestLevel(Rest(t, q), level) && IsBuddyChoice(t.bits, level, k, j)
    ensures k <= top && |t.frames| == Left(m', k)
  {
    m' := Left(m, top - k);
    LeftLeft(m, top - k, k);
  }

  lemma TheGrant(t: Turn, t': Turn, q: Request) returns (r: PageRequestResult)
    requires Follows(t, t', q)
    ensures GrantedAt(t, q, r) && r.count <= Rest(t, q) && t'.frames == t.frames + Consecutive(r.page, r.count)
  {
    r :| GrantedAt(t, q, r) && t'.frames == t.frames + Consecutive(r.page, r.count);
  }

  /** A grant is a buddy of an order up to the closest. */
  ghost predicate IsBuddy(t: Turn, q: Request, r: PageRequestResult, level: nat, k: nat, j: nat)
    requires Open(t, q)
  {
    IsClosestLevel(Rest(t, q), level) && IsBuddyChoice(t.bits, level, k, j) && r == Granted(Left(j, k), Left(1, k))
  }

  lemma TheBuddy(t: Turn, q: Request, r: PageRequestResult) returns (level: nat, k: nat, j: nat)
    requires Open(t, q) && !q.contiguous && GrantedAt(t, q, r)
    ensures IsBuddy(t, q, r, level, k, j)
  {
    level, k, j :|
      IsClosestLevel(Rest(t, q), level) && IsBuddyChoice(t.bits, level, k, j) && r == Granted(Left(j, k), Left(1, k));
  }

  /** The pages mapped before a turn are a multiple of those in the buddy granted, if this was so at the
      turn before. */
  lemma MultipleNext(t: Turn, t': Turn, q: Request, r: PageRequestResult, cap: nat, top: nat, i: nat, m: nat,
                     r': PageRequestResult, level: nat, k: nat, j: nat)
    returns (m': nat)
    requires Follows(t, t', q) && Open(t', q) && r.Granted? && r.count <= Rest(t, q)
    requires IsBuddy(t, q, r, cap, top, i) && t'.frames == t.frames + Consecutive(r.page, r.count)
    requires |t.frames| == Left(m, top) && IsBuddy(t', q, r', level, k, j)
    ensures |t'.frames| == Left(m', k)
  {
    CappedByTurn(t, t', q, r, cap, top, i, m);
    m' := ChosenUnderCap(t', q, top, m + 1, cap, level, k, j);
  }

  lemma {:induction false} MultipleBefore(turns: seq<Turn>, q: Request, r: PageRequestResult,
                                          level: nat, k: nat, j: nat)
    returns (m: nat)
    requires IsRun(turns, q) && !q.contiguous && Open(LastTurn(turns), q) && IsBuddy(LastTurn(turns), q, r, level, k, j)
    ensures |LastTurn(turns).frames| == Left(m, k)
    decreases |turns|
  {
    if |turns| == 1 {
      m := 0;
      LeftScales(0, k);
    } else {
      var t, t' := LastTurn(Before(turns)), LastTurn(turns);
      var before := TheGrant(t, t', q);
      var cap, top, i := TheBuddy(t, q, before);
      var m' := MultipleBefore(Before(turns), q, before, cap, top, i);
      m := MultipleNext(t, t', q, before, cap, top, i, m', r, level, k, j);
    }
  }

  /** In any memory: more pages are granted than are left only if two neighbouring binary digits of the
      number asked for are ones. */
  lemma OvershootMeansAdjacent(turns: seq<Turn>, q: Request)
    requires IsRun(turns, q) && !q.contiguous && Overshoots(LastTurn(turns), q)
    ensures Adjacent(q.count)
  {
    var t := LastTurn(turns);
    var r :| GrantedAt(t, q, r) && r.count > Rest(t, q);
    var level, k, j := TheBuddy(t, q, r);
    var m := MultipleBefore(turns, q, r, level, k, j);
    LargerMeansAdjacent(q.count, Rest(t, q), |t.frames|, level, k, m);
  }

  lemma LargerMeansAdjacent(count: nat, left: nat, total: nat, level: nat, k: nat, m: nat)
    requires 0 < left && count == left + total && total == Left(m, k)
    requires IsClosestLevel(left, level) && k <= level && Left(1, k) > left
    ensures Adjacent(count)
  {
    if k < level {
      LeftGrows(k, level);
    }
    AdjacentBelow(left, m, k);
  }

  /** What loads read in the pages that were not mapped before a call that mapped all of them. */
  lemma CallLoads(turns: seq<Turn>, q: Request, root: nat)
    requires IsRun(turns, q) && |LastTurn(turns).frames| == q.count && MayBeMapped(q.address, q.count)
    requires Tree(LastTurn(turns).s.ram, root, LastTurn(turns).s.tables)
    ensures forall i: nat | i < q.count && Unmapped(turns[0].s, PageAt(q.address, i)) ::
              LoadsAs(LastTurn(turns).s.ram, root, PageAddress(q.address, i), LastTurn(turns).frames[i], q.flags)
  {
    FreshLoads(turns[0].s, LastTurn(turns).s, root, q.address, LastTurn(turns).frames, q.flags);
  }

  lemma DigitsDecide(turns: seq<Turn>, q: Request, ok: bool)
    requires IsRun(turns, q) && Ends(turns, q, ok)
    ensures !q.contiguous && AllAmple(turns, q) ==> (ok <==> !Adjacent(q.count))
    ensures !q.contiguous && !Adjacent(q.count) ==> !Overshoots(LastTurn(turns), q)
  {
    if !q.contiguous && AllAmple(turns, q) {
      AdjacentIff(turns, q, ok);
    }
    if !q.contiguous && Overshoots(LastTurn(turns), q) {
      OvershootMeansAdjacent(turns, q);
    }
  }

  /** Maps a range to pages taken for it (lines 322-347); false stands for a panic. */
  method MapFresh(m: PageTables, q: Request) returns (ok: bool, ghost turns: seq<Turn>)
    requires m.Valid() && NoneEmpty(m.ram, m.tables) && MayBeMapped(q.address, q.count)
    modifies m`ram, m`tables, m.physical`available, m.physical`bits, m.physical.bitmaps
    ensures m.Valid()
    ensures IsRun(turns, q) && Ends(turns, q, ok) && turns[0].bits == old(m.physical.bits) && turns[0].s == old(m.Now())
    ensures ok ==> NoneEmpty(m.ram, m.tables) && LastTurn(turns).s == m.Now()
    ensures ok ==>
              forall i: nat | i < q.count && Unmapped(old(m.Now()), PageAt(q.address, i)) ::
                LoadsAs(m.ram, m.root, PageAddress(q.address, i), LastTurn(turns).frames[i], q.flags)
    ensures !q.contiguous && AllAmple(turns, q) ==> (ok <==> !Adjacent(q.count))
    ensures !q.contiguous && !Adjacent(q.count) ==> !Overshoots(LastTurn(turns), q)
  {
    turns := [Turn(m.physical.bits, m.Now(), [])];
    FirstTurn(m.physical.bits, m.Now(), q);
    var total := 0;
    while total != q.count
      invariant total <= q.count && m.Valid() && NoneEmpty(m.ram, m.tables)
      invariant IsRun(turns, q) && turns[0].bits == old(m.physical.bits) && turns[0].s == old(m.Now())
      invariant LastTurn(turns).bits == m.physical.bits && LastTurn(turns).s == m.Now()
                && |LastTurn(turns).frames| == total
    {
      var taken, t' := MapMore(m, turns, total, q);
      if taken == 0 {
        DigitsDecide(turns, q, false);
        return false, turns;
      }
      OneTurnMore(turns, t', q);
      turns := turns + [t'];
      total := total + taken;
    }
    DigitsDecide(turns, q, true);
    CallLoads(turns, q, m.root);
    ok := true;
  }
}
