/** Whole runs of the physical memory manager: requests granted, and pages marked used or free, in any
    order. */
module PhysicalRuns {
  import opened Shifts
  import opened BuddyBits
  import Physical

  /** The bitmaps, and for each grant so far the pages of it that were not marked free since. */
  datatype State = State(bits: Bits, live: seq<set<nat>>)

  /** A request is granted pages; pages are marked used, whether or not they are; pages are marked free. */
  datatype Event = Take(page: nat, count: nat) | Mark(page: nat, count: nat) | Give(page: nat, count: nat)

  function Pages(page: nat, count: nat): (pages: set<nat>)
    ensures forall p: nat :: p in pages <==> page <= p < page + count
  {
    if count == 0 then {} else Pages(page, count - 1) + {page + count - 1}
  }

  function Without(live: seq<set<nat>>, pages: set<nat>): seq<set<nat>> {
    seq(|live|, i requires 0 <= i < |live| => live[i] - pages)
  }

  ghost predicate Step(s: State, e: Event, s': State)
    requires |s.bits| == ORDERS
  {
    e.page + e.count <= |s.bits[0]| &&
    match e
    case Take(page, count) =>
      && count > 0 && Run(s.bits[0], page, count, false)
      && s' == State(Marked(s.bits, page, count, true), s.live + [Pages(page, count)])
    case Mark(page, count) => s' == State(Marked(s.bits, page, count, true), s.live)
    case Give(page, count) => s' == State(Marked(s.bits, page, count, false), Without(s.live, Pages(page, count)))
  }

  ghost predicate InUse(bits: Bits, p: nat)
    requires |bits| == ORDERS
  {
    p < |bits[0]| && bits[0][p]
  }

  ghost predicate AllInUse(bits: Bits, pages: set<nat>)
    requires |bits| == ORDERS
  {
    forall p | p in pages :: InUse(bits, p)
  }

  /** Live pages are in use, no page belongs to two grants, and a clear bit always means free pages. */
  ghost predicate Safe(s: State, total: nat) {
    && Shaped(s.bits, total) && Layered(s.bits)
    && (forall i | 0 <= i < |s.live| :: AllInUse(s.bits, s.live[i]))
    && forall i, j | 0 <= i < j < |s.live| :: s.live[i] !! s.live[j]
  }

  lemma StillInUse(bits: Bits, page: nat, count: nat, used: bool, pages: set<nat>)
    requires |bits| == ORDERS && AllInUse(bits, pages) && (used || pages !! Pages(page, count))
    ensures AllInUse(Marked(bits, page, count, used), pages)
  {
    forall p | p in pages ensures InUse(Marked(bits, page, count, used), p) {
      assert InUse(bits, p);
      MarkedPage(bits, page, count, used, p);
    }
  }

  lemma TakeIsSafe(s: State, page: nat, count: nat, s': State, total: nat)
    requires Safe(s, total) && Step(s, Take(page, count), s')
    ensures Safe(s', total)
    ensures forall i | 0 <= i < |s.live| :: s.live[i] !! Pages(page, count)
  {
    MarkedKeepsLayers(s.bits, page, count, true, total);
    forall i | 0 <= i < |s.live| ensures s.live[i] !! Pages(page, count) {
      assert forall p | p in s.live[i] :: InUse(s.bits, p);
    }
    forall i | 0 <= i < |s'.live| ensures AllInUse(s'.bits, s'.live[i]) {
      if i < |s.live| {
        StillInUse(s.bits, page, count, true, s.live[i]);
      } else {
        forall p | p in Pages(page, count) ensures InUse(s'.bits, p) {
          MarkedPage(s.bits, page, count, true, p);
        }
      }
    }
  }

  lemma MarkIsSafe(s: State, page: nat, count: nat, s': State, total: nat)
    requires Safe(s, total) && Step(s, Mark(page, count), s')
    ensures Safe(s', total)
  {
    MarkedKeepsLayers(s.bits, page, count, true, total);
    forall i | 0 <= i < |s'.live| ensures AllInUse(s'.bits, s'.live[i]) {
      StillInUse(s.bits, page, count, true, s.live[i]);
    }
  }

  lemma GiveIsSafe(s: State, page: nat, count: nat, s': State, total: nat)
    requires Safe(s, total) && Step(s, Give(page, count), s')
    ensures Safe(s', total)
  {
    MarkedKeepsLayers(s.bits, page, count, false, total);
    forall i | 0 <= i < |s'.live| ensures AllInUse(s'.bits, s'.live[i]) {
      assert AllInUse(s.bits, s.live[i]);
      assert AllInUse(s.bits, s'.live[i]) by {
        forall p | p in s'.live[i] ensures InUse(s.bits, p) {
          assert p in s.live[i];
        }
      }
      StillInUse(s.bits, page, count, false, s'.live[i]);
    }
    forall i, j | 0 <= i < j < |s'.live| ensures s'.live[i] !! s'.live[j] {
      assert s.live[i] !! s.live[j];
    }
  }

  /** A run: each event takes one state to the next. */
  ghost predicate IsRun(states: seq<State>, events: seq<Event>) {
    && |states| == |events| + 1
    && (forall i | 0 <= i < |states| :: |states[i].bits| == ORDERS)
    && forall i | 0 <= i < |events| :: Step(states[i], events[i], states[i + 1])
  }

  /** In every state of every run live pages are in use, no page belongs to two grants, and clear bits
      mean free pages. */
  lemma {:induction false} RunsAreSafe(states: seq<State>, events: seq<Event>, total: nat, n: nat)
    requires IsRun(states, events) && Safe(states[0], total) && n < |states|
    ensures Safe(states[n], total)
    decreases n
  {
    if n > 0 {
      RunsAreSafe(states, events, total, n - 1);
      match events[n - 1]
      case Take(page, count) => TakeIsSafe(states[n - 1], page, count, states[n], total);
      case Mark(page, count) => MarkIsSafe(states[n - 1], page, count, states[n], total);
      case Give(page, count) => GiveIsSafe(states[n - 1], page, count, states[n], total);
    }
  }

  /** The pages of every grant were free in the state before it, and belonged to no live grant. */
  lemma GrantsAreDisjoint(states: seq<State>, events: seq<Event>, total: nat, n: nat)
    requires IsRun(states, events) && Safe(states[0], total) && n < |events| && events[n].Take?
    ensures Run(states[n].bits[0], events[n].page, events[n].count, false)
    ensures forall i | 0 <= i < |states[n].live| :: states[n].live[i] !! Pages(events[n].page, events[n].count)
  {
    RunsAreSafe(states, events, total, n);
    assert Step(states[n], events[n], states[n + 1]);
    TakeIsSafe(states[n], events[n].page, events[n].count, states[n + 1], total);
  }

  /** The manager's requests and markings are such steps. */
  method Request(m: Physical.PhysicalMemory, count: nat, contiguous: bool, ghost s: State)
    returns (r: Physical.PageRequestResult, ghost s': State)
    requires m.Valid() && s.bits == m.bits
    modifies m`available, m`bits, m.bitmaps
    ensures m.Valid() && s'.bits == m.bits
    ensures if r.Granted? then Step(s, Take(r.page, r.count), s') else s' == s
  {
    r := m.RequestPages(count, contiguous);
    s' := if r.Granted? then State(m.bits, s.live + [Pages(r.page, r.count)]) else s;
  }

  method MarkPages(m: Physical.PhysicalMemory, page: nat, count: nat, used: bool, ghost s: State)
    returns (ghost s': State)
    requires m.Valid() && s.bits == m.bits && page + count <= m.total
    modifies m`available, m`bits, m.bitmaps
    ensures m.Valid() && s'.bits == m.bits
    ensures count > 0 ==> Step(s, if used then Mark(page, count) else Give(page, count), s')
  {
    Physical.AddressOfPage(page, m.total);
    m.MarkPages(page * Physical.PAGE_SIZE, count, used);
    s' := State(m.bits, if used then s.live else Without(s.live, Pages(page, count)));
  }

  // ----- buddies of more than one page -----

  /** Above order 0 no bit is ever cleared, not even when pages are marked free. */
  lemma {:induction false} HigherBitsStaySet(states: seq<State>, events: seq<Event>, m: nat, n: nat, k: nat, j: nat)
    requires IsRun(states, events) && m <= n < |states| && 0 < k < ORDERS
    requires j < |states[m].bits[k]| && states[m].bits[k][j]
    ensures j < |states[n].bits[k]| && states[n].bits[k][j]
    decreases n
  {
    if m < n {
      HigherBitsStaySet(states, events, m, n - 1, k, j);
      assert Step(states[n - 1], events[n - 1], states[n]);
    }
  }

  /** The event uses a page of buddy j of order k. */
  predicate Uses(e: Event, k: nat, j: nat) {
    !e.Give? && e.count > 0 && e.page < Left(j, k) + Left(1, k) && Left(j, k) < e.page + e.count
  }

  /** The buddies that a marking visits are those with a page in the range. */
  lemma TouchedMeansOverlap(k: nat, j: nat, page: nat, count: nat)
    ensures Touched(k, j, page, count) <==> count > 0 && page < Left(j, k) + Left(1, k) && Left(j, k) < page + count
  {
    if count > 0 {
      RightAtMost(page + count - 1, j, k);
      RightAtMost(page, j + 1, k);
      LeftAdds(j, 1, k);
    }
  }

  /** Marking pages free leaves a clear bit clear. */
  lemma {:induction false} GiveKeepsClear(bits: Bits, page: nat, count: nat, k: nat, j: nat)
    requires Layered(bits) && k < ORDERS && j < |bits[k]| && !bits[k][j]
    ensures !MarkedLevel(bits, page, count, false, k)[j]
    decreases k
  {
    if k > 0 {
      assert Consistent(bits, k, j);
      GiveKeepsClear(bits, page, count, k - 1, 2 * j);
      GiveKeepsClear(bits, page, count, k - 1, 2 * j + 1);
    }
  }

  /** One event sets a clear bit above order 0 exactly if it uses a page of the buddy. */
  lemma StepSetsIff(s: State, e: Event, s': State, total: nat, k: nat, j: nat)
    requires Safe(s, total) && Safe(s', total) && Step(s, e, s') && k < ORDERS && j < |s.bits[k]| && !s.bits[k][j]
    ensures |s'.bits[k]| == |s.bits[k]| && (s'.bits[k][j] <==> Uses(e, k, j))
  {
    TouchedMeansOverlap(k, j, e.page, e.count);
    if e.Give? {
      GiveKeepsClear(s.bits, e.page, e.count, k, j);
    } else if !Uses(e, k, j) {
      UntouchedKept(s.bits, e.page, e.count, true, k, j);
    } else {
      UsedSetsBit(s.bits, s'.bits, total, e.page, e.count, k, j);
    }
  }

  lemma UsedSetsBit(bits: Bits, bits': Bits, total: nat, page: nat, count: nat, k: nat, j: nat)
    requires Shaped(bits, total) && Layered(bits') && bits' == Marked(bits, page, count, true) && page + count <= total
    requires k < ORDERS && j < |bits[k]| && Uses(Mark(page, count), k, j)
    ensures bits'[k][j]
  {
    var p := if page <= Left(j, k) then Left(j, k) else page;
    LeftPositive(k);
    InBuddy(p, j, k);
    MarkedPage(bits, page, count, true, p);
    assert |bits'[k]| == |bits[k]|;
    if !bits'[k][j] {
      ClearMeansFree(bits', k, j, p);
    }
  }

  /** A buddy of order k > 0 that is clear at the start of a run is clear in a later state exactly if
      no event in between used any of its pages: marking pages free never offers it again. */
  lemma {:induction false} ClearIffNeverUsed(states: seq<State>, events: seq<Event>, total: nat, n: nat, k: nat, j: nat)
    requires IsRun(states, events) && Safe(states[0], total) && n < |states| && 0 < k < ORDERS
    requires j < |states[0].bits[k]| && !states[0].bits[k][j]
    ensures j < |states[n].bits[k]|
    ensures !states[n].bits[k][j] <==> forall i | 0 <= i < n :: !Uses(events[i], k, j)
    decreases n
  {
    if n > 0 {
      ClearIffNeverUsed(states, events, total, n - 1, k, j);
      RunsAreSafe(states, events, total, n - 1);
      RunsAreSafe(states, events, total, n);
      assert Step(states[n - 1], events[n - 1], states[n]);
      if states[n - 1].bits[k][j] {
        HigherBitsStaySet(states, events, n - 1, n, k, j);
      } else {
        StepSetsIff(states[n - 1], events[n - 1], states[n], total, k, j);
      }
    }
  }
}
