/** Command slots of an AHCI port, the queue of events and the coroutines resumed from it, as values
    (src/drivers/storage/ahci/device.cpp, lines 79-131 and 295-372; src/boot/scheduler.cpp, lines
    23-42). An event is a suspended coroutine; bitmaps are sets of slots. */
module CommandSlots {
  import opened Options

  const SLOTS: nat := 32
  const DISPATCH_LIMIT: nat := 100

  type Event = nat

  /** `issued` is the port's command issue register, `table` the coroutine awaiting each slot, and
      `results` every result set so far, with its event. Of the events taken from the queue, `resumed` are
      those whose coroutines could still run, and `dropped` the others; `posted` are the events that
      coroutines queued themselves. */
  datatype State = State(issued: set<nat>, running: set<nat>, table: seq<Option<Event>>, results: seq<(Event, bool)>,
                         queue: seq<Event>, resumed: seq<Event>, dropped: seq<Event>, posted: seq<Event>)

  /** A slot is running exactly if a command waits in it; a slot that the port still works on is running. */
  ghost predicate Good(s: State) {
    && |s.table| == SLOTS && s.issued <= s.running
    && forall i: nat :: i in s.running <==> i < SLOTS && s.table[i].Some?
  }

  // ----- steps -----

  /** A command of event e is issued in a slot. */
  function Started(s: State, slot: nat, e: Event): State
    requires slot < |s.table|
  {
    s.(issued := s.issued + {slot}, running := s.running + {slot}, table := s.table[slot := Some(e)])
  }

  /** The port is done with the commands in some slots. */
  function Finished(s: State, slots: set<nat>): State {
    s.(issued := s.issued - slots)
  }

  /** The events awaiting the slots below n of a set, in order. */
  function EventsOf(table: seq<Option<Event>>, slots: set<nat>, n: nat): seq<Event>
    requires n <= |table|
  {
    if n == 0 then []
    else EventsOf(table, slots, n - 1) + if n - 1 in slots && table[n - 1].Some? then [table[n - 1].value] else []
  }

  function Emptied(table: seq<Option<Event>>, slots: set<nat>, n: nat): (r: seq<Option<Event>>)
    requires n <= |table|
    ensures |r| == |table|
  {
    seq(|table|, i requires 0 <= i < |table| => if i < n && i in slots then None else table[i])
  }

  function WithResult(events: seq<Event>, result: bool): seq<(Event, bool)> {
    seq(|events|, i requires 0 <= i < |events| => (events[i], result))
  }

  /** The interrupt handler has dealt with the completed commands in the slots below n. */
  function Collected(s: State, completed: set<nat>, result: bool, n: nat): State
    requires n <= |s.table|
  {
    var events := EventsOf(s.table, completed, n);
    s.(running := s.running - (set i | i in completed && i < n), table := Emptied(s.table, completed, n),
       results := s.results + WithResult(events, result), queue := s.queue + events)
  }

  /** An interrupt, with or without a task file error and a device-to-host register FIS. */
  function Interrupted(s: State, taskFileError: bool, registerFis: bool): State
    requires |s.table| == SLOTS
  {
    if taskFileError || registerFis then Collected(s, s.running - s.issued, !taskFileError, SLOTS) else s
  }

  /** An event is taken from the queue, and its coroutine resumed if it can still run. */
  function Dispatched(s: State, alive: bool): State
    requires s.queue != []
  {
    s.(queue := s.queue[1..], resumed := s.resumed + if alive then [s.queue[0]] else [],
       dropped := s.dropped + if alive then [] else [s.queue[0]])
  }

  /** A coroutine queues events. */
  function Posted(s: State, events: seq<Event>): State {
    s.(queue := s.queue + events, posted := s.posted + events)
  }

  /** One slot with a waiting command is emptied. */
  function CollectedOne(s: State, slot: nat, value: bool): State
    requires slot < |s.table| && s.table[slot].Some?
  {
    s.(running := s.running - {slot}, table := s.table[slot := None],
       results := s.results + [(s.table[slot].value, value)],
       queue := s.queue + [s.table[slot].value])
  }

  lemma CollectedNone(s: State, completed: set<nat>, value: bool)
    ensures Collected(s, completed, value, 0) == s
  {
    assert s.running - (set i | i in completed && i < 0) == s.running;
    assert WithResult([], value) == [];
  }

  lemma CollectedOneMore(s: State, completed: set<nat>, value: bool, i: nat)
    requires i < |s.table| && i in completed && s.table[i].Some?
    ensures var before := Collected(s, completed, value, i);
      before.table[i] == s.table[i] && Collected(s, completed, value, i + 1) == CollectedOne(before, i, value)
  {
    var before, after := Collected(s, completed, value, i), Collected(s, completed, value, i + 1);
    var events := EventsOf(s.table, completed, i);
    assert after.running == before.running - {i};
    assert after.table == before.table[i := None];
    assert WithResult(events + [s.table[i].value], value) == WithResult(events, value) + [(s.table[i].value, value)];
  }

  lemma CollectedSkip(s: State, completed: set<nat>, value: bool, i: nat)
    requires i < |s.table| && (i !in completed || (s.table[i].None? && i !in s.running))
    ensures Collected(s, completed, value, i + 1) == Collected(s, completed, value, i)
  {
    var before, after := Collected(s, completed, value, i), Collected(s, completed, value, i + 1);
    assert after.running == before.running;
    assert after.table == before.table;
  }

  /** Collecting the same commands again changes nothing: no result is set twice. */
  lemma CollectedTwice(s: State, completed: set<nat>, value: bool, value': bool)
    requires |s.table| == SLOTS
    ensures var once := Collected(s, completed, value, SLOTS); Collected(once, completed, value', SLOTS) == once
  {
    var once := Collected(s, completed, value, SLOTS);
    NothingLeft(once.table, completed, SLOTS);
    var twice := Collected(once, completed, value', SLOTS);
    assert twice.running == once.running && twice.table == once.table;
    assert WithResult([], value') == [];
  }

  lemma {:induction false} NothingLeft(table: seq<Option<Event>>, slots: set<nat>, n: nat)
    requires n <= |table| && forall i | 0 <= i < n && i in slots :: table[i] == None
    ensures EventsOf(table, slots, n) == []
  {
    if n > 0 {
      NothingLeft(table, slots, n - 1);
    }
  }

  // ----- where the events are -----

  function Waiting(table: seq<Option<Event>>, n: nat): multiset<Event>
    requires n <= |table|
  {
    if n == 0 then multiset{}
    else Waiting(table, n - 1) + if table[n - 1].Some? then multiset{table[n - 1].value} else multiset{}
  }

  /** All events: those that wait for a command, those in the queue, and those taken from it. */
  function Ledger(s: State): multiset<Event> {
    Waiting(s.table, |s.table|) + multiset(s.queue) + multiset(s.resumed) + multiset(s.dropped)
  }

  lemma {:induction false} WaitingSame(a: seq<Option<Event>>, b: seq<Option<Event>>, n: nat)
    requires n <= |a| && n <= |b| && forall i | 0 <= i < n :: a[i] == b[i]
    ensures Waiting(a, n) == Waiting(b, n)
  {
    if n > 0 {
      WaitingSame(a, b, n - 1);
    }
  }

  lemma {:induction false} WaitingPut(table: seq<Option<Event>>, slot: nat, e: Event, n: nat)
    requires slot < n <= |table| && table[slot].None?
    ensures Waiting(table[slot := Some(e)], n) == Waiting(table, n) + multiset{e}
  {
    if n - 1 == slot {
      WaitingSame(table, table[slot := Some(e)], n - 1);
    } else {
      WaitingPut(table, slot, e, n - 1);
    }
  }

  lemma {:induction false} WaitingEmptied(table: seq<Option<Event>>,
                                          table': seq<Option<Event>>, slots: set<nat>, n: nat)
    requires n <= |table| == |table'| && forall i | 0 <= i < n :: table'[i] == if i in slots then None else table[i]
    ensures Waiting(table', n) + multiset(EventsOf(table, slots, n)) == Waiting(table, n)
  {
    if n > 0 {
      WaitingEmptied(table, table', slots, n - 1);
      MovedOne(Waiting(table, n - 1), Waiting(table', n - 1), EventsOf(table, slots, n - 1), table[n - 1],
               n - 1 in slots);
    }
  }

  /** An event moves from the table to the list, or stays. */
  lemma MovedOne(w: multiset<Event>, w': multiset<Event>, events: seq<Event>, entry: Option<Event>, moves: bool)
    requires w' + multiset(events) == w
    ensures var one := if entry.Some? then multiset{entry.value} else multiset{};
      (w' + if moves then multiset{} else one) + multiset(events + if moves && entry.Some? then [entry.value] else [])
        == w + one
  {
    if !(moves && entry.Some?) {
      assert events + [] == events;
    }
  }

  /** Issuing a command in a free slot keeps the state good and adds its event. */
  lemma StartedKeeps(s: State, slot: nat, e: Event)
    requires Good(s) && slot < SLOTS && slot !in s.running
    ensures Good(Started(s, slot, e)) && Ledger(Started(s, slot, e)) == Ledger(s) + multiset{e}
  {
    WaitingPut(s.table, slot, e, SLOTS);
  }

  lemma FinishedKeeps(s: State, slots: set<nat>)
    requires Good(s)
    ensures Good(Finished(s, slots)) && Ledger(Finished(s, slots)) == Ledger(s)
  {
  }

  /** An interrupt moves events from the table to the queue and loses none. */
  lemma InterruptedKeeps(s: State, taskFileError: bool, registerFis: bool)
    requires Good(s)
    ensures Good(Interrupted(s, taskFileError, registerFis))
    ensures Ledger(Interrupted(s, taskFileError, registerFis)) == Ledger(s)
  {
    var completed := s.running - s.issued;
    WaitingEmptied(s.table, Emptied(s.table, completed, SLOTS), completed, SLOTS);
  }

  lemma DispatchedKeeps(s: State, alive: bool)
    requires Good(s) && s.queue != []
    ensures Good(Dispatched(s, alive)) && Ledger(Dispatched(s, alive)) == Ledger(s)
  {
    assert s.queue == [s.queue[0]] + s.queue[1..];
  }

  lemma PostedKeeps(s: State, events: seq<Event>)
    requires Good(s)
    ensures Good(Posted(s, events)) && Ledger(Posted(s, events)) == Ledger(s) + multiset(events)
  {
  }

  // ----- runs -----

  datatype Step =
    | Start(slot: nat, event: Event)
    | Finish(slots: set<nat>)
    | Interrupt(taskFileError: bool, registerFis: bool)
    | Dispatch(alive: bool)
    | Post(events: seq<Event>)

  predicate Enabled(s: State, step: Step) {
    match step
    case Start(slot, e) => slot < SLOTS && slot !in s.running
    case Dispatch(_) => s.queue != []
    case _ => true
  }

  function Apply(s: State, step: Step): (r: State)
    requires |s.table| == SLOTS && Enabled(s, step)
    ensures |r.table| == SLOTS
  {
    match step
    case Start(slot, e) => Started(s, slot, e)
    case Finish(slots) => Finished(s, slots)
    case Interrupt(t, d) => Interrupted(s, t, d)
    case Dispatch(alive) => Dispatched(s, alive)
    case Post(events) => Posted(s, events)
  }

  /** No command, no event. */
  function Idle(): State {
    State({}, {}, seq(SLOTS, _ => None), [], [], [], [], [])
  }

  ghost predicate IsRun(states: seq<State>, steps: seq<Step>) {
    && |states| == |steps| + 1 && states[0] == Idle()
    && forall i | 0 <= i < |steps| ::
         |states[i].table| == SLOTS && Enabled(states[i], steps[i]) && states[i + 1] == Apply(states[i], steps[i])
  }

  /** The events that a step brings in: that of a command issued, or those that a coroutine queues. */
  function EventsIn(step: Step): seq<Event> {
    match step
    case Start(_, e) => [e]
    case Post(events) => events
    case _ => []
  }

  /** The events brought in by the first n steps. */
  function EnteredIn(steps: seq<Step>, n: nat): seq<Event>
    requires n <= |steps|
  {
    if n == 0 then [] else EnteredIn(steps, n - 1) + EventsIn(steps[n - 1])
  }

  lemma NobodyWaits(n: nat)
    requires n <= SLOTS
    ensures Waiting(Idle().table, n) == multiset{}
  {
  }

  function EventsWithResults(results: seq<(Event, bool)>): seq<Event> {
    seq(|results|, i requires 0 <= i < |results| => results[i].0)
  }

  /** In every state of every run the slots are accounted for, every event is in the table, the queue or
      among those taken from it, as often as it was brought in, and exactly the events that have left
      the table, and were not queued by a coroutine, have results. */
  lemma {:induction false} RunsKeepEvents(states: seq<State>, steps: seq<Step>, n: nat)
    requires IsRun(states, steps) && n < |states|
    ensures Good(states[n]) && Ledger(states[n]) == multiset(EnteredIn(steps, n))
    ensures ResultsMatch(states[n])
    decreases n
  {
    if n == 0 {
      NobodyWaits(SLOTS);
    } else {
      RunsKeepEvents(states, steps, n - 1);
      StepKeeps(states[n - 1], steps[n - 1]);
    }
  }

  /** Exactly the events that have left the table, and were not queued by a coroutine, have results. */
  ghost predicate ResultsMatch(s: State) {
    multiset(EventsWithResults(s.results)) + multiset(s.posted) ==
    multiset(s.queue) + multiset(s.resumed) + multiset(s.dropped)
  }

  lemma StepKeeps(s: State, step: Step)
    requires Good(s) && Enabled(s, step) && ResultsMatch(s)
    ensures Good(Apply(s, step)) && ResultsMatch(Apply(s, step))
    ensures Ledger(Apply(s, step)) == Ledger(s) + multiset(EventsIn(step))
  {
    match step
    case Start(slot, e) => StartedKeeps(s, slot, e);
    case Finish(slots) => FinishedKeeps(s, slots);
    case Interrupt(t, d) =>
      InterruptedKeeps(s, t, d);
      InterruptedMatch(s, t, d);
    case Dispatch(alive) =>
      DispatchedKeeps(s, alive);
      DispatchedMatch(s, alive);
    case Post(events) =>
      PostedKeeps(s, events);
      PostedMatch(s, events);
  }

  lemma InterruptedMatch(s: State, taskFileError: bool, registerFis: bool)
    requires |s.table| == SLOTS && ResultsMatch(s)
    ensures ResultsMatch(Interrupted(s, taskFileError, registerFis))
  {
    if taskFileError || registerFis {
      var events := EventsOf(s.table, s.running - s.issued, SLOTS);
      ResultsAdded(s.results, events, !taskFileError);
      BothGain(multiset(EventsWithResults(s.results)), multiset(s.posted), multiset(s.queue), multiset(s.resumed),
               multiset(s.dropped), multiset(events));
      assert multiset(s.queue + events) == multiset(s.queue) + multiset(events);
    }
  }

  lemma BothGain(a: multiset<Event>, b: multiset<Event>, c: multiset<Event>, d: multiset<Event>, e: multiset<Event>,
                 more: multiset<Event>)
    requires a + b == c + d + e
    ensures (a + more) + b == (c + more) + d + e && a + (b + more) == (c + more) + d + e
  {
    assert (a + more) + b == (a + b) + more == a + (b + more);
    assert (c + more) + d + e == (c + d + e) + more;
  }

  lemma PostedMatch(s: State, events: seq<Event>)
    requires ResultsMatch(s)
    ensures ResultsMatch(Posted(s, events))
  {
    BothGain(multiset(EventsWithResults(s.results)), multiset(s.posted), multiset(s.queue), multiset(s.resumed),
             multiset(s.dropped), multiset(events));
    assert multiset(s.queue + events) == multiset(s.queue) + multiset(events);
    assert multiset(s.posted + events) == multiset(s.posted) + multiset(events);
  }

  lemma DispatchedMatch(s: State, alive: bool)
    requires s.queue != [] && ResultsMatch(s)
    ensures ResultsMatch(Dispatched(s, alive))
  {
    var first := multiset{s.queue[0]};
    assert s.queue == [s.queue[0]] + s.queue[1..];
    assert multiset(s.queue) == first + multiset(s.queue[1..]);
    assert multiset(s.resumed + [s.queue[0]]) == multiset(s.resumed) + first;
    assert multiset(s.dropped + [s.queue[0]]) == multiset(s.dropped) + first;
    OneMoves(multiset(s.queue[1..]), first, multiset(s.resumed), multiset(s.dropped));
    assert s.resumed + [] == s.resumed && s.dropped + [] == s.dropped;
  }

  lemma OneMoves(a: multiset<Event>, x: multiset<Event>, b: multiset<Event>, c: multiset<Event>)
    ensures (x + a) + b + c == a + (b + x) + c == a + b + (c + x)
  {
  }

  lemma ResultsAdded(results: seq<(Event, bool)>, events: seq<Event>, result: bool)
    ensures EventsWithResults(results + WithResult(events, result)) == EventsWithResults(results) + events
    ensures multiset(EventsWithResults(results + WithResult(events, result))) ==
            multiset(EventsWithResults(results)) + multiset(events)
  {
    assert EventsWithResults(results + WithResult(events, result)) == EventsWithResults(results) + events;
  }

  lemma OneOf(a: multiset<Event>, b: multiset<Event>, c: multiset<Event>, d: multiset<Event>, e: Event)
    ensures (a + b + c + d)[e] == a[e] + b[e] + c[e] + d[e]
    ensures a == multiset{} ==> a + b + c + d == b + c + d && (d == multiset{} ==> a + b + c + d == b + c)
  {
  }

  /** An event brought in once is in exactly one place, waits in one slot at most, and, if no coroutine
      queued it, has had its result set exactly once when it has left the table. */
  lemma EachInOnePlace(states: seq<State>, steps: seq<Step>, n: nat, e: Event)
    requires IsRun(states, steps) && n < |states| && multiset(EnteredIn(steps, n))[e] == 1
    ensures var s := states[n];
      && Waiting(s.table, |s.table|)[e] + multiset(s.queue)[e] + multiset(s.resumed)[e] + multiset(s.dropped)[e] == 1
      && multiset(EventsWithResults(s.results))[e] + multiset(s.posted)[e] == 1 - Waiting(s.table, |s.table|)[e]
  {
    RunsKeepEvents(states, steps, n);
    var s := states[n];
    OneOf(Waiting(s.table, |s.table|), multiset(s.queue), multiset(s.resumed), multiset(s.dropped), e);
    OneOf(multiset{}, multiset(EventsWithResults(s.results)), multiset(s.posted), multiset{}, e);
    OneOf(multiset{}, multiset(s.queue), multiset(s.resumed), multiset(s.dropped), e);
  }

  // ----- from issue to result -----

  /** The port still works on the command of an event in a slot. */
  ghost predicate IsPending(s: State, slot: nat, e: Event) {
    slot in s.issued && slot in s.running && slot < |s.table| && s.table[slot] == Some(e)
  }

  /** The port is done with the command, and its result is not set yet. */
  ghost predicate IsDone(s: State, slot: nat, e: Event) {
    slot !in s.issued && slot in s.running && slot < |s.table| && s.table[slot] == Some(e)
  }

  predicate Finishes(step: Step, slot: nat) {
    step.Finish? && slot in step.slots
  }

  /** An interrupt that sets results. */
  predicate Collects(step: Step) {
    step.Interrupt? && (step.taskFileError || step.registerFis)
  }

  lemma PendingStays(s: State, step: Step, slot: nat, e: Event)
    requires Good(s) && Enabled(s, step) && IsPending(s, slot, e) && !Finishes(step, slot)
    ensures IsPending(Apply(s, step), slot, e)
  {
  }

  lemma PendingFinishes(s: State, step: Step, slot: nat, e: Event)
    requires Good(s) && Enabled(s, step) && IsPending(s, slot, e) && Finishes(step, slot)
    ensures IsDone(Apply(s, step), slot, e)
  {
  }

  lemma DoneStays(s: State, step: Step, slot: nat, e: Event)
    requires Good(s) && Enabled(s, step) && IsDone(s, slot, e) && !Collects(step)
    ensures IsDone(Apply(s, step), slot, e)
  {
  }

  lemma {:induction false} InEvents(table: seq<Option<Event>>, slots: set<nat>, n: nat, slot: nat)
    requires slot < n <= |table| && slot in slots && table[slot].Some?
    ensures table[slot].value in EventsOf(table, slots, n)
  {
    if slot < n - 1 {
      InEvents(table, slots, n - 1, slot);
    }
  }

  /** What an interrupt does to a command that the port is done with: its event gets a result, false after
      a task file error and else true, and is queued, and the slot is free. */
  lemma DoneIsCollected(s: State, step: Step, slot: nat, e: Event)
    requires Good(s) && IsDone(s, slot, e) && Collects(step)
    ensures var s' := Apply(s, step);
      && slot !in s'.running && s'.table[slot] == None
      && |s.results| <= |s'.results| && s'.results[..|s.results|] == s.results
      && (e, !step.taskFileError) in s'.results[|s.results|..]
      && |s.queue| <= |s'.queue| && e in s'.queue[|s.queue|..]
  {
    var completed := s.running - s.issued;
    var events, s' := EventsOf(s.table, completed, SLOTS), Apply(s, step);
    InEvents(s.table, completed, SLOTS, slot);
    var i :| 0 <= i < |events| && events[i] == e;
    assert s'.results[|s.results|..] == WithResult(events, !step.taskFileError);
    assert s'.queue[|s.queue|..] == events;
    assert WithResult(events, !step.taskFileError)[i] == (e, !step.taskFileError);
  }

  /** From its issue on a command is with the port until a step finishes its slot: its event waits there. */
  lemma {:induction false} WaitsUntilFinished(states: seq<State>, steps: seq<Step>, i: nat, n: nat)
    requires IsRun(states, steps) && i < n <= |steps| && steps[i].Start?
    requires forall k | i < k < n :: !Finishes(steps[k], steps[i].slot)
    ensures IsPending(states[n], steps[i].slot, steps[i].event)
    decreases n
  {
    RunsKeepEvents(states, steps, n - 1);
    if i + 1 < n {
      WaitsUntilFinished(states, steps, i, n - 1);
      PendingStays(states[n - 1], steps[n - 1], steps[i].slot, steps[i].event);
    }
  }

  /** So an event brought in once has no result and is not queued until then. */
  lemma NoResultUntilFinished(states: seq<State>, steps: seq<Step>, i: nat, n: nat)
    requires IsRun(states, steps) && i < n <= |steps| && steps[i].Start?
    requires forall k | i < k < n :: !Finishes(steps[k], steps[i].slot)
    requires multiset(EnteredIn(steps, n))[steps[i].event] == 1
    ensures steps[i].event !in EventsWithResults(states[n].results) && steps[i].event !in states[n].queue
  {
    var e, s := steps[i].event, states[n];
    WaitsUntilFinished(states, steps, i, n);
    EachInOnePlace(states, steps, n, e);
    RunsKeepEvents(states, steps, n);
    WaitingOnce(s.table, steps[i].slot, |s.table|);
  }

  /** Once its slot has been finished, it is done until an interrupt collects it. */
  lemma {:induction false} DoneUntilCollected(states: seq<State>, steps: seq<Step>, i: nat, j: nat, n: nat)
    requires IsRun(states, steps) && i < j < n <= |steps| && steps[i].Start? && Finishes(steps[j], steps[i].slot)
    requires forall k | i < k < j :: !Finishes(steps[k], steps[i].slot)
    requires forall k | j < k < n :: !Collects(steps[k])
    ensures IsDone(states[n], steps[i].slot, steps[i].event)
    decreases n
  {
    RunsKeepEvents(states, steps, n - 1);
    if j + 1 < n {
      DoneUntilCollected(states, steps, i, j, n - 1);
      DoneStays(states[n - 1], steps[n - 1], steps[i].slot, steps[i].event);
    } else {
      WaitsUntilFinished(states, steps, i, j);
      PendingFinishes(states[j], steps[j], steps[i].slot, steps[i].event);
    }
  }

  /** The first interrupt with a task file error or a register FIS after a command's slot was finished
      sets its result and queues its event. */
  lemma CollectedOnceFinished(states: seq<State>, steps: seq<Step>, i: nat, j: nat, n: nat)
    requires IsRun(states, steps) && i < j < n < |steps| && steps[i].Start? && Finishes(steps[j], steps[i].slot)
    requires forall k | i < k < j :: !Finishes(steps[k], steps[i].slot)
    requires Collects(steps[n]) && forall k | j < k < n :: !Collects(steps[k])
    ensures var s, s', e := states[n], states[n + 1], steps[i].event;
      && steps[i].slot !in s'.running && |s.results| <= |s'.results| && |s.queue| <= |s'.queue|
      && (e, !steps[n].taskFileError) in s'.results[|s.results|..] && e in s'.queue[|s.queue|..]
  {
    RunsKeepEvents(states, steps, n);
    DoneUntilCollected(states, steps, i, j, n);
    DoneIsCollected(states[n], steps[n], steps[i].slot, steps[i].event);
  }

  /** Where the event of a slot stands among the events of a set: behind those of lower slots. */
  lemma {:induction false} EventAt(table: seq<Option<Event>>, slots: set<nat>, n: nat, i: nat)
    requires i < n <= |table| && i in slots && table[i].Some?
    ensures var p := |EventsOf(table, slots, i)|;
      p < |EventsOf(table, slots, i + 1)| <= |EventsOf(table, slots, n)|
      && EventsOf(table, slots, n)[p] == table[i].value
  {
    if i < n - 1 {
      EventAt(table, slots, n - 1, i);
    }
  }

  lemma {:induction false} EventsGrow(table: seq<Option<Event>>, slots: set<nat>, i: nat, n: nat)
    requires i <= n <= |table|
    ensures |EventsOf(table, slots, i)| <= |EventsOf(table, slots, n)|
    decreases n
  {
    if i < n {
      EventsGrow(table, slots, i, n - 1);
    }
  }

  /** An interrupt queues the event of a lower slot before that of a higher one. */
  lemma LowerSlotFirst(s: State, step: Step, i: nat, j: nat, a: Event, b: Event)
    requires Good(s) && Collects(step) && i < j && IsDone(s, i, a) && IsDone(s, j, b)
    ensures exists p, q | |s.queue| <= p < q < |Apply(s, step).queue| ::
              Apply(s, step).queue[p] == a && Apply(s, step).queue[q] == b
  {
    var completed := s.running - s.issued;
    EventAt(s.table, completed, SLOTS, i);
    EventAt(s.table, completed, SLOTS, j);
    EventsGrow(s.table, completed, i + 1, j);
    var p, q := |EventsOf(s.table, completed, i)|, |EventsOf(s.table, completed, j)|;
    var events, queue := EventsOf(s.table, completed, SLOTS), Apply(s, step).queue;
    assert queue == s.queue + events && p < q;
    assert queue[|s.queue| + p] == events[p] == a;
    assert queue[|s.queue| + q] == events[q] == b;
  }

  // ----- the order of the queue -----

  /** The events that the first n steps queue, in order: with the results that an interrupt sets, or by
      a coroutine. */
  function QueuedIn(states: seq<State>, steps: seq<Step>, n: nat): seq<Event>
    requires n <= |steps| < |states|
  {
    if n == 0 then []
    else
      QueuedIn(states, steps, n - 1) +
      match steps[n - 1]
      case Post(events) => events
      case Interrupt(_, _) =>
        var before := |states[n - 1].results|;
        if before <= |states[n].results| then EventsWithResults(states[n].results[before..]) else []
      case _ => []
  }

  /** Of the events taken from the queue in the first n steps, which coroutines could still run. */
  function AliveIn(steps: seq<Step>, n: nat): seq<bool>
    requires n <= |steps|
  {
    if n == 0 then []
    else AliveIn(steps, n - 1) + if steps[n - 1].Dispatch? then [steps[n - 1].alive] else []
  }

  /** The first events, as many as there are flags, less those with the other flag. */
  function Kept(events: seq<Event>, flags: seq<bool>, flag: bool): seq<Event>
    requires |flags| <= |events|
  {
    if flags == [] then []
    else
      var n := |flags| - 1;
      Kept(events, flags[..n], flag) + if flags[n] == flag then [events[n]] else []
  }

  lemma {:induction false} KeptSame(a: seq<Event>, b: seq<Event>, flags: seq<bool>, flag: bool)
    requires |flags| <= |a| && a <= b
    ensures Kept(a, flags, flag) == Kept(b, flags, flag)
  {
    if flags != [] {
      KeptSame(a, b, flags[..|flags| - 1], flag);
    }
  }

  lemma KeptOneMore(events: seq<Event>, flags: seq<bool>, alive: bool, flag: bool)
    requires |flags| < |events|
    ensures Kept(events, flags + [alive], flag)
            == Kept(events, flags, flag) + if alive == flag then [events[|flags|]] else []
  {
    assert (flags + [alive])[..|flags|] == flags;
  }

  /** The queue holds the last of the events queued so far; those before were taken from it in order. */
  ghost predicate InTurn(s: State, queued: seq<Event>, flags: seq<bool>) {
    && |flags| <= |queued| && s.queue == queued[|flags|..]
    && s.resumed == Kept(queued, flags, true) && s.dropped == Kept(queued, flags, false)
  }

  lemma MoreQueued(s: State, s': State, queued: seq<Event>, flags: seq<bool>, events: seq<Event>)
    requires InTurn(s, queued, flags) && s'.queue == s.queue + events
    requires s'.resumed == s.resumed && s'.dropped == s.dropped
    ensures InTurn(s', queued + events, flags)
  {
    KeptSame(queued, queued + events, flags, true);
    KeptSame(queued, queued + events, flags, false);
    assert (queued + events)[|flags|..] == queued[|flags|..] + events;
  }

  lemma OneTaken(s: State, queued: seq<Event>, flags: seq<bool>, alive: bool)
    requires InTurn(s, queued, flags) && s.queue != []
    ensures InTurn(Dispatched(s, alive), queued, flags + [alive])
  {
    KeptOneMore(queued, flags, alive, true);
    KeptOneMore(queued, flags, alive, false);
    assert queued[|flags|..][1..] == queued[|flags| + 1..] && queued[|flags|..][0] == queued[|flags|];
  }

  /** What an interrupt queues are the events of the results that it sets, in their order. */
  lemma ResultsQueued(s: State, t: bool, d: bool)
    requires |s.table| == SLOTS
    ensures var s' := Interrupted(s, t, d);
      |s.results| <= |s'.results| && s'.queue == s.queue + EventsWithResults(s'.results[|s.results|..])
  {
    var s' := Interrupted(s, t, d);
    var events := EventsOf(s.table, s.running - s.issued, SLOTS);
    if t || d {
      assert s'.results[|s.results|..] == WithResult(events, !t);
      assert EventsWithResults(WithResult(events, !t)) == events;
    } else {
      assert s'.results[|s.results|..] == [];
    }
  }

  /** First in, first out: in every run the events are taken from the queue in the order in which they
      were queued, and resumed or dropped as their coroutines can run or not. */
  lemma {:induction false} FirstInFirstOut(states: seq<State>, steps: seq<Step>, n: nat)
    requires IsRun(states, steps) && n <= |steps|
    ensures InTurn(states[n], QueuedIn(states, steps, n), AliveIn(steps, n))
    decreases n
  {
    if n > 0 {
      FirstInFirstOut(states, steps, n - 1);
      var s, s' := states[n - 1], states[n];
      var queued, flags := QueuedIn(states, steps, n - 1), AliveIn(steps, n - 1);
      assert s' == Apply(s, steps[n - 1]) && queued + [] == queued && flags + [] == flags;
      match steps[n - 1]
      case Start(_, _) => MoreQueued(s, s', queued, flags, []);
      case Finish(_) => MoreQueued(s, s', queued, flags, []);
      case Post(events) => MoreQueued(s, s', queued, flags, events);
      case Interrupt(t, d) =>
        ResultsQueued(s, t, d);
        MoreQueued(s, s', queued, flags, EventsWithResults(s'.results[|s.results|..]));
      case Dispatch(alive) => OneTaken(s, queued, flags, alive);
    }
  }

  lemma {:induction false} KeptAll(events: seq<Event>, flags: seq<bool>)
    requires |flags| <= |events| && forall i | 0 <= i < |flags| :: flags[i]
    ensures Kept(events, flags, true) == events[..|flags|] && Kept(events, flags, false) == []
  {
    if flags != [] {
      KeptAll(events, flags[..|flags| - 1]);
    }
  }

  lemma {:induction false} AllAlive(steps: seq<Step>, n: nat)
    requires n <= |steps| && forall i | 0 <= i < n && steps[i].Dispatch? :: steps[i].alive
    ensures forall i | 0 <= i < |AliveIn(steps, n)| :: AliveIn(steps, n)[i]
  {
    if n > 0 {
      AllAlive(steps, n - 1);
    }
  }

  /** So if every coroutine can still run, all are resumed in the order in which they were queued. */
  lemma ResumedInOrder(states: seq<State>, steps: seq<Step>, n: nat)
    requires IsRun(states, steps) && n <= |steps| && forall i | 0 <= i < n && steps[i].Dispatch? :: steps[i].alive
    ensures states[n].dropped == [] && states[n].resumed + states[n].queue == QueuedIn(states, steps, n)
  {
    FirstInFirstOut(states, steps, n);
    AllAlive(steps, n);
    var queued, flags := QueuedIn(states, steps, n), AliveIn(steps, n);
    KeptAll(queued, flags);
    assert queued == queued[..|flags|] + queued[|flags|..];
  }

  // ----- several steps -----

  /** The state after some steps, if each can be taken. */
  function ApplyAll(s: State, steps: seq<Step>): (r: Option<State>)
    requires |s.table| == SLOTS
    ensures r.Some? ==> |r.value.table| == SLOTS
  {
    if steps == [] then Some(s)
    else
      match ApplyAll(s, steps[..|steps| - 1])
      case None => None
      case Some(t) => if Enabled(t, steps[|steps| - 1]) then Some(Apply(t, steps[|steps| - 1])) else None
  }

  lemma ApplyOneMore(s: State, steps: seq<Step>, t: State, step: Step)
    requires |s.table| == SLOTS && ApplyAll(s, steps) == Some(t) && Enabled(t, step)
    ensures ApplyAll(s, steps + [step]) == Some(Apply(t, step))
  {
    assert (steps + [step])[..|steps|] == steps;
  }

  /** Steps that can be taken in the last state of a run go on with it. */
  lemma {:induction false} RunGoesOn(states: seq<State>, steps: seq<Step>, more: seq<Step>, t: State)
    returns (states': seq<State>)
    requires IsRun(states, steps) && |states[|steps|].table| == SLOTS && ApplyAll(states[|steps|], more) == Some(t)
    ensures IsRun(states', steps + more) && states'[|steps + more|] == t
    decreases |more|
  {
    if more == [] {
      states' := states;
      assert steps + more == steps;
    } else {
      var less, last := more[..|more| - 1], more[|more| - 1];
      var before := ApplyAll(states[|steps|], less).value;
      var states1 := RunGoesOn(states, steps, less, before);
      states' := states1 + [t];
      assert steps + more == (steps + less) + [last];
    }
  }

  lemma {:induction false} WaitingTwice(table: seq<Option<Event>>, i: nat, j: nat, n: nat)
    requires i < j < n <= |table| && table[i].Some? && table[i] == table[j]
    ensures Waiting(table, n)[table[i].value] >= 2
  {
    if n - 1 == j {
      WaitingOnce(table, i, n - 1);
    } else {
      WaitingTwice(table, i, j, n - 1);
    }
  }

  lemma {:induction false} WaitingOnce(table: seq<Option<Event>>, i: nat, n: nat)
    requires i < n <= |table| && table[i].Some?
    ensures Waiting(table, n)[table[i].value] >= 1
  {
    if i < n - 1 {
      WaitingOnce(table, i, n - 1);
    }
  }

  /** No two slots hold the same command. */
  lemma NoSharedSlots(states: seq<State>, steps: seq<Step>, n: nat, i: nat, j: nat)
    requires IsRun(states, steps) && n < |states| && i < j < SLOTS
    requires forall e: Event :: multiset(EnteredIn(steps, n))[e] <= 1
    ensures Good(states[n]) && (states[n].table[i].Some? ==> states[n].table[i] != states[n].table[j])
  {
    RunsKeepEvents(states, steps, n);
    var s := states[n];
    forall e: Event ensures Waiting(s.table, SLOTS)[e] <= 1 {
      assert multiset(EnteredIn(steps, n))[e] <= 1 && Ledger(s)[e] >= Waiting(s.table, SLOTS)[e];
    }
    if s.table[i].Some? && s.table[i] == s.table[j] {
      WaitingTwice(s.table, i, j, SLOTS);
    }
  }
}
