/** The event queue and an AHCI device's commands (src/boot/scheduler.cpp, lines 23-42;
    src/drivers/storage/ahci/device.cpp, lines 79-131 and 295-372). */
module Ahci {
  import opened Options
  import opened CommandSlots

  class Scheduler {
    var eventQueue: seq<Event>
    var resumed: seq<Event>
    ghost var dropped: seq<Event>
    ghost var posted: seq<Event>

    constructor ()
      ensures eventQueue == [] && resumed == [] && dropped == [] && posted == []
    {
      eventQueue, resumed, dropped, posted := [], [], [], [];
    }

    method QueueEvent(e: Event)
      modifies this`eventQueue
      ensures eventQueue == old(eventQueue) + [e]
    {
      eventQueue := eventQueue + [e];
    }

    /** Resumes the coroutines in the queue that can still run, and takes at most 100 out of it (lines
        23-37). Whether the n-th taken can run is `alive(n)`; `follow(n)` are the events queued before it
        is suspended again. */
    method TimerLoop(alive: nat -> bool, follow: nat -> seq<Event>) returns (ghost n: nat, ghost all: seq<Event>)
      modifies this
      ensures Ran(old(eventQueue), old(resumed), eventQueue, resumed, all, n, alive, follow)
      ensures dropped == old(dropped) + Dead(all, n, alive) && posted == old(posted) + Followers(n, alive, follow)
      ensures n <= DISPATCH_LIMIT && (n == DISPATCH_LIMIT || eventQueue == [])
    {
      n, all := 0, eventQueue;
      var dispatched := 0;
      while |eventQueue| > 0 && dispatched < DISPATCH_LIMIT
        invariant dispatched == n <= DISPATCH_LIMIT && dropped == old(dropped) && posted == old(posted)
        invariant Ran(old(eventQueue), old(resumed), eventQueue, resumed, all, n, alive, follow)
        decreases DISPATCH_LIMIT - dispatched
      {
        var x := eventQueue[0];
        RanOneMore(old(eventQueue), old(resumed), eventQueue, resumed, all, n, alive, follow);
        if alive(dispatched) {
          resumed := resumed + [x];
          eventQueue := eventQueue + follow(dispatched);
          all := all + follow(dispatched);
        }
        eventQueue := eventQueue[1..];
        dispatched := dispatched + 1;
        n := n + 1;
      }
      dropped, posted := dropped + Dead(all, n, alive), posted + Followers(n, alive, follow);
    }
  }

  /** Of the events `all`, which are those queued first and those queued meanwhile, the first n were
      taken out in order, and the coroutines among them that could still run resumed. */
  ghost predicate Ran(queue0: seq<Event>, resumed0: seq<Event>, queue: seq<Event>,
                      resumed: seq<Event>, all: seq<Event>, n: nat,
                      alive: nat -> bool, follow: nat -> seq<Event>) {
    && n <= |all| && all == queue0 + Followers(n, alive, follow)
    && queue == all[n..] && resumed == resumed0 + Alive(all, n, alive)
    && forall i | 0 <= i < n :: IsNext(queue0, i, alive, follow)
  }

  /** There is an event to take at turn i. */
  ghost predicate IsNext(queue0: seq<Event>, i: nat, alive: nat -> bool, follow: nat -> seq<Event>) {
    i < |queue0 + Followers(i, alive, follow)|
  }

  lemma RanOneMore(queue0: seq<Event>, resumed0: seq<Event>, queue: seq<Event>,
                   resumed: seq<Event>, all: seq<Event>, n: nat,
                   alive: nat -> bool, follow: nat -> seq<Event>)
    requires Ran(queue0, resumed0, queue, resumed, all, n, alive, follow) && queue != []
    ensures var x := queue[0];
      if alive(n)
      then Ran(queue0, resumed0, (queue + follow(n))[1..], resumed + [x], all + follow(n), n + 1, alive, follow)
      else Ran(queue0, resumed0, queue[1..], resumed, all, n + 1, alive, follow)
  {
    AliveSame(all, all + follow(n), n, alive);
    assert IsNext(queue0, n, alive, follow);
  }

  /** Those of the first n events whose coroutines could still run. */
  function Alive(events: seq<Event>, n: nat, alive: nat -> bool): seq<Event>
    requires n <= |events|
  {
    if n == 0 then [] else Alive(events, n - 1, alive) + if alive(n - 1) then [events[n - 1]] else []
  }

  /** Those whose coroutines could not. */
  function Dead(events: seq<Event>, n: nat, alive: nat -> bool): seq<Event>
    requires n <= |events|
  {
    if n == 0 then [] else Dead(events, n - 1, alive) + if alive(n - 1) then [] else [events[n - 1]]
  }

  lemma {:induction false} DeadSame(a: seq<Event>, b: seq<Event>, n: nat, alive: nat -> bool)
    requires n <= |a| && a <= b
    ensures Dead(a, n, alive) == Dead(b, n, alive)
  {
    if n > 0 {
      DeadSame(a, b, n - 1, alive);
    }
  }

  /** What the coroutines of the first n events queued. */
  function Followers(n: nat, alive: nat -> bool, follow: nat -> seq<Event>): seq<Event> {
    if n == 0 then [] else Followers(n - 1, alive, follow) + if alive(n - 1) then follow(n - 1) else []
  }

  lemma {:induction false} AliveSame(a: seq<Event>, b: seq<Event>, n: nat, alive: nat -> bool)
    requires n <= |a| && a <= b
    ensures Alive(a, n, alive) == Alive(b, n, alive)
  {
    if n > 0 {
      AliveSame(a, b, n - 1, alive);
    }
  }

  // ----- a call as steps -----

  /** The steps of turn i: the coroutine queues events, and its event is taken out; or only that. */
  function TurnSteps(i: nat, alive: nat -> bool, follow: nat -> seq<Event>): seq<Step> {
    if alive(i) then [Post(follow(i)), Dispatch(true)] else [Dispatch(false)]
  }

  function TimerSteps(n: nat, alive: nat -> bool, follow: nat -> seq<Event>): seq<Step> {
    if n == 0 then [] else TimerSteps(n - 1, alive, follow) + TurnSteps(n - 1, alive, follow)
  }

  /** The state after n turns. */
  function AfterTurns(s: State, n: nat, alive: nat -> bool, follow: nat -> seq<Event>): State
    requires n <= |s.queue + Followers(n, alive, follow)|
  {
    var all := s.queue + Followers(n, alive, follow);
    s.(queue := all[n..], resumed := s.resumed + Alive(all, n, alive), dropped := s.dropped + Dead(all, n, alive),
       posted := s.posted + Followers(n, alive, follow))
  }

  lemma LiveTurn(s: State, i: nat, alive: nat -> bool, follow: nat -> seq<Event>)
    requires |s.table| == SLOTS && IsNext(s.queue, i, alive, follow) && alive(i)
    ensures i + 1 <= |s.queue + Followers(i + 1, alive, follow)|
    ensures var posted := Posted(AfterTurns(s, i, alive, follow), follow(i));
      posted.queue != [] && Dispatched(posted, true) == AfterTurns(s, i + 1, alive, follow)
  {
    var all, all' := s.queue + Followers(i, alive, follow), s.queue + Followers(i + 1, alive, follow);
    assert all' == all + follow(i);
    assert all[i..] + follow(i) == all'[i..];
    AliveSame(all, all', i, alive);
    DeadSame(all, all', i, alive);
    assert all'[i..][1..] == all'[i + 1..] && all'[i..][0] == all'[i];
    NothingMore(s.dropped + Dead(all, i, alive), []);
    NothingMore(Dead(all, i, alive), []);
    Regrouped(s.resumed, Alive(all, i, alive), [all'[i]]);
    Regrouped(s.posted, Followers(i, alive, follow), follow(i));
  }

  lemma DeadTurn(s: State, i: nat, alive: nat -> bool, follow: nat -> seq<Event>)
    requires |s.table| == SLOTS && IsNext(s.queue, i, alive, follow) && !alive(i)
    ensures i + 1 <= |s.queue + Followers(i + 1, alive, follow)|
    ensures var before := AfterTurns(s, i, alive, follow);
      before.queue != [] && Dispatched(before, false) == AfterTurns(s, i + 1, alive, follow)
  {
    var all := s.queue + Followers(i, alive, follow);
    NothingMore(Followers(i, alive, follow), []);
    assert all[i..][1..] == all[i + 1..] && all[i..][0] == all[i];
    NothingMore(s.resumed + Alive(all, i, alive), []);
    NothingMore(Alive(all, i, alive), []);
    Regrouped(s.dropped, Dead(all, i, alive), [all[i]]);
  }

  lemma NothingMore(a: seq<Event>, b: seq<Event>)
    requires b == []
    ensures a + b == a
  {
  }

  lemma Regrouped(a: seq<Event>, b: seq<Event>, c: seq<Event>)
    ensures (a + b) + c == a + (b + c)
  {
  }

  lemma TurnIsSteps(s: State, n: nat, alive: nat -> bool, follow: nat -> seq<Event>)
    requires |s.table| == SLOTS && n > 0 && IsNext(s.queue, n - 1, alive, follow)
    ensures n <= |s.queue + Followers(n, alive, follow)|
    ensures ApplyAll(AfterTurns(s, n - 1, alive, follow), TurnSteps(n - 1, alive, follow)) ==
            Some(AfterTurns(s, n, alive, follow))
  {
    var i := n - 1;
    var before := AfterTurns(s, i, alive, follow);
    if alive(i) {
      LiveTurn(s, i, alive, follow);
      ApplyOneMore(before, [], before, Post(follow(i)));
      ApplyOneMore(before, [Post(follow(i))], Posted(before, follow(i)), Dispatch(true));
      assert [Post(follow(i))] + [Dispatch(true)] == TurnSteps(i, alive, follow);
      assert [] + [Post(follow(i))] == [Post(follow(i))];
    } else {
      DeadTurn(s, i, alive, follow);
      ApplyOneMore(before, [], before, Dispatch(false));
      assert [] + [Dispatch(false)] == TurnSteps(i, alive, follow);
    }
  }

  lemma {:induction false} ApplyBoth(s: State, a: seq<Step>, t: State, b: seq<Step>)
    requires |s.table| == SLOTS && ApplyAll(s, a) == Some(t)
    ensures ApplyAll(s, a + b) == ApplyAll(t, b)
    decreases |b|
  {
    if b == [] {
      assert a + b == a;
    } else {
      ApplyBoth(s, a, t, b[..|b| - 1]);
      assert (a + b)[..|a + b| - 1] == a + b[..|b| - 1];
    }
  }

  ghost predicate StepsLeadTo(s: State, n: nat, alive: nat -> bool, follow: nat -> seq<Event>)
    requires |s.table| == SLOTS
  {
    && n <= |s.queue + Followers(n, alive, follow)|
    && ApplyAll(s, TimerSteps(n, alive, follow)) == Some(AfterTurns(s, n, alive, follow))
  }

  lemma OneTurnMore(s: State, n: nat, alive: nat -> bool, follow: nat -> seq<Event>)
    requires |s.table| == SLOTS && n > 0 && StepsLeadTo(s, n - 1, alive, follow)
             && IsNext(s.queue, n - 1, alive, follow)
    ensures StepsLeadTo(s, n, alive, follow)
  {
    TurnIsSteps(s, n, alive, follow);
    ApplyBoth(s, TimerSteps(n - 1, alive, follow), AfterTurns(s, n - 1, alive, follow),
              TurnSteps(n - 1, alive, follow));
  }

  lemma NoTurns(s: State, alive: nat -> bool, follow: nat -> seq<Event>)
    requires |s.table| == SLOTS
    ensures StepsLeadTo(s, 0, alive, follow)
  {
    NothingMore(s.queue, []);
    NothingMore(s.resumed, []);
    NothingMore(s.dropped, []);
    NothingMore(s.posted, []);
  }

  /** A call of the timer loop is a sequence of steps of the runs. */
  lemma {:induction false} TimerLoopIsSteps(s: State, n: nat, alive: nat -> bool, follow: nat -> seq<Event>)
    requires |s.table| == SLOTS && forall i | 0 <= i < n :: IsNext(s.queue, i, alive, follow)
    ensures StepsLeadTo(s, n, alive, follow)
    decreases n
  {
    if n == 0 {
      NoTurns(s, alive, follow);
    } else {
      TimerLoopIsSteps(s, n - 1, alive, follow);
      OneTurnMore(s, n, alive, follow);
    }
  }

  /** Runs the timer loop of a device's scheduler. */
  method RunTimer(d: Device, alive: nat -> bool, follow: nat -> seq<Event>) returns (ghost n: nat)
    requires d.Valid()
    modifies d.scheduler
    ensures d.Valid() && n <= DISPATCH_LIMIT
    ensures ApplyAll(old(d.Abstract()), TimerSteps(n, alive, follow)) == Some(d.Abstract())
  {
    ghost var s := d.Abstract();
    assert forall i | 0 <= i < SLOTS :: d.SlotMatches(i);
    ghost var all;
    n, all := d.scheduler.TimerLoop(alive, follow);
    TimerLoopIsSteps(s, n, alive, follow);
    assert forall i | 0 <= i < SLOTS :: old(d.SlotMatches(i));
  }

  class Command {
    const freeSlot: nat
    var awaitingCoroutine: Option<Event>
    var result: Option<bool>

    constructor (freeSlot: nat)
      ensures this.freeSlot == freeSlot && awaitingCoroutine == None && result == None
    {
      this.freeSlot := freeSlot;
      awaitingCoroutine, result := None, None;
    }

    /** Sets the result and queues the coroutine; false stands for the panic when it is set already. */
    method SetResult(scheduler: Scheduler, value: bool) returns (ok: bool)
      modifies this`result, scheduler`eventQueue
      ensures ok <==> old(result).None?
      ensures ok ==> result == Some(value)
      ensures ok ==>
                scheduler.eventQueue ==
                old(scheduler.eventQueue) + if awaitingCoroutine.Some? then [awaitingCoroutine.value] else []
    {
      if result.Some? {
        return false;
      }
      result := Some(value);
      if awaitingCoroutine.Some? {
        scheduler.QueueEvent(awaitingCoroutine.value);
      }
      ok := true;
    }
  }

  class Device {
    const scheduler: Scheduler
    const commands: array<Command?>
    var commandIssue: set<nat>
    var sataActive: set<nat>
    var runningCommands: set<nat>
    var taskFileError: bool
    var registerFis: bool
    ghost var table: seq<Option<Event>>
    ghost var results: seq<(Event, bool)>

    ghost predicate SlotMatches(i: nat)
      requires i < commands.Length && i < |table|
      reads this`table, commands, commands[..]
    {
      var c := commands[i];
      if c == null then table[i] == None
      else c.freeSlot == i && c.awaitingCoroutine == table[i] && table[i].Some? && c.result == None
    }

    ghost function Abstract(): State
      reads this, scheduler
    {
      State(commandIssue, runningCommands, table, results, scheduler.eventQueue, scheduler.resumed,
            scheduler.dropped, scheduler.posted)
    }

    ghost predicate Valid()
      reads this, scheduler, commands, commands[..]
    {
      && commands.Length == SLOTS && Good(Abstract())
      && forall i | 0 <= i < SLOTS :: SlotMatches(i)
    }

    constructor (scheduler: Scheduler)
      ensures Valid() && this.scheduler == scheduler && fresh(commands)
      ensures Abstract() == Idle().(queue := scheduler.eventQueue, resumed := scheduler.resumed,
                                    dropped := scheduler.dropped, posted := scheduler.posted)
    {
      this.scheduler := scheduler;
      commands := new Command?[SLOTS](_ => null);
      commandIssue, sataActive, runningCommands := {}, {}, {};
      taskFileError, registerFis := false, false;
      table := seq(SLOTS, _ => None);
      results := [];
    }

    /** The lowest slot that is neither issued, nor active, nor running (lines 295-304). */
    method FindFreeCommandSlot() returns (slot: Option<nat>)
      ensures slot.Some? ==> slot.value < SLOTS && slot.value !in commandIssue + sataActive + runningCommands
      ensures slot.Some? ==> forall i: nat | i < slot.value :: i in commandIssue + sataActive + runningCommands
      ensures slot.None? ==> forall i: nat | i < SLOTS :: i in commandIssue + sataActive + runningCommands
    {
      var slots := commandIssue + sataActive + runningCommands;
      for i := 0 to SLOTS
        invariant forall k: nat | k < i :: k in slots
      {
        if i !in slots {
          return Some(i);
        }
      }
      slot := None;
    }

    /** Issues a command in its slot and suspends its coroutine (lines 345-351), in one step. */
    method AwaitSuspend(command: Command, e: Event)
      requires Valid() && command.freeSlot < SLOTS && command.freeSlot !in runningCommands
      requires command.awaitingCoroutine == None && command.result == None
      modifies this, commands, command
      ensures Valid() && Abstract() == Started(old(Abstract()), command.freeSlot, e)
      ensures commandIssue == old(commandIssue) + {command.freeSlot}
      ensures runningCommands == old(runningCommands) + {command.freeSlot}
      ensures command.awaitingCoroutine == Some(e) && command.result == None
      ensures commands[command.freeSlot] == command
    {
      assert forall i | 0 <= i < SLOTS :: SlotMatches(i);
      command.awaitingCoroutine := Some(e);
      commands[command.freeSlot] := command;
      runningCommands := runningCommands + {command.freeSlot};
      commandIssue := commandIssue + {command.freeSlot};
      table := table[command.freeSlot := Some(e)];
      forall i | 0 <= i < SLOTS ensures SlotMatches(i) {
        assert i != command.freeSlot ==> old(SlotMatches(i));
      }
    }

    /** The port is done with the commands in some slots. */
    method PortFinishes(slots: set<nat>, taskFileError: bool, registerFis: bool)
      requires Valid()
      modifies this`commandIssue, this`taskFileError, this`registerFis
      ensures Valid() && Abstract() == Finished(old(Abstract()), slots)
      ensures this.taskFileError == taskFileError && this.registerFis == registerFis
      ensures commandIssue == old(commandIssue) - slots && runningCommands == old(runningCommands)
    {
      commandIssue := commandIssue - slots;
      this.taskFileError, this.registerFis := taskFileError, registerFis;
      assert forall i | 0 <= i < SLOTS :: old(SlotMatches(i));
    }

    /** Takes the command out of a slot with its result (lines 94-98 and 116-120). */
    method Collect(slot: nat, value: bool)
      requires Valid() && slot < SLOTS && slot in runningCommands && slot !in commandIssue && table[slot].Some?
               && commands[slot] != null
      modifies this`runningCommands, this`table, this`results, scheduler`eventQueue, commands, commands[slot]
      ensures Valid()
      ensures Abstract() == CollectedOne(old(Abstract()), slot, value)
      ensures old(commands[slot]).result == Some(value) && commands[slot] == null
      ensures forall i | 0 <= i < SLOTS && i != slot :: commands[i] == old(commands[i])
    {
      assert slot in Abstract().running && SlotMatches(slot);
      ghost var e := table[slot].value;
      runningCommands := runningCommands - {slot};
      var command := commands[slot];
      if command != null {
        var ok := command.SetResult(scheduler, value);
        assert ok;
        commands[slot] := null;
      }
      table := table[slot := None];
      results := results + [(e, value)];
      forall i | 0 <= i < SLOTS ensures SlotMatches(i) {
        assert i != slot ==> old(SlotMatches(i));
      }
    }

    /** The commands in some slots. */
    ghost function In(slots: set<nat>): set<Command>
      reads this, commands
    {
      set i | 0 <= i < commands.Length && i in slots && commands[i] != null :: commands[i]
    }

    /** Takes the command out of slot i if it is completed (lines 92-99 and 114-121). */
    method CollectNext(ghost s: State, completed: set<nat>, value: bool, i: nat)
      requires Valid() && i < SLOTS && completed !! commandIssue
      requires |s.table| == SLOTS && Abstract() == Collected(s, completed, value, i)
      modifies this`runningCommands, this`table, this`results, scheduler`eventQueue, commands, In(completed * {i})
      ensures Valid() && Abstract() == Collected(s, completed, value, i + 1)
      ensures forall k | 0 <= k < SLOTS :: commands[k] == if k == i && i in completed then null else old(commands[k])
      ensures i in completed && old(commands[i]) != null ==> old(commands[i]).result == Some(value)
    {
      assert SlotMatches(i);
      if i in completed && commands[i] != null {
        CollectedOneMore(s, completed, value, i);
        Collect(i, value);
      } else {
        CollectedSkip(s, completed, value, i);
        if i in completed {
          runningCommands := runningCommands - {i};
        }
      }
    }

    /** Takes the completed commands out of their slots with their results (lines 91-100 and 112-122). */
    method CollectAll(completed: set<nat>, value: bool)
      requires Valid() && completed !! commandIssue
      modifies this`runningCommands, this`table, this`results, scheduler`eventQueue, commands, In(completed)
      ensures Valid() && Abstract() == Collected(old(Abstract()), completed, value, SLOTS)
      ensures forall i | 0 <= i < SLOTS :: commands[i] == if i in completed then null else old(commands[i])
      ensures forall i | 0 <= i < SLOTS && i in completed && old(commands[i]) != null ::
                old(commands[i]).result == Some(value)
    {
      ghost var s := Abstract();
      CollectedNone(s, completed, value);
      forall k | 0 <= k < SLOTS && commands[k] != null ensures commands[k].freeSlot == k {
        assert SlotMatches(k);
      }
      for i := 0 to SLOTS
        invariant Valid() && Abstract() == Collected(s, completed, value, i)
        invariant forall k | 0 <= k < SLOTS :: commands[k] == if k < i && k in completed then null else old(commands[k])
        invariant forall k | 0 <= k < SLOTS && old(commands[k]) != null :: old(commands[k]).freeSlot == k
        invariant forall k | 0 <= k < i && k in completed && old(commands[k]) != null ::
                    old(commands[k]).result == Some(value)
      {
        assert In(completed * {i}) <= old(In(completed));
        CollectNext(s, completed, value, i);
      }
    }

    /** Handles an interrupt (lines 79-131). */
    method MsiHandler()
      requires Valid()
      modifies this, scheduler`eventQueue, commands, commands[..]
      ensures Valid() && Abstract() == Interrupted(old(Abstract()), old(taskFileError), old(registerFis))
      ensures !taskFileError && !registerFis
      ensures old(taskFileError || registerFis) ==>
                forall i | 0 <= i < SLOTS && i in old(runningCommands - commandIssue) && old(commands[i]) != null ::
                  old(commands[i]).result == Some(!old(taskFileError))
    {
      var error, fis := taskFileError, registerFis;
      taskFileError, registerFis := false, false;
      assert forall i | 0 <= i < SLOTS :: old(SlotMatches(i));
      var completed := runningCommands - commandIssue;
      ghost var s := Abstract();
      if error {
        CollectAll(completed, false);
      }
      if fis {
        CollectAll(completed, true);
        CollectedTwice(s, completed, false, true);
      }
    }
  }
}
