/**
  The performance counters of `ttask.c` over whole runs: each counter of a task is
  the number of times the thing it counts happened to that task since its slot was
  last taken, and each global counter the number of times at all.
*/
module TaskCounters {
  import opened Words
  import opened Tasks
  import opened Ipc

  datatype Counter = Ticks | Switches | Blocks | Wakes

  function CounterOf(t: Task, k: Counter): nat {
    match k
    case Ticks => t.ticks
    case Switches => t.switches
    case Blocks => t.blockedCount
    case Wakes => t.wakeCount
  }

  /** What is counted for slot `id` in one step, as an observer sees it. */
  ghost predicate Happens(s: State, c: Command, id: nat, k: Counter)
    requires Wellformed(s) && id < MAX_TASKS
  {
    var t := Apply(s, c).0;
    match k
    case Ticks => c.TimerTick? && s.sched.current == id
    case Switches => (c.TimerTick? || c.Yield? || c.ExitTask?) && s.sched.current != id == t.sched.current
    case Blocks => Apply(s, c).1.Waiting? && s.sched.current == id
    case Wakes => s.sched.tasks[id].state.Blocked? && t.sched.tasks[id].state.Ready?
  }

  /** The step takes slot `id` for a new task. */
  ghost predicate Taken(s: State, c: Command, id: nat)
    requires Wellformed(s)
  {
    c.CreateTask? && FirstReusable(s.sched.tasks, 0) == id
  }

  function Bump(x: nat, once: bool): nat { if once then Inc32(x) else x }

  // -------------------------------------------------------------- one command

  /** How the counters of all slots change from `s` to `t`. */
  ghost predicate Counts(s: Sched, t: Sched, tick: int, switched: int, blocked: int, woken: int) {
    && |t.tasks| == |s.tasks|
    && forall i :: 0 <= i < |s.tasks| ==>
         && t.tasks[i].ticks == Bump(s.tasks[i].ticks, i == tick)
         && t.tasks[i].switches == Bump(s.tasks[i].switches, i == switched)
         && t.tasks[i].blockedCount == Bump(s.tasks[i].blockedCount, i == blocked)
         && t.tasks[i].wakeCount == Bump(s.tasks[i].wakeCount, i == woken)
  }

  function SwitchTarget(s: Sched): int
    requires Shape(s)
  {
    if PickNext(s) == s.current then -1 else PickNext(s)
  }

  lemma SwitchCounts(s: Sched)
    requires Shape(s)
    ensures Counts(s, PickSwitch(s), -1, SwitchTarget(s), -1, -1)
    ensures PickSwitch(s).current == if SwitchTarget(s) == -1 then s.current else SwitchTarget(s)
    ensures SameStates(s, PickSwitch(s))
  {
    hide PickNext, Inc32, SliceTicks;
  }

  ghost predicate SameStates(s: Sched, t: Sched) {
    |t.tasks| == |s.tasks| && forall i :: 0 <= i < |s.tasks| ==> t.tasks[i].state == s.tasks[i].state
  }

  lemma TickCounts(s: Sched)
    requires Shape(s)
    ensures var t := Tick(s);
            Counts(s, t, s.current, if t.current == s.current then -1 else t.current, -1, -1) && SameStates(s, t)
  {
    SwitchCounts(Charge(s));
    hide PickSwitch, PickNext, Inc32;
  }

  lemma ExitCounts(s: Sched)
    requires Shape(s)
    ensures var t := Exit(s);
            && Counts(s, t, -1, if t.current == s.current then -1 else t.current, -1, -1)
            && SameStates(SetState(s, s.current, Exited), t)
  {
    SwitchCounts(SetState(s, s.current, Exited));
    hide PickSwitch, PickNext, Inc32;
  }

  lemma BlockCounts(s: Sched)
    requires Shape(s)
    ensures Counts(s, Block(s), -1, -1, s.current, -1)
    ensures forall i :: 0 <= i < MAX_TASKS && i != s.current ==> Block(s).tasks[i].state == s.tasks[i].state
    ensures Block(s).tasks[Block(s).current].state.Ready?
  {
    BlockRunsBest(s);
    hide PickNext, Inc32;
  }

  /** The slot that `ttask_wake` of the head of a queue makes READY. */
  function WakeTarget(q: seq<nat>, s: Sched): int
    requires Shape(s)
  {
    if q != [] && q[0] < MAX_TASKS && s.tasks[q[0]].state.Blocked? then q[0] else -1
  }

  lemma WakeCounts(q: seq<nat>, s: Sched)
    requires Shape(s)
    ensures var t := WakeHead(q, s).1;
            && Counts(s, t, -1, -1, -1, WakeTarget(q, s)) && t.current == s.current
            && forall i :: 0 <= i < MAX_TASKS ==>
                 (t.tasks[i].state != s.tasks[i].state <==> i == WakeTarget(q, s))
                 && (i == WakeTarget(q, s) ==> s.tasks[i].state.Blocked? && t.tasks[i].state.Ready?)
  {
    hide Inc32;
  }

  /** The running task is never BLOCKED. */
  ghost predicate Runs(s: Sched) { Shape(s) && !s.tasks[s.current].state.Blocked? }

  lemma SwitchRuns(s: Sched)
    requires Runs(s)
    ensures Runs(PickSwitch(s))
  {
    PickNextRule(s);
    PickSwitchKeeps(s);
    var t := PickSwitch(s);
    assert States(t.tasks)[t.current] == t.tasks[t.current].state;
    hide PickNext, SliceTicks;
  }

  /** The change of one counter in one step. */
  ghost predicate StepCounted(s: State, c: Command, id: nat, k: Counter)
    requires Wellformed(s) && id < MAX_TASKS
  {
    CounterOf(Apply(s, c).0.sched.tasks[id], k)
      == if Taken(s, c, id) then 0 else Bump(CounterOf(s.sched.tasks[id], k), Happens(s, c, id, k))
  }

  lemma QuietCounted(s: State, c: Command, id: nat, k: Counter)
    requires Wellformed(s) && id < MAX_TASKS && Runs(s.sched)
    requires c.TimerTick? || c.Yield? || c.ExitTask? || c.CreateTask? || c.Reprioritise?
    ensures StepCounted(s, c, id, k) && Runs(Apply(s, c).0.sched)
  {
    hide Tick, PickSwitch, Exit, FirstReusable, Inc32, SliceTicks;
    match c
    case TimerTick => TickCounts(s.sched); TickRuns(s.sched);
    case Yield => SwitchCounts(s.sched); SwitchRuns(s.sched);
    case ExitTask => ExitCounts(s.sched); ExitRuns(s.sched);
    case _ =>
  }

  lemma TickRuns(s: Sched)
    requires Runs(s)
    ensures Runs(Tick(s))
  {
    SwitchRuns(Charge(s));
    hide PickSwitch;
  }

  lemma ExitRuns(s: Sched)
    requires Runs(s)
    ensures Runs(Exit(s))
  {
    SwitchRuns(SetState(s, s.current, Exited));
    hide PickSwitch;
  }

  /** What a call does to the table: it parks the caller, or wakes the head of a
      queue, if there is one. */
  lemma CallEffect(s: State, c: Command) returns (q: seq<nat>)
    requires Wellformed(s) && (c.Send? || c.Recv? || c.Lock? || c.Unlock?)
    ensures var (t, o) := Apply(s, c);
            if o.Waiting? then t.sched == Block(s.sched) else t.sched == WakeHead(q, s.sched).1
  {
    hide Block, Inc32, Dec32, Wake;
    var t := Apply(s, c).0;
    q := [];
    match c
    case Send(m, _, _) => if m < |s.mailboxes| && |s.mailboxes[m].ring| < QUEUE_SLOTS { q := s.mailboxes[m].waitRecv; }
    case Recv(m) => if m < |s.mailboxes| && |s.mailboxes[m].ring| > 0 { q := s.mailboxes[m].waitSend; }
    case Unlock(n) =>
      if n < |s.mutexes| && s.mutexes[n].owner == s.sched.current && Dec32(s.mutexes[n].depth) == 0 {
        q := s.mutexes[n].wait;
      }
    case _ =>
  }

  lemma CallCounted(s: State, c: Command, id: nat, k: Counter)
    requires Wellformed(s) && id < MAX_TASKS && Runs(s.sched) && (c.Send? || c.Recv? || c.Lock? || c.Unlock?)
    ensures StepCounted(s, c, id, k) && Runs(Apply(s, c).0.sched)
  {
    hide Block, WakeHead, Inc32, Apply, WakeTarget;
    BlockCounts(s.sched);
    var q := CallEffect(s, c);
    WakeCounts(q, s.sched);
  }

  // -------------------------------------------------------------- whole runs

  /** How often it happened to slot `id` since the slot was last taken. */
  ghost function Tally(s: State, cs: seq<Command>, id: nat, k: Counter): nat
    requires Wellformed(s) && id < MAX_TASKS
  {
    if cs == [] then 0
    else
      var n := |cs| - 1;
      var t := Exec(s, cs[..n]);
      if Taken(t, cs[n], id) then 0
      else Tally(s, cs[..n], id, k) + if Happens(t, cs[n], id, k) then 1 else 0
  }

  /** In every run each counter of every task is exact, on 32 bits. */
  lemma {:induction false} CountersExact(nm: nat, nk: nat, cs: seq<Command>, id: nat, k: Counter)
    requires id < MAX_TASKS
    ensures var s := Init(nm, nk);
            && Runs(Exec(s, cs).sched)
            && CounterOf(Exec(s, cs).sched.tasks[id], k) == Tally(s, cs, id, k) % TWO32
  {
    hide Apply, Init, Happens, Taken, Runs, CounterOf;
    var s := Init(nm, nk);
    if cs == [] {
      AtBoot(nm, nk, id, k);
    } else {
      var n := |cs| - 1;
      var t := Exec(s, cs[..n]);
      CountersExact(nm, nk, cs[..n], id, k);
      if cs[n].Send? || cs[n].Recv? || cs[n].Lock? || cs[n].Unlock? {
        CallCounted(t, cs[n], id, k);
      } else {
        QuietCounted(t, cs[n], id, k);
      }
      OneMore(Tally(s, cs[..n], id, k));
    }
  }

  lemma AtBoot(nm: nat, nk: nat, id: nat, k: Counter)
    requires id < MAX_TASKS
    ensures var s := Init(nm, nk).sched; Runs(s) && CounterOf(s.tasks[id], k) == 0
    ensures var s := Init(nm, nk).sched; s.totalSwitches == 0 && s.totalBlocks == 0 && s.totalWakes == 0
  {
  }

  lemma OneMore(x: nat)
    ensures Inc32(x % TWO32) == (x + 1) % TWO32
  {
  }

  // ---------------------------------------------------------- global counters

  /** The global counter of this kind; timer ticks are not counted here. */
  function TotalOf(s: Sched, k: Counter): nat {
    match k
    case Ticks => 0
    case Switches => s.totalSwitches
    case Blocks => s.totalBlocks
    case Wakes => s.totalWakes
  }

  /** It happened to some slot in this step. */
  ghost predicate HappensTo(s: State, c: Command, k: Counter)
    requires Wellformed(s)
  {
    exists id :: 0 <= id < MAX_TASKS && Happens(s, c, id, k)
  }

  lemma TotalStep(s: State, c: Command, k: Counter)
    requires Wellformed(s) && Runs(s.sched) && !k.Ticks?
    ensures TotalOf(Apply(s, c).0.sched, k) == Bump(TotalOf(s.sched, k), HappensTo(s, c, k))
  {
    var u := Apply(s, c).0.sched;
    if c.TimerTick? || c.Yield? || c.ExitTask? {
      SwitchTotal(s, c, k);
    } else if c.CreateTask? || c.Reprioritise? {
      NoneHappen(s, c, k);
    } else {
      CallTotal(s, c, k);
    }
  }

  lemma SwitchTotal(s: State, c: Command, k: Counter)
    requires Wellformed(s) && Runs(s.sched) && !k.Ticks? && (c.TimerTick? || c.Yield? || c.ExitTask?)
    ensures TotalOf(Apply(s, c).0.sched, k) == Bump(TotalOf(s.sched, k), HappensTo(s, c, k))
  {
    hide PickNext, Inc32, SliceTicks;
    SwitchCounts(s.sched);
    SwitchCounts(Charge(s.sched));
    SwitchCounts(SetState(s.sched, s.sched.current, Exited));
    var t := Apply(s, c).0.sched;
    if t.current != s.sched.current {
      assert Happens(s, c, t.current, Switches);
    }
  }

  lemma NoneHappen(s: State, c: Command, k: Counter)
    requires Wellformed(s) && !k.Ticks? && (c.CreateTask? || c.Reprioritise?)
    ensures TotalOf(Apply(s, c).0.sched, k) == TotalOf(s.sched, k) && !HappensTo(s, c, k)
  {
    hide SliceTicks;
  }

  lemma WakeTotal(q: seq<nat>, s: Sched)
    requires Shape(s)
    ensures var t := WakeHead(q, s).1;
            && t.totalWakes == Bump(s.totalWakes, WakeTarget(q, s) != -1)
            && t.totalSwitches == s.totalSwitches && t.totalBlocks == s.totalBlocks
  {
    hide Inc32;
  }

  lemma BlockTotal(s: Sched)
    requires Shape(s)
    ensures var t := Block(s);
            t.totalBlocks == Inc32(s.totalBlocks) && t.totalSwitches == s.totalSwitches && t.totalWakes == s.totalWakes
  {
    hide PickNext, Inc32;
  }

  lemma CallTotal(s: State, c: Command, k: Counter)
    requires Wellformed(s) && Runs(s.sched) && !k.Ticks? && (c.Send? || c.Recv? || c.Lock? || c.Unlock?)
    ensures TotalOf(Apply(s, c).0.sched, k) == Bump(TotalOf(s.sched, k), HappensTo(s, c, k))
  {
    hide Block, WakeHead, Inc32, Apply, WakeTarget;
    BlockCounts(s.sched);
    BlockTotal(s.sched);
    var q := CallEffect(s, c);
    WakeCounts(q, s.sched);
    WakeTotal(q, s.sched);
    TargetInRange(q, s.sched);
    if Apply(s, c).1.Waiting? {
      assert Happens(s, c, s.sched.current, Blocks);
    } else if WakeTarget(q, s.sched) != -1 {
      assert Happens(s, c, WakeTarget(q, s.sched), Wakes);
    }
  }

  lemma TargetInRange(q: seq<nat>, s: Sched)
    requires Shape(s)
    ensures -1 <= WakeTarget(q, s) < MAX_TASKS
  {
  }

  ghost function TotalTally(s: State, cs: seq<Command>, k: Counter): nat
    requires Wellformed(s)
  {
    if cs == [] then 0
    else
      var n := |cs| - 1;
      TotalTally(s, cs[..n], k) + if HappensTo(Exec(s, cs[..n]), cs[n], k) then 1 else 0
  }

  /** In every run the global counters are exact, on 32 bits. */
  lemma {:induction false} TotalsExact(nm: nat, nk: nat, cs: seq<Command>, k: Counter)
    requires !k.Ticks?
    ensures var s := Init(nm, nk); TotalOf(Exec(s, cs).sched, k) == TotalTally(s, cs, k) % TWO32
  {
    hide Apply, Init, HappensTo, Runs, TotalOf;
    var s := Init(nm, nk);
    if cs == [] {
      AtBoot(nm, nk, 0, k);
      NoTotals(nm, nk, k);
    } else {
      var n := |cs| - 1;
      TotalsExact(nm, nk, cs[..n], k);
      CountersExact(nm, nk, cs[..n], 0, k);
      TotalStep(Exec(s, cs[..n]), cs[n], k);
      OneMore(TotalTally(s, cs[..n], k));
    }
  }

  lemma NoTotals(nm: nat, nk: nat, k: Counter)
    ensures TotalOf(Init(nm, nk).sched, k) == 0
  {
  }
}
