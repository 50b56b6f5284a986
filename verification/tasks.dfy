/**
  The scheduler's task table as a value: the pick rule of `ttask_core.h` and
  the state changes of `ttask.c` as functions. `TaskTable` (task_table.dfy)
  is the mutable table proved against these functions.
*/
module Tasks {
  import opened Words

  const MAX_TASKS: nat := 32
  const SLICE_MAX: nat := 16
  const SLICE_IDLE: nat := 32

  datatype TaskState = Free | Ready | Running | Exited | Blocked

  /** `stack` and `space` are the kernel stack and the address space a task owns, 0
      for none. */
  datatype Task = Task(state: TaskState, priority: nat, slice: nat, ticks: nat,
                       switches: nat, blockedCount: nat, wakeCount: nat, stack: nat, space: nat)

  datatype Sched = Sched(tasks: seq<Task>, current: nat, totalSwitches: nat,
                         totalBlocks: nat, totalWakes: nat)

  ghost predicate Shape(s: Sched) {
    |s.tasks| == MAX_TASKS && s.current < MAX_TASKS
  }

  // ------------------------------------------------------------------ pick

  function States(ts: seq<Task>): (r: seq<TaskState>)
    ensures |r| == |ts| && forall i :: 0 <= i < |ts| ==> r[i] == ts[i].state
  {
    seq(|ts|, i requires 0 <= i < |ts| => ts[i].state)
  }

  function Priorities(ts: seq<Task>): (r: seq<nat>)
    ensures |r| == |ts| && forall i :: 0 <= i < |ts| ==> r[i] == ts[i].priority
  {
    seq(|ts|, i requires 0 <= i < |ts| => ts[i].priority)
  }

  predicate Eligible(state: seq<TaskState>, idx: nat, exclude: int) {
    idx < |state| && idx != exclude && state[idx].Ready?
  }

  /** Position of slot `idx` in the scan that starts just after `current`. */
  function Distance(current: nat, idx: nat, count: nat): (d: nat)
    requires current < count && idx < count
    ensures d < count
  {
    if idx > current then idx - current - 1 else idx + count - current - 1
  }

  /** Slot reached after `d` steps of that scan. */
  function SlotAt(current: nat, d: nat, count: nat): (idx: nat)
    requires current < count && d < count
    ensures idx < count && Distance(current, idx, count) == d
  {
    if current + 1 + d < count then (current + 1 + d) % count
    else
      DivModUnique(current + 1 + d, count, 1, current + 1 + d - count);
      (current + 1 + d) % count
  }

  lemma SlotAtDistance(current: nat, idx: nat, count: nat)
    requires current < count && idx < count
    ensures SlotAt(current, Distance(current, idx, count), count) == idx
  {
  }

  /** `r` is the first slot, in scan order, of the highest eligible priority. */
  ghost predicate IsPick(current: nat, state: seq<TaskState>, prio: seq<nat>, exclude: int, r: int)
    requires current < |state| == |prio|
  {
    if r == -1 then
      forall j :: 0 <= j < |state| ==> !Eligible(state, j, exclude)
    else
      && 0 <= r < |state|
      && Eligible(state, r, exclude)
      && forall j :: 0 <= j < |state| && Eligible(state, j, exclude) ==>
           prio[j] < prio[r]
           || (prio[j] == prio[r] && Distance(current, r, |state|) <= Distance(current, j, |state|))
  }

  /** Best slot among the first `d` positions of the scan. */
  function Scan(current: nat, state: seq<TaskState>, prio: seq<nat>, exclude: int, d: nat): (r: int)
    requires current < |state| == |prio| && d <= |state|
    ensures r == -1 || (0 <= r < |state| && Eligible(state, r, exclude))
  {
    if d == 0 then -1
    else
      var best := Scan(current, state, prio, exclude, d - 1);
      var idx := SlotAt(current, d - 1, |state|);
      if Eligible(state, idx, exclude) && (best == -1 || prio[idx] > prio[best]) then idx else best
  }

  ghost predicate BestOfPrefix(current: nat, state: seq<TaskState>, prio: seq<nat>, exclude: int, d: nat, r: int)
    requires current < |state| == |prio| && d <= |state|
  {
    if r == -1 then
      forall j :: 0 <= j < |state| && Distance(current, j, |state|) < d ==> !Eligible(state, j, exclude)
    else
      && 0 <= r < |state| && Eligible(state, r, exclude) && Distance(current, r, |state|) < d
      && forall j :: 0 <= j < |state| && Distance(current, j, |state|) < d && Eligible(state, j, exclude) ==>
           prio[j] < prio[r]
           || (prio[j] == prio[r] && Distance(current, r, |state|) <= Distance(current, j, |state|))
  }

  lemma {:induction false} ScanIsBest(current: nat, state: seq<TaskState>, prio: seq<nat>, exclude: int, d: nat)
    requires current < |state| == |prio| && d <= |state|
    ensures BestOfPrefix(current, state, prio, exclude, d, Scan(current, state, prio, exclude, d))
  {
    if d > 0 {
      ScanIsBest(current, state, prio, exclude, d - 1);
      var n := |state|;
      var idx := SlotAt(current, d - 1, n);
      forall j | 0 <= j < n && Distance(current, j, n) < d && j != idx
        ensures Distance(current, j, n) < d - 1
      {
        SlotAtDistance(current, j, n);
      }
    }
  }

  /** The pick of a full scan meets the declarative rule ... */
  lemma PickIsBest(current: nat, state: seq<TaskState>, prio: seq<nat>, exclude: int)
    requires current < |state| == |prio|
    ensures IsPick(current, state, prio, exclude, Scan(current, state, prio, exclude, |state|))
  {
    ScanIsBest(current, state, prio, exclude, |state|);
  }

  /** ... and the rule leaves no choice. */
  lemma PickIsUnique(current: nat, state: seq<TaskState>, prio: seq<nat>, exclude: int, r: int, q: int)
    requires current < |state| == |prio|
    requires IsPick(current, state, prio, exclude, r) && IsPick(current, state, prio, exclude, q)
    ensures r == q
  {
    if r != -1 && q != -1 {
      SlotAtDistance(current, r, |state|);
      SlotAtDistance(current, q, |state|);
    }
  }

  /** `ttask_pick_index_ex`: the scanning loop computes that slot. */
  method PickIndexEx(current: nat, state: seq<TaskState>, prio: seq<nat>, exclude: int) returns (best: int)
    requires current < |state| == |prio|
    ensures IsPick(current, state, prio, exclude, best)
    ensures best == Scan(current, state, prio, exclude, |state|)
  {
    best := -1;
    var bestPrio: int := -1;
    var i := 0;
    while i < |state|
      invariant 0 <= i <= |state|
      invariant best == Scan(current, state, prio, exclude, i)
      invariant bestPrio == if best == -1 then -1 else prio[best]
    {
      var idx := (current + 1 + i) % |state|;
      assert idx == SlotAt(current, i, |state|);
      if !(idx == exclude || !state[idx].Ready?) {
        if prio[idx] > bestPrio {
          best := idx;
          bestPrio := prio[idx];
        }
      }
      i := i + 1;
    }
    PickIsBest(current, state, prio, exclude);
  }

  /** `ttask_slice_ticks`: 2^(prio mod 8) ticks, at most 16; 32 for priority 0. */
  function SliceTicks(prio: nat): (r: nat)
    ensures 1 <= r <= SLICE_IDLE
  {
    if prio == 0 then SLICE_IDLE
    else
      var s := [1, 2, 4, 8, 16, 32, 64, 128][prio % 8];
      if s > SLICE_MAX then SLICE_MAX else s
  }

  /** The slice is a power of two of the priority, cut at 16 ticks; each step from
      priority 1 up to 4 doubles it. */
  lemma SliceIsPower(prio: nat)
    ensures SliceTicks(prio) == if prio == 0 then 32 else Min(Pow2(prio % 8), 16)
    ensures 2 <= prio <= 4 ==> SliceTicks(prio) == 2 * SliceTicks(prio - 1)
  {
    assert Pow2(2) == 4 && Pow2(4) == 16 && Pow2(6) == 64;
  }

  // ------------------------------------------------------- table operations

  function ExcludeOf(s: Sched): int
    requires Shape(s)
  {
    if s.tasks[s.current].slice == 0 then s.current else -1
  }

  /** `ttask_pick_next` */
  function PickNext(s: Sched): (r: nat)
    requires Shape(s)
    ensures r < MAX_TASKS
  {
    var idx := Scan(s.current, States(s.tasks), Priorities(s.tasks), ExcludeOf(s), |s.tasks|);
    if idx >= 0 then idx else s.current
  }

  /** `ttask_pick_switch` */
  function PickSwitch(s: Sched): (r: Sched)
    requires Shape(s)
    ensures Shape(r)
  {
    var next := PickNext(s);
    if next == s.current then s
    else
      var t := s.tasks[next];
      s.(tasks := s.tasks[next := t.(slice := SliceTicks(t.priority), switches := Inc32(t.switches))],
         totalSwitches := Inc32(s.totalSwitches),
         current := next)
  }

  /** The accounting part of `ttask_tick`. */
  function Charge(s: Sched): (r: Sched)
    requires Shape(s)
    ensures Shape(r)
  {
    var t := s.tasks[s.current];
    s.(tasks := s.tasks[s.current := t.(ticks := Inc32(t.ticks), slice := if t.slice > 0 then t.slice - 1 else 0)])
  }

  function Tick(s: Sched): (r: Sched)
    requires Shape(s)
    ensures Shape(r)
  {
    PickSwitch(Charge(s))
  }

  function SetState(s: Sched, id: nat, state: TaskState): (r: Sched)
    requires Shape(s) && id < MAX_TASKS
    ensures Shape(r)
  {
    s.(tasks := s.tasks[id := s.tasks[id].(state := state)])
  }

  /** The state flip and counters at the start of `ttask_block`. */
  function Parked(s: Sched): (r: Sched)
    requires Shape(s)
    ensures Shape(r)
  {
    var t := s.tasks[s.current];
    s.(tasks := s.tasks[s.current := t.(state := Blocked, blockedCount := Inc32(t.blockedCount))],
       totalBlocks := Inc32(s.totalBlocks))
  }

  /** `ttask_block` takes the "nobody else runnable" way out. */
  predicate BlockFallsBack(s: Sched)
    requires Shape(s)
  {
    PickNext(Parked(s)) == s.current
  }

  /** `ttask_block`, up to the context switch. */
  function Block(s: Sched): (r: Sched)
    requires Shape(s)
    ensures Shape(r)
  {
    if BlockFallsBack(s) then SetState(Parked(s), s.current, Ready)
    else Parked(s).(current := PickNext(Parked(s)))
  }

  /** `ttask_wake` */
  function Wake(s: Sched, id: nat): (r: Sched)
    requires Shape(s)
    ensures Shape(r)
  {
    if id >= MAX_TASKS || !s.tasks[id].state.Blocked? then s
    else
      var t := s.tasks[id];
      s.(tasks := s.tasks[id := t.(state := Ready, wakeCount := Inc32(t.wakeCount))],
         totalWakes := Inc32(s.totalWakes))
  }

  /** `ttask_exit` of the running task. */
  function Exit(s: Sched): (r: Sched)
    requires Shape(s)
    ensures Shape(r)
  {
    PickSwitch(SetState(s, s.current, Exited))
  }

  predicate Reusable(t: Task) { t.state.Free? || t.state.Exited? }

  /** First reusable slot at or after `i`; MAX_TASKS when there is none. */
  function FirstReusable(ts: seq<Task>, i: nat): (r: nat)
    requires i <= |ts|
    ensures i <= r <= |ts|
    ensures r < |ts| ==> Reusable(ts[r])
    ensures forall j :: i <= j < r ==> !Reusable(ts[j])
    decreases |ts| - i
  {
    if i == |ts| || Reusable(ts[i]) then i else FirstReusable(ts, i + 1)
  }

  /** The new record of a slot; without a stack it stays free and owns nothing. */
  function FreshTask(priority: nat, stack: nat, space: nat): Task {
    Task(if stack == 0 then Free else Ready, priority, SliceTicks(priority), 0, 0, 0, 0,
         stack, if stack == 0 then 0 else space)
  }

  /** `ttask_create` (priority 1, no space) and `ttask_create_user` (priority 2);
      `stack` is what `tmalloc` returned for the kernel stack, 0 for NULL. */
  function Create(s: Sched, priority: nat, stack: nat, space: nat): (r: Sched)
    requires Shape(s)
    ensures Shape(r)
  {
    var i := FirstReusable(s.tasks, 0);
    if i == MAX_TASKS then s else s.(tasks := s.tasks[i := FreshTask(priority, stack, space)])
  }

  /** What creation gives back first: the stack and the space of the task that exited
      in the slot it takes. */
  function Reclaimed(s: Sched): (r: (nat, nat))
    requires Shape(s)
  {
    var i := FirstReusable(s.tasks, 0);
    if i < MAX_TASKS && s.tasks[i].state.Exited? then (s.tasks[i].stack, s.tasks[i].space) else (0, 0)
  }

  /** `ttask_set_priority` */
  function SetPriority(s: Sched, id: nat, prio: nat): (r: Sched)
    requires Shape(s)
    ensures Shape(r)
  {
    if id >= MAX_TASKS || Reusable(s.tasks[id]) then s
    else s.(tasks := s.tasks[id := s.tasks[id].(priority := prio, slice := SliceTicks(prio))])
  }

  const IDLE_TASK := Task(Ready, 0, 0, 0, 0, 0, 0, 0, 0)
  const FREE_SLOT := Task(Free, 0, 0, 0, 0, 0, 0, 0, 0)

  /** The table right after `ttask_init`. */
  function Boot(): (s: Sched)
    ensures Shape(s)
  {
    Sched(seq(MAX_TASKS, i => if i == 0 then IDLE_TASK else FREE_SLOT), 0, 0, 0, 0)
  }

  // ------------------------------------------------------------ pick facts

  /** Everything a caller needs about the slot `ttask_pick_next` returns. */
  lemma PickNextRule(s: Sched)
    requires Shape(s)
    ensures var e := ExcludeOf(s);
            var st := States(s.tasks);
            IsPick(s.current, st, Priorities(s.tasks), e, PickNext(s))
            || (PickNext(s) == s.current && forall j :: 0 <= j < MAX_TASKS ==> !Eligible(st, j, e))
  {
    PickIsBest(s.current, States(s.tasks), Priorities(s.tasks), ExcludeOf(s));
  }

  /** If some slot other than the current one is READY, the pick is READY. */
  lemma PickNextReady(s: Sched, other: nat)
    requires Shape(s) && other < MAX_TASKS && other != s.current && s.tasks[other].state.Ready?
    ensures s.tasks[PickNext(s)].state.Ready?
  {
    PickNextRule(s);
    assert Eligible(States(s.tasks), other, ExcludeOf(s));
  }

  /** `ttask_block` falls back exactly when no other task is READY. */
  lemma BlockFallsBackIff(s: Sched)
    requires Shape(s)
    ensures BlockFallsBack(s) <==> forall j :: 0 <= j < MAX_TASKS && j != s.current ==> !s.tasks[j].state.Ready?
  {
    var p := Parked(s);
    PickNextRule(p);
    if j :| 0 <= j < MAX_TASKS && j != s.current && s.tasks[j].state.Ready? {
      assert Eligible(States(p.tasks), j, ExcludeOf(p));
    }
  }

  /** The task to run when the current one cannot: READY, of the highest priority
      among the others, and the first of those in scan order. */
  ghost predicate IsBestOther(s: Sched, r: nat)
    requires Shape(s)
  {
    && r < MAX_TASKS && r != s.current && s.tasks[r].state.Ready?
    && forall j :: 0 <= j < MAX_TASKS && j != s.current && s.tasks[j].state.Ready? ==>
         || s.tasks[j].priority < s.tasks[r].priority
         || (s.tasks[j].priority == s.tasks[r].priority
             && Distance(s.current, r, MAX_TASKS) <= Distance(s.current, j, MAX_TASKS))
  }

  /** `t` has the records of `s` but for slots `a` and `b`. */
  ghost predicate SameBut(s: Sched, t: Sched, a: nat, b: nat) {
    |t.tasks| == |s.tasks| && forall i :: 0 <= i < |s.tasks| && i != a && i != b ==> t.tasks[i] == s.tasks[i]
  }

  /** With the current task not READY, the pick is the best other task. */
  lemma PickIsBestOther(s: Sched)
    requires Shape(s) && !s.tasks[s.current].state.Ready?
    ensures PickNext(s) != s.current ==> IsBestOther(s, PickNext(s))
    ensures PickNext(s) == s.current ==>
              forall j :: 0 <= j < MAX_TASKS && j != s.current ==> !s.tasks[j].state.Ready?
  {
    PickNextRule(s);
    var st, pr, e := States(s.tasks), Priorities(s.tasks), ExcludeOf(s);
    forall j | 0 <= j < MAX_TASKS && s.tasks[j].state.Ready?
      ensures Eligible(st, j, e) && pr[j] == s.tasks[j].priority
    {
    }
  }

  /** After `ttask_block` the best other task runs and the caller is BLOCKED; without
      another READY task the caller goes on. No other record changes. */
  lemma BlockRunsBest(s: Sched)
    requires Shape(s)
    ensures var t := Block(s);
            && SameBut(s, t, s.current, s.current)
            && (t.current != s.current ==> IsBestOther(s, t.current) && t.tasks[s.current].state.Blocked?)
            && (t.current == s.current ==>
                  && t.tasks[s.current].state.Ready?
                  && forall j :: 0 <= j < MAX_TASKS && j != s.current ==> !s.tasks[j].state.Ready?)
  {
    PickIsBestOther(Parked(s));
    hide PickNext;
  }

  /** After `ttask_exit` the best other task runs, with a full slice; no third record
      changes. */
  lemma ExitRunsBest(s: Sched)
    requires Shape(s)
    ensures var t := Exit(s);
            && SameBut(s, t, s.current, t.current) && t.tasks[s.current].state.Exited?
            && (t.current != s.current ==> IsBestOther(s, t.current) && FullSlice(t, t.current))
            && (t.current == s.current ==>
                  forall j :: 0 <= j < MAX_TASKS && j != s.current ==> !s.tasks[j].state.Ready?)
  {
    PickIsBestOther(SetState(s, s.current, Exited));
    hide PickNext, SliceTicks;
  }

  /** The rule leaves no choice. */
  lemma BestOtherIsUnique(s: Sched, a: nat, b: nat)
    requires Shape(s) && IsBestOther(s, a) && IsBestOther(s, b)
    ensures a == b
  {
    SlotAtDistance(s.current, a, MAX_TASKS);
    SlotAtDistance(s.current, b, MAX_TASKS);
  }

  ghost predicate FullSlice(s: Sched, id: nat)
    requires Shape(s) && id < MAX_TASKS
  {
    s.tasks[id].slice == SliceTicks(s.tasks[id].priority)
  }

  /** Creation takes the first slot that is FREE or EXITED, if there is one, for a task
      that starts from nothing with a full slice and owns what it was given; without a
      stack the slot is FREE. No other record changes, and the CPU stays. */
  lemma CreateTakes(s: Sched, priority: nat, stack: nat, space: nat, i: nat)
    requires Shape(s) && i <= MAX_TASKS && forall j :: 0 <= j < i ==> s.tasks[j].state in {Ready, Running, Blocked}
    requires i < MAX_TASKS ==> s.tasks[i].state in {Free, Exited}
    ensures var t := Create(s, priority, stack, space);
            && SameBut(s, t, i, i) && t.current == s.current
            && (i < MAX_TASKS ==>
                  && t.tasks[i].state == (if stack != 0 then Ready else Free)
                  && t.tasks[i].priority == priority && FullSlice(t, i)
                  && t.tasks[i].stack == stack && (stack != 0 ==> t.tasks[i].space == space)
                  && t.tasks[i].ticks == 0 && t.tasks[i].switches == 0
                  && t.tasks[i].blockedCount == 0 && t.tasks[i].wakeCount == 0)
  {
    hide SliceTicks, FirstReusable;
    FirstIs(s, i);
  }

  lemma FirstIs(s: Sched, i: nat)
    requires Shape(s) && i <= MAX_TASKS && forall j :: 0 <= j < i ==> s.tasks[j].state in {Ready, Running, Blocked}
    requires i < MAX_TASKS ==> s.tasks[i].state in {Free, Exited}
    ensures FirstReusable(s.tasks, 0) == i
  {
  }

  /** A tick costs the running task one tick of its slice, if it has one left, and no
      other task anything but a new slice when it is switched in. */
  lemma TickSpends(s: Sched)
    requires Shape(s)
    ensures var t, was := Tick(s), s.tasks[s.current].slice;
            && SameBut(s, t, s.current, t.current)
            && (t.current == s.current ==> t.tasks[s.current].slice == if was == 0 then 0 else was - 1)
            && (t.current != s.current ==> FullSlice(t, t.current))
  {
    hide PickNext, SliceTicks;
  }

  /** A task at the end of its slice gives way to the best other READY task, whatever
      their priorities. */
  lemma ExpiredYields(s: Sched, other: nat)
    requires Shape(s) && s.tasks[s.current].slice <= 1
    requires other < MAX_TASKS && other != s.current && s.tasks[other].state.Ready?
    ensures IsBestOther(s, Tick(s).current)
  {
    var c := Charge(s);
    PickNextRule(c);
    var st, pr, e := States(c.tasks), Priorities(c.tasks), ExcludeOf(c);
    assert forall j :: 0 <= j < MAX_TASKS ==> st[j] == s.tasks[j].state && pr[j] == s.tasks[j].priority;
    assert Eligible(st, other, e);
    forall j | 0 <= j < MAX_TASKS && j != s.current && s.tasks[j].state.Ready? ensures Eligible(st, j, e) {
    }
    hide PickNext, SliceTicks;
  }

  /** `ttask_set_priority` gives a live task the priority and its full slice, and
      changes nothing else; a dead slot or an id out of range is left alone. */
  lemma SetPrioritySets(s: Sched, id: nat, prio: nat)
    requires Shape(s)
    ensures var t := SetPriority(s, id, prio);
            && SameBut(s, t, id, id) && t.current == s.current && States(t.tasks) == States(s.tasks)
            && (id < MAX_TASKS && !Reusable(s.tasks[id]) ==> t.tasks[id].priority == prio && FullSlice(t, id))
            && (id >= MAX_TASKS || Reusable(s.tasks[id]) ==> t == s)
  {
    hide SliceTicks;
  }

  /** Switching changes neither the state nor the priority of any task. */
  lemma PickSwitchKeeps(s: Sched)
    requires Shape(s)
    ensures States(PickSwitch(s).tasks) == States(s.tasks)
    ensures Priorities(PickSwitch(s).tasks) == Priorities(s.tasks)
    ensures PickSwitch(s).totalBlocks == s.totalBlocks && PickSwitch(s).totalWakes == s.totalWakes
    ensures PickSwitch(s).current == PickNext(s)
  {
  }
}
