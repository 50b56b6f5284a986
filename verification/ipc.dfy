/**
  Blocking IPC (`tipc.c`, `tipc_core.h`) as a step system. One command is one
  `cli`..`sti` section: it runs from the lock to the return of the call or to
  the switch inside `ttask_block`. A woken task does not continue where it
  left off, it retries its call, so the state also remembers, per task, which
  call it is inside of.
*/
module Ipc {
  import opened Words
  import opened Tasks

  const QUEUE_SLOTS: nat := 8
  const WAIT_MAX: nat := 16
  const NONE: nat := 0xFFFF_FFFF

  datatype Msg = Msg(sender: nat, len: nat, data: seq<nat>)

  /** Ring contents oldest first, and the two FIFOs of blocked task ids. */
  datatype Mailbox = Mailbox(ring: seq<Msg>, waitSend: seq<nat>, waitRecv: seq<nat>)

  /** `owner` is NONE when the mutex is free. */
  datatype Mutex = Mutex(owner: nat, depth: nat, wait: seq<nat>)

  datatype Outcome = Done | Failed | Waiting | Received(msg: Msg)

  // ------------------------------------------------- one section of each call

  /** Pop the oldest waiter, if any, and wake it. */
  function WakeHead(q: seq<nat>, s: Sched): (r: (seq<nat>, Sched))
    requires Shape(s)
    ensures Shape(r.1)
  {
    if q == [] then (q, s) else (q[1..], Wake(s, q[0]))
  }

  /** One pass of the loop in `tipc_send`. */
  function SendStep(mb: Mailbox, s: Sched, msg: Msg): (r: (Mailbox, Sched, Outcome))
    requires Shape(s)
    ensures Shape(r.1)
  {
    if |mb.ring| < QUEUE_SLOTS then
      var (q, s') := WakeHead(mb.waitRecv, s);
      (mb.(ring := mb.ring + [msg.(sender := s.current)], waitRecv := q), s', Done)
    else if |mb.waitSend| >= WAIT_MAX then (mb, s, Failed)
    else (mb.(waitSend := mb.waitSend + [s.current]), Block(s), Waiting)
  }

  /** One pass of the loop in `tipc_recv`. */
  function RecvStep(mb: Mailbox, s: Sched): (r: (Mailbox, Sched, Outcome))
    requires Shape(s)
    ensures Shape(r.1)
  {
    if |mb.ring| > 0 then
      var (q, s') := WakeHead(mb.waitSend, s);
      (mb.(ring := mb.ring[1..], waitSend := q), s', Received(mb.ring[0]))
    else if |mb.waitRecv| >= WAIT_MAX then (mb, s, Failed)
    else (mb.(waitRecv := mb.waitRecv + [s.current]), Block(s), Waiting)
  }

  /** One pass of the loop in `tipc_mutex_lock`. */
  function LockStep(m: Mutex, s: Sched): (r: (Mutex, Sched, Outcome))
    requires Shape(s)
    ensures Shape(r.1)
  {
    if m.owner == NONE then (m.(owner := s.current, depth := 1), s, Done)
    else if m.owner == s.current then (m.(depth := Inc32(m.depth)), s, Done)
    else if |m.wait| >= WAIT_MAX then (m, s, Failed)
    else (m.(wait := m.wait + [s.current]), Block(s), Waiting)
  }

  /** `tipc_mutex_unlock` */
  function UnlockStep(m: Mutex, s: Sched): (r: (Mutex, Sched, Outcome))
    requires Shape(s)
    ensures Shape(r.1)
  {
    if m.owner != s.current then (m, s, Failed)
    else if Dec32(m.depth) == 0 then
      var (q, s') := WakeHead(m.wait, s);
      (Mutex(NONE, 0, q), s', Done)
    else (m.(depth := Dec32(m.depth)), s, Done)
  }

  // ------------------------------------------------------------ whole system

  /** The three kinds of wait queue. */
  datatype Place = SendTo(m: nat) | RecvFrom(m: nat) | LockOn(k: nat)

  /** What a task is doing between two sections. */
  datatype Pc = Outside | InCall(place: Place)

  datatype State = State(sched: Sched, mailboxes: seq<Mailbox>, mutexes: seq<Mutex>, pc: seq<Pc>)

  ghost predicate Wellformed(s: State) {
    Shape(s.sched) && |s.pc| == MAX_TASKS
  }

  datatype Command =
    | Send(m: nat, len: nat, data: seq<nat>)
    | Recv(m: nat)
    | Lock(k: nat)
    | Unlock(k: nat)
    | TimerTick
    | Yield
    | ExitTask
    | CreateTask(priority: nat, stack: nat, space: nat)
    | Reprioritise(id: nat, prio: nat)

  /** The queue a call waits in, if it is a call that can wait. */
  function PlaceOf(c: Command): (r: Pc) {
    match c
    case Send(m, _, _) => InCall(SendTo(m))
    case Recv(m) => InCall(RecvFrom(m))
    case Lock(k) => InCall(LockOn(k))
    case _ => Outside
  }

  function After(o: Outcome, p: Place): Pc {
    if o.Waiting? then InCall(p) else Outside
  }

  /** The running task executes one command. A mailbox or mutex index out of
      range stands for a null pointer. */
  function Apply(s: State, c: Command): (r: (State, Outcome))
    requires Wellformed(s)
    ensures Wellformed(r.0)
    ensures |r.0.mailboxes| == |s.mailboxes| && |r.0.mutexes| == |s.mutexes|
  {
    var self := s.sched.current;
    match c
    case Send(m, len, data) =>
      if m >= |s.mailboxes| then (s, Failed)
      else
        var (mb, sc, o) := SendStep(s.mailboxes[m], s.sched, Msg(0, len, data));
        (s.(mailboxes := s.mailboxes[m := mb], sched := sc, pc := s.pc[self := After(o, SendTo(m))]), o)
    case Recv(m) =>
      if m >= |s.mailboxes| then (s, Failed)
      else
        var (mb, sc, o) := RecvStep(s.mailboxes[m], s.sched);
        (s.(mailboxes := s.mailboxes[m := mb], sched := sc, pc := s.pc[self := After(o, RecvFrom(m))]), o)
    case Lock(k) =>
      if k >= |s.mutexes| then (s, Failed)
      else
        var (mx, sc, o) := LockStep(s.mutexes[k], s.sched);
        (s.(mutexes := s.mutexes[k := mx], sched := sc, pc := s.pc[self := After(o, LockOn(k))]), o)
    case Unlock(k) =>
      if k >= |s.mutexes| then (s, Failed)
      else
        var (mx, sc, o) := UnlockStep(s.mutexes[k], s.sched);
        (s.(mutexes := s.mutexes[k := mx], sched := sc), o)
    case TimerTick => (s.(sched := Tick(s.sched)), Done)
    case Yield => (s.(sched := PickSwitch(s.sched)), Done)
    case ExitTask => (s.(sched := Exit(s.sched)), Done)
    case CreateTask(p, stack, space) => (s.(sched := Create(s.sched, p, stack, space)), Done)
    case Reprioritise(id, p) => (s.(sched := SetPriority(s.sched, id, p)), Done)
  }

  /** The running task, if woken inside a call, can only be ticked or retry
      that call; and slot 0, the idle task, neither exits nor blocks. */
  ghost predicate Enabled(s: State, c: Command)
    requires Wellformed(s)
  {
    var self := s.sched.current;
    && (s.pc[self].InCall? ==> c.TimerTick? || PlaceOf(c) == s.pc[self])
    && (self == 0 ==> !c.ExitTask? && !Apply(s, c).1.Waiting?)
  }

  /** Power-on: slot 0 running, `nm` empty mailboxes and `nk` free mutexes. */
  function Init(nm: nat, nk: nat): (s: State)
    ensures Wellformed(s) && |s.mailboxes| == nm && |s.mutexes| == nk
  {
    State(Boot(), seq(nm, _ => Mailbox([], [], [])), seq(nk, _ => Mutex(NONE, 0, [])), seq(MAX_TASKS, _ => Outside))
  }

  // ------------------------------------------------------------------- runs

  function Exec(s: State, cs: seq<Command>): (r: State)
    requires Wellformed(s)
    ensures Wellformed(r) && |r.mailboxes| == |s.mailboxes| && |r.mutexes| == |s.mutexes|
  {
    if cs == [] then s else Apply(Exec(s, cs[..|cs| - 1]), cs[|cs| - 1]).0
  }

  /** Every command of the run was enabled when it ran. */
  ghost predicate Legal(s: State, cs: seq<Command>)
    requires Wellformed(s)
  {
    cs == [] || (Legal(s, cs[..|cs| - 1]) && Enabled(Exec(s, cs[..|cs| - 1]), cs[|cs| - 1]))
  }

  /** What an observer of a run sees: who did what, with which result. */
  datatype Event = Event(actor: nat, command: Command, outcome: Outcome)

  function EventOf(s: State, c: Command): Event
    requires Wellformed(s)
  {
    Event(s.sched.current, c, Apply(s, c).1)
  }

  function Trace(s: State, cs: seq<Command>): (r: seq<Event>)
    requires Wellformed(s)
    ensures |r| == |cs|
  {
    if cs == [] then [] else Trace(s, cs[..|cs| - 1]) + [EventOf(Exec(s, cs[..|cs| - 1]), cs[|cs| - 1])]
  }
}
