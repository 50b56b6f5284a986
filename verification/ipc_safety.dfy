/**
  What every step of the IPC step system keeps, hence what holds in every
  reachable state: a task is BLOCKED exactly when it waits in one queue, once;
  no wakeup is lost; the block and wake counters account for the blocked
  tasks; mutex ownership and waiting exclude each other.
*/
module IpcSafety {
  import opened Finite
  import opened Words
  import opened Tasks
  import opened Ipc

  predicate IsReady(s: State, id: nat)
    requires Wellformed(s)
  {
    id < MAX_TASKS && s.sched.tasks[id].state.Ready?
  }

  predicate IsBlocked(s: State, id: nat)
    requires Wellformed(s)
  {
    id < MAX_TASKS && s.sched.tasks[id].state.Blocked?
  }

  /** The wait queue at a place; empty at a place that does not exist. */
  function Queue(s: State, p: Place): (q: seq<nat>) {
    match p
    case SendTo(m) => if m < |s.mailboxes| then s.mailboxes[m].waitSend else []
    case RecvFrom(m) => if m < |s.mailboxes| then s.mailboxes[m].waitRecv else []
    case LockOn(k) => if k < |s.mutexes| then s.mutexes[k].wait else []
  }

  /** Everyone queued at `p` is BLOCKED inside the call that waits there. */
  ghost predicate QueueOk(s: State, p: Place)
    requires Wellformed(s)
  {
    && NoDup(Queue(s, p))
    && |Queue(s, p)| <= WAIT_MAX
    && forall id :: id in Queue(s, p) ==> IsBlocked(s, id) && s.pc[id] == InCall(p)
  }

  ghost predicate TaskOk(s: State, id: nat)
    requires Wellformed(s) && id < MAX_TASKS
  {
    && (IsBlocked(s, id) ==> s.pc[id].InCall? && id in Queue(s, s.pc[id].place))
    && (s.pc[id].InCall? ==> IsBlocked(s, id) || IsReady(s, id))
  }

  ghost predicate WaitInv(s: State) {
    && Wellformed(s)
    && IsReady(s, 0) && s.pc[0].Outside?
    && IsReady(s, s.sched.current)
    && (forall p :: QueueOk(s, p))
    && (forall id :: 0 <= id < MAX_TASKS ==> TaskOk(s, id))
  }

  /** Tasks woken inside the call at `p` that have not yet retried it. */
  ghost function Woken(s: State, p: Place): (r: set<nat>)
    requires Wellformed(s)
  {
    set id | 0 <= id < MAX_TASKS && IsReady(s, id) && s.pc[id] == InCall(p)
  }

  /** No lost wakeup on mailbox `m`. */
  ghost predicate MailboxOk(s: State, m: nat)
    requires Wellformed(s) && m < |s.mailboxes|
  {
    var mb := s.mailboxes[m];
    && |mb.ring| <= QUEUE_SLOTS
    && (mb.waitRecv != [] ==> |mb.ring| <= |Woken(s, RecvFrom(m))|)
    && (mb.waitSend != [] ==> QUEUE_SLOTS - |mb.ring| <= |Woken(s, SendTo(m))|)
  }

  ghost predicate MutexOk(s: State, k: nat)
    requires Wellformed(s) && k < |s.mutexes|
  {
    var mx := s.mutexes[k];
    && (mx.owner == NONE || mx.owner < MAX_TASKS)
    && mx.owner !in mx.wait
    && (mx.owner == NONE && mx.wait != [] ==> Woken(s, LockOn(k)) != {})
  }

  ghost predicate ObjectInv(s: State)
    requires Wellformed(s)
  {
    && (forall m :: 0 <= m < |s.mailboxes| ==> MailboxOk(s, m))
    && (forall k :: 0 <= k < |s.mutexes| ==> MutexOk(s, k))
  }

  ghost function BlockedSet(s: State): (r: set<nat>)
    requires Wellformed(s)
  {
    set id | 0 <= id < MAX_TASKS && IsBlocked(s, id)
  }

  /** `total_blocks - total_wakes`, on 32 bits, counts the BLOCKED tasks. */
  ghost predicate CountInv(s: State)
    requires Wellformed(s)
  {
    && s.sched.totalBlocks < TWO32 && s.sched.totalWakes < TWO32
    && (s.sched.totalBlocks + TWO32 - s.sched.totalWakes) % TWO32 == |BlockedSet(s)|
  }

  ghost predicate Inv(s: State) {
    WaitInv(s) && ObjectInv(s) && CountInv(s)
  }

  // ----------------------------------------------- three shapes of a step

  ghost predicate SameStates(s: Sched, t: Sched) {
    && |s.tasks| == |t.tasks|
    && forall id :: 0 <= id < |s.tasks| ==> t.tasks[id].state == s.tasks[id].state
  }

  /** Nobody blocks or wakes; the running task may leave its call. */
  ghost predicate QuietStep(s: State, t: State)
    requires Wellformed(s) && Wellformed(t)
  {
    && SameStates(s.sched, t.sched)
    && (forall p :: Queue(t, p) == Queue(s, p))
    && (t.pc == s.pc || t.pc == s.pc[s.sched.current := Outside])
    && t.sched.totalBlocks == s.sched.totalBlocks && t.sched.totalWakes == s.sched.totalWakes
  }

  /** The running task joins the queue at `p` and parks. */
  ghost predicate ParkStep(s: State, t: State, p: Place)
    requires Wellformed(s) && Wellformed(t)
  {
    && t.sched == Block(s.sched)
    && Queue(t, p) == Queue(s, p) + [s.sched.current]
    && (forall q :: q != p ==> Queue(t, q) == Queue(s, q))
    && t.pc == s.pc[s.sched.current := InCall(p)]
  }

  /** The running task leaves its call and wakes the head of the queue at `p`. */
  ghost predicate WakeStep(s: State, t: State, p: Place)
    requires Wellformed(s) && Wellformed(t)
  {
    && Queue(s, p) != []
    && t.sched == Wake(s.sched, Queue(s, p)[0])
    && Queue(t, p) == Queue(s, p)[1..]
    && (forall q :: q != p ==> Queue(t, q) == Queue(s, q))
    && (t.pc == s.pc || t.pc == s.pc[s.sched.current := Outside])
  }

  /** With slot 0 READY, another task that blocks really parks. */
  lemma ParkedNotFallback(s: State)
    requires Wellformed(s) && IsReady(s, 0) && s.sched.current != 0
    ensures !BlockFallsBack(s.sched)
    ensures var t := Block(s.sched);
            && t.tasks[t.current].state.Ready? && t.current != s.sched.current
            && t.tasks == Parked(s.sched).tasks
  {
    BlockFallsBackIff(s.sched);
    PickNextReady(Parked(s.sched), 0);
  }

  lemma QuietKeepsWait(s: State, t: State)
    requires WaitInv(s) && Wellformed(t) && QuietStep(s, t)
    requires IsReady(t, t.sched.current)
    ensures WaitInv(t)
  {
    forall p ensures QueueOk(t, p) {
      assert QueueOk(s, p);
    }
    forall id | 0 <= id < MAX_TASKS ensures TaskOk(t, id) {
      assert TaskOk(s, id);
    }
  }

  lemma ParkKeepsWait(s: State, t: State, p: Place)
    requires WaitInv(s) && Wellformed(t) && ParkStep(s, t, p)
    requires s.sched.current != 0 && |Queue(s, p)| < WAIT_MAX
    ensures WaitInv(t)
  {
    ParkedNotFallback(s);
    var self := s.sched.current;
    assert self !in Queue(s, p) by { assert QueueOk(s, p); }
    forall q ensures QueueOk(t, q) {
      assert QueueOk(s, q);
    }
    forall id | 0 <= id < MAX_TASKS ensures TaskOk(t, id) {
      assert TaskOk(s, id);
    }
  }

  lemma WakeKeepsWait(s: State, t: State, p: Place)
    requires WaitInv(s) && Wellformed(t) && WakeStep(s, t, p)
    ensures IsBlocked(s, Queue(s, p)[0]) && IsReady(t, Queue(s, p)[0])
    ensures WaitInv(t)
  {
    hide QueueOk, TaskOk;
    WakeHeadBlocked(s, t, p);
    forall q ensures QueueOk(t, q) {
      WakeKeepsQueue(s, t, p, q);
    }
    forall id | 0 <= id < MAX_TASKS ensures TaskOk(t, id) {
      WakeKeepsTask(s, t, p, id);
    }
  }

  lemma WakeHeadBlocked(s: State, t: State, p: Place)
    requires WaitInv(s) && Wellformed(t) && WakeStep(s, t, p)
    ensures var w := Queue(s, p)[0];
            && w in Queue(s, p) && w !in Queue(s, p)[1..] && IsBlocked(s, w) && s.pc[w] == InCall(p)
            && IsReady(t, w) && w != s.sched.current
            && (forall id :: 0 <= id < MAX_TASKS && id != w ==> t.sched.tasks[id] == s.sched.tasks[id])
            && t.sched.current == s.sched.current
  {
    hide TaskOk;
    assert QueueOk(s, p) && Queue(s, p)[0] in Queue(s, p);
  }

  lemma WakeKeepsQueue(s: State, t: State, p: Place, q: Place)
    requires WaitInv(s) && Wellformed(t) && WakeStep(s, t, p)
    ensures QueueOk(t, q)
  {
    hide TaskOk, Wake, Queue, QueueOk, WakeStep;
    WakeHeadBlocked(s, t, p);
    QueueAfterWake(s, t, p, q);
  }

  lemma QueueAfterWake(s: State, t: State, p: Place, q: Place)
    requires Wellformed(s) && Wellformed(t) && QueueOk(s, q) && WakeStep(s, t, p) && IsReady(s, s.sched.current)
    requires var w := Queue(s, p)[0];
             && w !in Queue(s, p)[1..] && w < MAX_TASKS && s.pc[w] == InCall(p)
             && forall id :: 0 <= id < MAX_TASKS && id != w ==> t.sched.tasks[id] == s.sched.tasks[id]
    ensures QueueOk(t, q)
  {
    hide Wake, Queue, NoDup;
    var w, before, after := Queue(s, p)[0], Queue(s, q), Queue(t, q);
    TailNoDup(before);
    forall id | id in after ensures IsBlocked(t, id) && t.pc[id] == InCall(q) {
      assert id in before && id != w;
    }
  }

  lemma TailNoDup(q: seq<nat>)
    requires NoDup(q)
    ensures q != [] ==> NoDup(q[1..]) && forall x :: x in q[1..] ==> x in q
  {
  }

  lemma WakeKeepsTask(s: State, t: State, p: Place, id: nat)
    requires WaitInv(s) && Wellformed(t) && WakeStep(s, t, p) && id < MAX_TASKS
    ensures TaskOk(t, id)
  {
    hide QueueOk, Wake, Queue;
    assert TaskOk(s, id);
    WakeHeadBlocked(s, t, p);
    var q := Queue(s, p);
    assert forall x :: x in q && x != q[0] ==> x in q[1..];
  }

  // ------------------------------------------- how the woken sets change

  lemma QuietWoken(s: State, t: State, p: Place)
    requires Wellformed(s) && Wellformed(t) && QuietStep(s, t)
    ensures Woken(s, p) - {s.sched.current} <= Woken(t, p) <= Woken(s, p)
  {
  }

  lemma ParkWoken(s: State, t: State, p: Place, q: Place)
    requires WaitInv(s) && Wellformed(t) && ParkStep(s, t, p) && s.sched.current != 0
    ensures Woken(t, q) == Woken(s, q) - {s.sched.current}
  {
    ParkedNotFallback(s);
  }

  lemma WakeWoken(s: State, t: State, p: Place, q: Place)
    requires WaitInv(s) && Wellformed(t) && WakeStep(s, t, p)
    ensures var w := Queue(s, p)[0];
            && w !in Woken(s, q) && w != s.sched.current
            && Woken(s, q) - {s.sched.current} + (if q == p then {w} else {}) <= Woken(t, q)
  {
    var w := Queue(s, p)[0];
    assert QueueOk(s, p) && w in Queue(s, p);
  }

  // ------------------------------------------------------- the two counters

  lemma QuietKeepsCount(s: State, t: State)
    requires Wellformed(s) && CountInv(s) && Wellformed(t) && QuietStep(s, t)
    ensures CountInv(t)
  {
    assert BlockedSet(t) == BlockedSet(s);
  }

  lemma BlockedBound(s: State)
    requires Wellformed(s)
    ensures |BlockedSet(s)| <= MAX_TASKS
  {
    SubsetSize(BlockedSet(s), Below(MAX_TASKS));
  }

  lemma CountOneMore(b: nat, w: nat, n: nat)
    requires b < TWO32 && w < TWO32 && (b + TWO32 - w) % TWO32 == n && n + 1 < TWO32
    ensures Inc32(b) < TWO32 && (Inc32(b) + TWO32 - w) % TWO32 == n + 1
  {
  }

  lemma CountOneLess(b: nat, w: nat, n: nat)
    requires b < TWO32 && w < TWO32 && (b + TWO32 - w) % TWO32 == n && n >= 1
    ensures Inc32(w) < TWO32 && (b + TWO32 - Inc32(w)) % TWO32 == n - 1
  {
  }

  lemma ParkKeepsCount(s: State, t: State, p: Place)
    requires WaitInv(s) && CountInv(s) && Wellformed(t) && ParkStep(s, t, p) && s.sched.current != 0
    ensures CountInv(t)
  {
    ParkedNotFallback(s);
    var self := s.sched.current;
    assert self !in BlockedSet(s);
    assert BlockedSet(t) == BlockedSet(s) + {self};
    assert |BlockedSet(t)| == |BlockedSet(s)| + 1;
    BlockedBound(s);
    CountOneMore(s.sched.totalBlocks, s.sched.totalWakes, |BlockedSet(s)|);
  }

  lemma WakeKeepsCount(s: State, t: State, p: Place)
    requires WaitInv(s) && CountInv(s) && Wellformed(t) && WakeStep(s, t, p)
    ensures CountInv(t)
  {
    WakeLeaves(s, t, p);
    hide BlockedSet, WaitInv, Queue, Woken;
    CountOneLess(s.sched.totalBlocks, s.sched.totalWakes, |BlockedSet(s)|);
  }

  lemma WakeLeaves(s: State, t: State, p: Place)
    requires WaitInv(s) && Wellformed(t) && WakeStep(s, t, p)
    ensures |BlockedSet(s)| == |BlockedSet(t)| + 1
    ensures t.sched.totalBlocks == s.sched.totalBlocks && t.sched.totalWakes == Inc32(s.sched.totalWakes)
  {
    var w := Queue(s, p)[0];
    assert QueueOk(s, p) && w in Queue(s, p);
    hide Inc32, TaskOk;
    assert w !in BlockedSet(t) && BlockedSet(s) == BlockedSet(t) + {w};
  }

  // ---------------------------------- mailboxes and mutexes not touched

  /** A step of a call at `p` leaves what it does not touch in order. */
  lemma OthersKept(s: State, t: State, p: Pc)
    requires WaitInv(s) && ObjectInv(s) && Wellformed(t)
    requires s.pc[s.sched.current].Outside? || s.pc[s.sched.current] == p
    requires |t.mailboxes| == |s.mailboxes| && |t.mutexes| == |s.mutexes|
    requires forall q :: Woken(s, q) - {s.sched.current} <= Woken(t, q)
    ensures forall m | 0 <= m < |s.mailboxes| && t.mailboxes[m] == s.mailboxes[m]
                        && p != InCall(SendTo(m)) && p != InCall(RecvFrom(m)) :: MailboxOk(t, m)
    ensures forall k :: 0 <= k < |s.mutexes| && t.mutexes[k] == s.mutexes[k] && p != InCall(LockOn(k)) ==> MutexOk(t, k)
  {
    var self := s.sched.current;
    forall m | 0 <= m < |s.mailboxes| && t.mailboxes[m] == s.mailboxes[m]
               && p != InCall(SendTo(m)) && p != InCall(RecvFrom(m))
      ensures MailboxOk(t, m)
    {
      assert MailboxOk(s, m);
      assert self !in Woken(s, RecvFrom(m)) && self !in Woken(s, SendTo(m));
      SubsetSize(Woken(s, RecvFrom(m)), Woken(t, RecvFrom(m)));
      SubsetSize(Woken(s, SendTo(m)), Woken(t, SendTo(m)));
    }
    forall k | 0 <= k < |s.mutexes| && t.mutexes[k] == s.mutexes[k] && p != InCall(LockOn(k)) ensures MutexOk(t, k) {
      assert MutexOk(s, k);
      assert self !in Woken(s, LockOn(k));
      SubsetSize(Woken(s, LockOn(k)), Woken(t, LockOn(k)));
    }
  }

  // ------------------------------------------------- each command in turn

  /** A quiet step keeps everything but the object of the call at `p`. */
  lemma QuietKeeps(s: State, t: State, p: Pc)
    requires Inv(s) && Wellformed(t) && QuietStep(s, t) && IsReady(t, t.sched.current)
    requires s.pc[s.sched.current].Outside? || s.pc[s.sched.current] == p
    requires |t.mailboxes| == |s.mailboxes| && |t.mutexes| == |s.mutexes|
    ensures WaitInv(t) && CountInv(t)
    ensures forall m | 0 <= m < |s.mailboxes| && t.mailboxes[m] == s.mailboxes[m]
                        && p != InCall(SendTo(m)) && p != InCall(RecvFrom(m)) :: MailboxOk(t, m)
    ensures forall k :: 0 <= k < |s.mutexes| && t.mutexes[k] == s.mutexes[k] && p != InCall(LockOn(k)) ==> MutexOk(t, k)
  {
    QuietKeepsWait(s, t);
    QuietKeepsCount(s, t);
    forall q ensures Woken(s, q) - {s.sched.current} <= Woken(t, q) { QuietWoken(s, t, q); }
    OthersKept(s, t, p);
  }

  lemma ParkKeeps(s: State, t: State, p: Place)
    requires Inv(s) && Wellformed(t) && ParkStep(s, t, p) && s.sched.current != 0 && |Queue(s, p)| < WAIT_MAX
    requires s.pc[s.sched.current].Outside? || s.pc[s.sched.current] == InCall(p)
    requires |t.mailboxes| == |s.mailboxes| && |t.mutexes| == |s.mutexes|
    ensures WaitInv(t) && CountInv(t)
    ensures forall m | 0 <= m < |s.mailboxes| && t.mailboxes[m] == s.mailboxes[m]
                        && p != SendTo(m) && p != RecvFrom(m) :: MailboxOk(t, m)
    ensures forall k :: 0 <= k < |s.mutexes| && t.mutexes[k] == s.mutexes[k] && p != LockOn(k) ==> MutexOk(t, k)
  {
    ParkKeepsWait(s, t, p);
    ParkKeepsCount(s, t, p);
    forall q ensures Woken(s, q) - {s.sched.current} <= Woken(t, q) { ParkWoken(s, t, p, q); }
    OthersKept(s, t, InCall(p));
  }

  lemma WakeKeeps(s: State, t: State, p: Pc, q: Place)
    requires Inv(s) && Wellformed(t) && WakeStep(s, t, q)
    requires s.pc[s.sched.current].Outside? || s.pc[s.sched.current] == p
    requires |t.mailboxes| == |s.mailboxes| && |t.mutexes| == |s.mutexes|
    ensures WaitInv(t) && CountInv(t)
    ensures forall m | 0 <= m < |s.mailboxes| && t.mailboxes[m] == s.mailboxes[m]
                        && p != InCall(SendTo(m)) && p != InCall(RecvFrom(m)) :: MailboxOk(t, m)
    ensures forall k :: 0 <= k < |s.mutexes| && t.mutexes[k] == s.mutexes[k] && p != InCall(LockOn(k)) ==> MutexOk(t, k)
  {
    WakeKeepsWait(s, t, q);
    WakeKeepsCount(s, t, q);
    forall r ensures Woken(s, r) - {s.sched.current} <= Woken(t, r) { WakeWoken(s, t, q, r); }
    OthersKept(s, t, p);
  }

  /** Dropping one element shrinks a set by at most one. */
  lemma MinusOne(a: set<nat>, x: nat, b: set<nat>)
    requires a - {x} <= b
    ensures |a| - 1 <= |b|
    ensures x !in a ==> |a| <= |b|
  {
    SubsetSize(a - {x}, b);
    assert x !in a ==> a - {x} == a;
  }

  lemma NotWokenHere(s: State, p: Place)
    requires Wellformed(s) && s.pc[s.sched.current] != InCall(p)
    ensures s.sched.current !in Woken(s, p)
  {
  }

  /** The woken head joins the woken set of its queue. */
  lemma WakeGrows(s: State, t: State, q: Place)
    requires WaitInv(s) && Wellformed(t) && WakeStep(s, t, q) && s.pc[s.sched.current] != InCall(q)
    ensures |Woken(s, q)| + 1 <= |Woken(t, q)|
  {
    var w := Queue(s, q)[0];
    WakeWoken(s, t, q, q);
    NotWokenHere(s, q);
    hide Woken, WaitInv, WakeStep;
    SubsetSize(Woken(s, q) + {w}, Woken(t, q));
  }

  /** `tipc_send` into a ring with room. */
  lemma SendStores(s: State, c: Command)
    requires Inv(s) && c.Send? && Enabled(s, c) && c.m < |s.mailboxes|
    requires |s.mailboxes[c.m].ring| < QUEUE_SLOTS && s.mailboxes[c.m].waitRecv == []
    ensures Inv(Apply(s, c).0)
  {
    hide Block, Wake, Woken, MutexOk, QueueOk, TaskOk, CountInv;
    var t, m := Apply(s, c).0, c.m;
    assert MailboxOk(s, m);
    QuietKeeps(s, t, InCall(SendTo(m)));
    QuietWoken(s, t, SendTo(m));
    MinusOne(Woken(s, SendTo(m)), s.sched.current, Woken(t, SendTo(m)));
    assert MailboxOk(t, m);
  }

  /** `tipc_send` that wakes the oldest waiting receiver. */
  lemma SendWakes(s: State, c: Command)
    requires Inv(s) && c.Send? && Enabled(s, c) && c.m < |s.mailboxes|
    requires |s.mailboxes[c.m].ring| < QUEUE_SLOTS && s.mailboxes[c.m].waitRecv != []
    ensures Inv(Apply(s, c).0)
  {
    hide Block, Wake, Woken, MutexOk, QueueOk, TaskOk, CountInv;
    var t, m := Apply(s, c).0, c.m;
    assert MailboxOk(s, m);
    WakeKeeps(s, t, InCall(SendTo(m)), RecvFrom(m));
    WakeWoken(s, t, RecvFrom(m), SendTo(m));
    MinusOne(Woken(s, SendTo(m)), s.sched.current, Woken(t, SendTo(m)));
    WakeGrows(s, t, RecvFrom(m));
    assert MailboxOk(t, m);
  }

  /** `tipc_send` on a full ring: refused, or parked. */
  lemma SendStalls(s: State, c: Command)
    requires Inv(s) && c.Send? && Enabled(s, c) && c.m < |s.mailboxes|
    requires |s.mailboxes[c.m].ring| >= QUEUE_SLOTS
    ensures Inv(Apply(s, c).0)
  {
    hide Block, Wake, Woken, MutexOk, QueueOk, TaskOk, CountInv;
    var t, m, self := Apply(s, c).0, c.m, s.sched.current;
    assert MailboxOk(s, m);
    if |s.mailboxes[m].waitSend| >= WAIT_MAX {
      QuietKeeps(s, t, InCall(SendTo(m)));
      QuietWoken(s, t, RecvFrom(m));
    } else {
      ParkKeeps(s, t, SendTo(m));
      ParkWoken(s, t, SendTo(m), RecvFrom(m));
    }
    NotWokenHere(s, RecvFrom(m));
    MinusOne(Woken(s, RecvFrom(m)), self, Woken(t, RecvFrom(m)));
    assert MailboxOk(t, m);
  }

  /** `tipc_recv` from a ring with messages and nobody waiting to send. */
  lemma RecvTakes(s: State, c: Command)
    requires Inv(s) && c.Recv? && Enabled(s, c) && c.m < |s.mailboxes|
    requires |s.mailboxes[c.m].ring| > 0 && s.mailboxes[c.m].waitSend == []
    ensures Inv(Apply(s, c).0)
  {
    hide Block, Wake, Woken, MutexOk, QueueOk, TaskOk, CountInv;
    var t, m := Apply(s, c).0, c.m;
    assert MailboxOk(s, m);
    QuietKeeps(s, t, InCall(RecvFrom(m)));
    QuietWoken(s, t, RecvFrom(m));
    MinusOne(Woken(s, RecvFrom(m)), s.sched.current, Woken(t, RecvFrom(m)));
    assert MailboxOk(t, m);
  }

  /** `tipc_recv` that wakes the oldest waiting sender. */
  lemma RecvWakes(s: State, c: Command)
    requires Inv(s) && c.Recv? && Enabled(s, c) && c.m < |s.mailboxes|
    requires |s.mailboxes[c.m].ring| > 0 && s.mailboxes[c.m].waitSend != []
    ensures Inv(Apply(s, c).0)
  {
    hide Block, Wake, Woken, MutexOk, QueueOk, TaskOk, CountInv;
    var t, m := Apply(s, c).0, c.m;
    assert MailboxOk(s, m);
    WakeKeeps(s, t, InCall(RecvFrom(m)), SendTo(m));
    WakeWoken(s, t, SendTo(m), RecvFrom(m));
    MinusOne(Woken(s, RecvFrom(m)), s.sched.current, Woken(t, RecvFrom(m)));
    WakeGrows(s, t, SendTo(m));
    assert MailboxOk(t, m);
  }

  /** `tipc_recv` on an empty ring: refused, or parked. */
  lemma RecvStalls(s: State, c: Command)
    requires Inv(s) && c.Recv? && Enabled(s, c) && c.m < |s.mailboxes|
    requires |s.mailboxes[c.m].ring| == 0
    ensures Inv(Apply(s, c).0)
  {
    hide Block, Wake, Woken, MutexOk, QueueOk, TaskOk, CountInv;
    var t, m, self := Apply(s, c).0, c.m, s.sched.current;
    assert MailboxOk(s, m);
    if |s.mailboxes[m].waitRecv| >= WAIT_MAX {
      QuietKeeps(s, t, InCall(RecvFrom(m)));
      QuietWoken(s, t, SendTo(m));
    } else {
      ParkKeeps(s, t, RecvFrom(m));
      ParkWoken(s, t, RecvFrom(m), SendTo(m));
    }
    NotWokenHere(s, SendTo(m));
    MinusOne(Woken(s, SendTo(m)), self, Woken(t, SendTo(m)));
    assert MailboxOk(t, m);
  }

  /** `tipc_mutex_lock` that succeeds or is refused. */
  lemma LockDecides(s: State, c: Command)
    requires Inv(s) && c.Lock? && Enabled(s, c) && c.k < |s.mutexes| && !Apply(s, c).1.Waiting?
    ensures Inv(Apply(s, c).0)
  {
    hide Block, Wake, MailboxOk, TaskOk, CountInv;
    var t, k, self := Apply(s, c).0, c.k, s.sched.current;
    assert MutexOk(s, k) && QueueOk(s, LockOn(k));
    assert self !in s.mutexes[k].wait;
    QuietKeeps(s, t, InCall(LockOn(k)));
    assert MutexOk(t, k);
  }

  lemma LockParks(s: State, c: Command)
    requires Inv(s) && c.Lock? && Enabled(s, c) && c.k < |s.mutexes| && Apply(s, c).1.Waiting?
    ensures Inv(Apply(s, c).0)
  {
    hide Block, Wake, Woken, MailboxOk, QueueOk, TaskOk, CountInv;
    var t, k := Apply(s, c).0, c.k;
    assert MutexOk(s, k);
    ParkKeeps(s, t, LockOn(k));
    assert MutexOk(t, k);
  }

  lemma UnlockKeeps(s: State, c: Command)
    requires Inv(s) && c.Unlock? && Enabled(s, c) && c.k < |s.mutexes|
    ensures Inv(Apply(s, c).0)
  {
    hide Apply, ObjectInv, CountInv, QueueOk, TaskOk;
    if UnlockHandsOn(s, c) {
      UnlockWakes(s, c);
    } else {
      UnlockQuiet(s, c);
    }
  }

  /** The unlock gives the mutex up while somebody waits for it. */
  predicate UnlockHandsOn(s: State, c: Command)
    requires Wellformed(s) && c.Unlock? && c.k < |s.mutexes|
  {
    Apply(s, c).1.Done? && Apply(s, c).0.mutexes[c.k].owner == NONE && s.mutexes[c.k].wait != []
  }

  lemma UnlockWakes(s: State, c: Command)
    requires Inv(s) && c.Unlock? && Enabled(s, c) && c.k < |s.mutexes| && UnlockHandsOn(s, c)
    ensures Inv(Apply(s, c).0)
  {
    hide Apply, Block, Wake, Woken, MailboxOk, TaskOk, CountInv, WakeStep, UnlockHandsOn;
    var t, k := Apply(s, c).0, c.k;
    assert QueueOk(s, LockOn(k));
    UnlockIsWake(s, c);
    WakeKeeps(s, t, Outside, LockOn(k));
    WakeWoken(s, t, LockOn(k), LockOn(k));
    assert s.mutexes[k].wait[0] in Woken(t, LockOn(k));
    assert MutexOk(t, k);
  }

  /** Such an unlock pops and wakes the first waiter and touches nothing else. */
  lemma UnlockIsWake(s: State, c: Command)
    requires WaitInv(s) && c.Unlock? && Enabled(s, c) && c.k < |s.mutexes| && UnlockHandsOn(s, c)
    ensures var t, k := Apply(s, c).0, c.k;
            && WakeStep(s, t, LockOn(k)) && t.mailboxes == s.mailboxes && |t.mutexes| == |s.mutexes|
            && t.mutexes[k].owner == NONE && t.mutexes[k].wait == s.mutexes[k].wait[1..] && s.mutexes[k].wait != []
            && NONE !in t.mutexes[k].wait
            && forall j :: 0 <= j < |s.mutexes| && j != k ==> t.mutexes[j] == s.mutexes[j]
  {
    hide Block, Wake, TaskOk;
    var t, k := Apply(s, c).0, c.k;
    assert QueueOk(s, LockOn(k));
    assert forall id :: id in t.mutexes[k].wait ==> id in s.mutexes[k].wait;
  }

  lemma UnlockQuiet(s: State, c: Command)
    requires Inv(s) && c.Unlock? && Enabled(s, c) && c.k < |s.mutexes| && !UnlockHandsOn(s, c)
    ensures Inv(Apply(s, c).0)
  {
    hide Block, Wake, Woken, MailboxOk, TaskOk, CountInv;
    var t, k := Apply(s, c).0, c.k;
    assert MutexOk(s, k);
    QuietKeeps(s, t, Outside);
    assert MutexOk(t, k);
  }

  // ------------------------------------ commands of the scheduler alone

  /** The table changes from `s.sched` to `sc` without touching a task that is
      BLOCKED or inside a call. */
  ghost predicate Harmless(s: State, sc: Sched)
    requires Wellformed(s)
  {
    && Shape(sc)
    && sc.tasks[0].state.Ready? && sc.tasks[sc.current].state.Ready?
    && sc.totalBlocks == s.sched.totalBlocks && sc.totalWakes == s.sched.totalWakes
    && forall id :: 0 <= id < MAX_TASKS ==>
         || sc.tasks[id].state == s.sched.tasks[id].state
         || (s.pc[id].Outside? && !s.sched.tasks[id].state.Blocked? && !sc.tasks[id].state.Blocked?)
  }

  lemma HarmlessKeeps(s: State, sc: Sched)
    requires Inv(s) && Harmless(s, sc)
    ensures Inv(s.(sched := sc))
  {
    var t := s.(sched := sc);
    forall p ensures Woken(t, p) == Woken(s, p) && QueueOk(t, p) {
      assert QueueOk(s, p);
    }
    assert BlockedSet(t) == BlockedSet(s);
    forall id | 0 <= id < MAX_TASKS ensures TaskOk(t, id) {
      assert TaskOk(s, id);
    }
    forall m | 0 <= m < |s.mailboxes| ensures MailboxOk(t, m) {
      assert MailboxOk(s, m);
    }
    forall k | 0 <= k < |s.mutexes| ensures MutexOk(t, k) {
      assert MutexOk(s, k);
    }
  }

  /** A switch, once the table is ready for it, runs a READY task. */
  lemma SwitchIsHarmless(s: State, before: Sched)
    requires Wellformed(s) && Shape(before)
    requires before.tasks[0].state.Ready?
    requires before.current == 0 || !before.tasks[before.current].state.Ready? || SameStates(s.sched, before)
    requires IsReady(s, before.current)
    requires forall id :: 0 <= id < MAX_TASKS ==>
               || before.tasks[id].state == s.sched.tasks[id].state
               || (s.pc[id].Outside? && !s.sched.tasks[id].state.Blocked? && !before.tasks[id].state.Blocked?)
    requires before.totalBlocks == s.sched.totalBlocks && before.totalWakes == s.sched.totalWakes
    ensures Harmless(s, PickSwitch(before))
  {
    var sc := PickSwitch(before);
    if before.current != 0 {
      PickNextReady(before, 0);
    } else {
      PickNextRule(before);
    }
    hide Scan;
    forall id | 0 <= id < MAX_TASKS ensures sc.tasks[id].state == before.tasks[id].state {
    }
  }

  lemma TickKeepsInv(s: State)
    requires Inv(s)
    ensures Inv(s.(sched := Tick(s.sched)))
  {
    SwitchIsHarmless(s, Charge(s.sched));
    hide Inv, Harmless;
    HarmlessKeeps(s, Tick(s.sched));
  }

  lemma YieldKeepsInv(s: State)
    requires Inv(s)
    ensures Inv(s.(sched := PickSwitch(s.sched)))
  {
    SwitchIsHarmless(s, s.sched);
    hide Inv, Harmless;
    HarmlessKeeps(s, PickSwitch(s.sched));
  }

  lemma ExitKeepsInv(s: State)
    requires Inv(s) && s.sched.current != 0 && s.pc[s.sched.current].Outside?
    ensures Inv(s.(sched := Exit(s.sched)))
  {
    SwitchIsHarmless(s, SetState(s.sched, s.sched.current, Exited));
    hide Inv, Harmless;
    HarmlessKeeps(s, Exit(s.sched));
  }

  lemma CreateKeepsInv(s: State, priority: nat, stack: nat, space: nat)
    requires Inv(s)
    ensures Inv(s.(sched := Create(s.sched, priority, stack, space)))
  {
    var i := FirstReusable(s.sched.tasks, 0);
    if i < MAX_TASKS {
      assert TaskOk(s, i);
    }
    HarmlessKeeps(s, Create(s.sched, priority, stack, space));
  }

  lemma ReprioritiseKeepsInv(s: State, id: nat, prio: nat)
    requires Inv(s)
    ensures Inv(s.(sched := SetPriority(s.sched, id, prio)))
  {
    HarmlessKeeps(s, SetPriority(s.sched, id, prio));
  }

  // ------------------------------------------------------------ every step

  /** Every enabled command keeps the invariant. */
  lemma StepKeepsInv(s: State, c: Command)
    requires Inv(s) && Enabled(s, c)
    ensures Inv(Apply(s, c).0)
  {
    assert Wellformed(s);
    hide Inv;
    match c
    case Send(m, _, _) =>
      if m < |s.mailboxes| {
        if |s.mailboxes[m].ring| >= QUEUE_SLOTS { SendStalls(s, c); }
        else if s.mailboxes[m].waitRecv == [] { SendStores(s, c); }
        else { SendWakes(s, c); }
      }
    case Recv(m) =>
      if m < |s.mailboxes| {
        if |s.mailboxes[m].ring| == 0 { RecvStalls(s, c); }
        else if s.mailboxes[m].waitSend == [] { RecvTakes(s, c); }
        else { RecvWakes(s, c); }
      }
    case Lock(k) =>
      if k < |s.mutexes| {
        if Apply(s, c).1.Waiting? { LockParks(s, c); } else { LockDecides(s, c); }
      }
    case Unlock(k) => if k < |s.mutexes| { UnlockKeeps(s, c); }
    case TimerTick => TickKeepsInv(s);
    case Yield => YieldKeepsInv(s);
    case ExitTask => ExitKeepsInv(s);
    case CreateTask(p, stack, space) => CreateKeepsInv(s, p, stack, space);
    case Reprioritise(id, p) => ReprioritiseKeepsInv(s, id, p);
  }

  lemma InitInv(nm: nat, nk: nat)
    ensures Inv(Init(nm, nk))
  {
    var s := Init(nm, nk);
    assert BlockedSet(s) == {};
    forall p ensures Queue(s, p) == [] {
    }
  }

  /** The invariant holds after every legal run from power-on. */
  lemma {:induction false} Safety(nm: nat, nk: nat, cs: seq<Command>)
    requires Legal(Init(nm, nk), cs)
    ensures Inv(Exec(Init(nm, nk), cs))
  {
    hide Inv, Apply, Enabled, Init;
    if cs == [] {
      InitInv(nm, nk);
    } else {
      Safety(nm, nk, cs[..|cs| - 1]);
      StepKeepsInv(Exec(Init(nm, nk), cs[..|cs| - 1]), cs[|cs| - 1]);
    }
  }
}
