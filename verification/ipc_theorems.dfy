/**
  What the IPC invariant means for every legal run from power-on, stated on
  what an observer sees: task states, queue contents and counters.
*/
module IpcTheorems {
  import opened Finite
  import opened Words
  import opened Tasks
  import opened Ipc
  import opened IpcSafety

  // ------------------------------------ BLOCKED iff queued, exactly once

  /** How often `id` occurs in the queues of the first `n` mailboxes. */
  ghost function InMailboxes(s: State, id: nat, n: nat): (r: nat)
    requires n <= |s.mailboxes|
  {
    if n == 0 then 0
    else
      InMailboxes(s, id, n - 1) + multiset(s.mailboxes[n - 1].waitSend)[id]
      + multiset(s.mailboxes[n - 1].waitRecv)[id]
  }

  ghost function InMutexes(s: State, id: nat, n: nat): (r: nat)
    requires n <= |s.mutexes|
  {
    if n == 0 then 0 else InMutexes(s, id, n - 1) + multiset(s.mutexes[n - 1].wait)[id]
  }

  /** How often `id` occurs in all wait queues together. */
  ghost function Occurrences(s: State, id: nat): (r: nat) {
    InMailboxes(s, id, |s.mailboxes|) + InMutexes(s, id, |s.mutexes|)
  }

  lemma {:induction false} CountInDistinct(q: seq<nat>, id: nat)
    requires NoDup(q)
    ensures multiset(q)[id] == if id in q then 1 else 0
  {
    if q != [] {
      var n := |q| - 1;
      assert q == q[..n] + [q[n]];
      CountInDistinct(q[..n], id);
    }
  }

  lemma CountAt(s: State, p: Place, id: nat)
    requires WaitInv(s) && id < MAX_TASKS
    ensures multiset(Queue(s, p))[id] == if IsBlocked(s, id) && s.pc[id] == InCall(p) then 1 else 0
  {
    assert QueueOk(s, p) && TaskOk(s, id);
    CountInDistinct(Queue(s, p), id);
  }

  lemma {:induction false} MailboxOccurrences(s: State, id: nat, n: nat)
    requires WaitInv(s) && id < MAX_TASKS && n <= |s.mailboxes|
    ensures InMailboxes(s, id, n)
         == if IsBlocked(s, id) && s.pc[id].InCall? && !s.pc[id].place.LockOn? && s.pc[id].place.m < n then 1 else 0
  {
    if n > 0 {
      MailboxOccurrences(s, id, n - 1);
      CountAt(s, SendTo(n - 1), id);
      CountAt(s, RecvFrom(n - 1), id);
    }
  }

  lemma {:induction false} MutexOccurrences(s: State, id: nat, n: nat)
    requires WaitInv(s) && id < MAX_TASKS && n <= |s.mutexes|
    ensures InMutexes(s, id, n)
         == if IsBlocked(s, id) && s.pc[id].InCall? && s.pc[id].place.LockOn? && s.pc[id].place.k < n then 1 else 0
  {
    if n > 0 {
      MutexOccurrences(s, id, n - 1);
      CountAt(s, LockOn(n - 1), id);
    }
  }

  /** In every reachable state a task is BLOCKED iff its id occurs exactly once
      over all wait queues; otherwise it occurs in none. */
  lemma BlockedIffQueuedOnce(nm: nat, nk: nat, cs: seq<Command>, id: nat)
    requires Legal(Init(nm, nk), cs) && id < MAX_TASKS
    ensures var s := Exec(Init(nm, nk), cs);
            Occurrences(s, id) == if IsBlocked(s, id) then 1 else 0
  {
    Safety(nm, nk, cs);
    var s := Exec(Init(nm, nk), cs);
    MailboxOccurrences(s, id, |s.mailboxes|);
    MutexOccurrences(s, id, |s.mutexes|);
    assert TaskOk(s, id);
  }

  // ------------------------------------------------------ no lost wakeup

  /** If receivers wait, every stored message has a woken receiver on its way;
      if senders wait, every free slot has a woken sender on its way. */
  lemma NoLostWakeup(nm: nat, nk: nat, cs: seq<Command>, m: nat)
    requires Legal(Init(nm, nk), cs) && m < nm
    ensures var s := Exec(Init(nm, nk), cs);
            var mb := s.mailboxes[m];
            && (mb.waitRecv != [] ==> |mb.ring| <= |Woken(s, RecvFrom(m))|)
            && (mb.waitSend != [] ==> QUEUE_SLOTS - |mb.ring| <= |Woken(s, SendTo(m))|)
            && (mb.waitRecv != [] && mb.waitSend != [] ==>
                  QUEUE_SLOTS <= |Woken(s, RecvFrom(m)) + Woken(s, SendTo(m))|)
  {
    Safety(nm, nk, cs);
    var s := Exec(Init(nm, nk), cs);
    hide Exec;
    assert MailboxOk(s, m);
    DisjointSize(Woken(s, RecvFrom(m)), Woken(s, SendTo(m)));
  }

  lemma DisjointSize(a: set<nat>, b: set<nat>)
    requires a !! b
    ensures |a + b| == |a| + |b|
  {
  }

  /** A free mutex with waiters always has a woken waiter yet to retry, and
      the owner never waits for its own mutex. */
  lemma MutexNeverStranded(nm: nat, nk: nat, cs: seq<Command>, k: nat)
    requires Legal(Init(nm, nk), cs) && k < nk
    ensures var s := Exec(Init(nm, nk), cs);
            var mx := s.mutexes[k];
            && (mx.owner == NONE && mx.wait != [] ==>
                  exists id :: 0 <= id < MAX_TASKS && IsReady(s, id) && s.pc[id] == InCall(LockOn(k)))
            && mx.owner !in mx.wait
  {
    Safety(nm, nk, cs);
    var s := Exec(Init(nm, nk), cs);
    assert MutexOk(s, k);
    if Woken(s, LockOn(k)) != {} {
      var id :| id in Woken(s, LockOn(k));
      assert IsReady(s, id);
    }
  }

  // -------------------------------------------- wakes and blocks that count

  /** A queue only ever loses its head, and that head really is woken: it was
      BLOCKED before the step and is READY after it. */
  lemma EveryPopWakes(nm: nat, nk: nat, cs: seq<Command>, c: Command, p: Place)
    requires Legal(Init(nm, nk), cs) && Enabled(Exec(Init(nm, nk), cs), c)
    ensures var s := Exec(Init(nm, nk), cs);
            var t := Apply(s, c).0;
            |Queue(t, p)| < |Queue(s, p)| ==>
              && Queue(t, p) == Queue(s, p)[1..]
              && IsBlocked(s, Queue(s, p)[0]) && IsReady(t, Queue(s, p)[0])
              && t.sched.totalWakes == Inc32(s.sched.totalWakes)
  {
    Safety(nm, nk, cs);
    var s := Exec(Init(nm, nk), cs);
    hide Apply, Enabled, Exec, Init, ObjectInv, CountInv;
    if |Queue(Apply(s, c).0, p)| < |Queue(s, p)| {
      PopWakes(s, c, p);
    }
  }

  lemma PopWakes(s: State, c: Command, p: Place)
    requires WaitInv(s) && |Queue(Apply(s, c).0, p)| < |Queue(s, p)|
    ensures var t := Apply(s, c).0;
            && Queue(t, p) == Queue(s, p)[1..]
            && IsBlocked(s, Queue(s, p)[0]) && IsReady(t, Queue(s, p)[0])
            && t.sched.totalWakes == Inc32(s.sched.totalWakes)
  {
    hide Block, Tick, PickSwitch, Exit, Create, SetPriority;
    assert QueueOk(s, p) && Queue(s, p)[0] in Queue(s, p);
  }

  /** The "nobody else runnable" way out of `ttask_block` is never taken. */
  lemma FallbackNeverTaken(nm: nat, nk: nat, cs: seq<Command>, c: Command)
    requires Legal(Init(nm, nk), cs) && Enabled(Exec(Init(nm, nk), cs), c)
    ensures var s := Exec(Init(nm, nk), cs);
            Apply(s, c).1.Waiting? ==> !BlockFallsBack(s.sched) && IsBlocked(Apply(s, c).0, s.sched.current)
  {
    hide Exec, Init, Legal, Inv, Apply, Enabled, BlockFallsBack;
    Safety(nm, nk, cs);
    var s := Exec(Init(nm, nk), cs);
    if Apply(s, c).1.Waiting? {
      WaitingParks(s, c);
    }
  }

  lemma WaitingParks(s: State, c: Command)
    requires Inv(s) && Enabled(s, c) && Apply(s, c).1.Waiting?
    ensures !BlockFallsBack(s.sched) && IsBlocked(Apply(s, c).0, s.sched.current)
  {
    ParkedNotFallback(s);
    hide BlockFallsBack, ObjectInv, CountInv;
  }

  /** `total_blocks - total_wakes` is the number of BLOCKED tasks. */
  lemma BlocksMinusWakes(nm: nat, nk: nat, cs: seq<Command>)
    requires Legal(Init(nm, nk), cs)
    ensures var s := Exec(Init(nm, nk), cs);
            |BlockedSet(s)| == (s.sched.totalBlocks + TWO32 - s.sched.totalWakes) % TWO32
  {
    hide Exec, Init, Legal, Inv;
    Safety(nm, nk, cs);
    CountOf(Exec(Init(nm, nk), cs));
  }

  lemma CountOf(s: State)
    requires Inv(s)
    ensures |BlockedSet(s)| == (s.sched.totalBlocks + TWO32 - s.sched.totalWakes) % TWO32
  {
    hide WaitInv, ObjectInv, BlockedSet;
  }

  // ----------------------------- why slot 0 must not block: exact condition

  /** Queue membership and the BLOCKED state agree for every task. */
  ghost predicate QueuesExact(s: State)
    requires Wellformed(s)
  {
    && (forall p :: QueueOk(s, p))
    && (forall id :: 0 <= id < MAX_TASKS ==> TaskOk(s, id))
  }

  /** A task that parks keeps queues and states in agreement if and only if
      some other task is READY at that moment. */
  lemma ParkExactIff(s: State, t: State, p: Place)
    requires Wellformed(s) && Wellformed(t) && QueuesExact(s) && IsReady(s, s.sched.current)
    requires ParkStep(s, t, p) && |Queue(s, p)| < WAIT_MAX
    ensures QueuesExact(t) <==> exists j :: 0 <= j < MAX_TASKS && j != s.sched.current && IsReady(s, j)
  {
    BlockFallsBackIff(s.sched);
    var self := s.sched.current;
    assert QueueOk(s, p);
    assert self !in Queue(s, p) && self in Queue(t, p);
    if BlockFallsBack(s.sched) {
      assert !QueueOk(t, p);
    } else {
      var j :| 0 <= j < MAX_TASKS && j != self && s.sched.tasks[j].state.Ready?;
      assert IsReady(s, j);
      forall q ensures QueueOk(t, q) {
        assert QueueOk(s, q);
      }
      forall id | 0 <= id < MAX_TASKS ensures TaskOk(t, id) {
        assert TaskOk(s, id);
      }
    }
  }

  /** The idle task alone receiving from an empty mailbox: it stays READY and
      stays in the queue. */
  lemma IdleAloneBreaks()
    ensures var s := Init(1, 0);
            var t := Apply(s, Recv(0)).0;
            && Apply(s, Recv(0)).1.Waiting?
            && IsReady(t, 0) && 0 in t.mailboxes[0].waitRecv && !QueuesExact(t)
  {
    var s := Init(1, 0);
    var t := Apply(s, Recv(0)).0;
    InitInv(1, 0);
    hide Scan;
    forall j | 0 <= j < MAX_TASKS && j != 0 ensures !IsReady(s, j) {
    }
    assert ParkStep(s, t, RecvFrom(0));
    ParkExactIff(s, t, RecvFrom(0));
    BlockFallsBackIff(s.sched);
  }
}
