/**
  The IPC records of `tipc_core.h` as they are updated in place: fixed-size
  rings addressed modulo their length, and the calls of `tipc.c` on them. Each
  method is proved to take the records through one step of module `Ipc`.
*/
module IpcObjects {
  import opened Words
  import opened Tasks
  import opened TaskTables
  import opened Ipc

  /** Slot `i` places after `head` in a ring of `size` slots. */
  function RingSlot(head: nat, i: nat, size: nat): (r: nat)
    requires head < size && i < size
    ensures r == if head + i < size then head + i else head + i - size
  {
    (head + i) % size
  }

  /** Oldest-first contents of a ring of `n` elements starting at `head`. */
  function RingContents<T>(a: seq<T>, head: nat, n: nat): (r: seq<T>)
    requires head < |a| && n <= |a|
    ensures |r| == n && forall i :: 0 <= i < n ==> r[i] == a[RingSlot(head, i, |a|)]
  {
    seq(n, i requires 0 <= i < n => a[RingSlot(head, i, |a|)])
  }

  lemma RingPush<T>(a: seq<T>, head: nat, n: nat, x: T)
    requires head < |a| && n < |a|
    ensures RingContents(a[(head + n) % |a| := x], head, n + 1) == RingContents(a, head, n) + [x]
  {
    assert (head + n) % |a| == RingSlot(head, n, |a|);
    hide RingSlot;
  }

  lemma RingPop<T>(a: seq<T>, head: nat, n: nat)
    requires head < |a| && 0 < n <= |a|
    ensures RingContents(a, head, n)[0] == a[head]
    ensures RingContents(a, (head + 1) % |a|, n - 1) == RingContents(a, head, n)[1..]
  {
    var h := (head + 1) % |a|;
    assert h == if head + 1 == |a| then 0 else head + 1;
    hide RingSlot;
    forall i | 0 <= i < n - 1 ensures RingSlot(h, i, |a|) == RingSlot(head, i + 1, |a|) {
    }
  }

  /** `tipc_waitq_t` */
  class WaitQueue {
    const id: array<nat>
    var head: nat
    var n: nat

    ghost predicate Valid()
      reads this
    {
      id.Length == WAIT_MAX && head < WAIT_MAX && n <= WAIT_MAX
    }

    ghost function View(): (q: seq<nat>)
      reads this, id
      requires Valid()
      ensures |q| == n
    {
      RingContents(id[..], head, n)
    }

    constructor ()
      ensures Valid() && fresh(id) && View() == []
    {
      id := new nat[WAIT_MAX];
      head, n := 0, 0;
    }

    /** `tipc_core_waitq_push` */
    method Push(task: nat) returns (ok: bool)
      requires Valid()
      modifies this, id
      ensures Valid() && ok == (|old(View())| < WAIT_MAX)
      ensures View() == if ok then old(View()) + [task] else old(View())
    {
      if n >= WAIT_MAX {
        return false;
      }
      RingPush(id[..], head, n, task);
      id[(head + n) % WAIT_MAX] := task;
      n := n + 1;
      return true;
    }

    /** `tipc_core_waitq_pop` */
    method Pop() returns (task: nat)
      requires Valid()
      modifies this
      ensures Valid()
      ensures old(View()) == [] ==> task == NONE && View() == []
      ensures old(View()) != [] ==> task == old(View())[0] && View() == old(View())[1..]
    {
      if n == 0 {
        return NONE;
      }
      RingPop(id[..], head, n);
      task := id[head];
      head := (head + 1) % WAIT_MAX;
      n := n - 1;
    }
  }

  /** Ids in a queue are slots of the task table, so none of them is NONE. */
  ghost predicate IdsOk(q: seq<nat>) {
    forall i :: 0 <= i < |q| ==> q[i] < MAX_TASKS
  }

  /** `tipc_mailbox_t` */
  class MailboxRecord {
    const slot: array<Msg>
    var head: nat
    var count: nat
    const waitSend: WaitQueue
    const waitRecv: WaitQueue

    ghost predicate Valid()
      reads this, waitSend, waitRecv
    {
      && slot.Length == QUEUE_SLOTS && head < QUEUE_SLOTS && count <= QUEUE_SLOTS
      && waitSend.Valid() && waitRecv.Valid()
      && waitSend != waitRecv && waitSend.id != waitRecv.id
    }

    ghost function View(): (mb: Mailbox)
      reads this, slot, waitSend, waitRecv, waitSend.id, waitRecv.id
      requires Valid()
    {
      Mailbox(RingContents(slot[..], head, count), waitSend.View(), waitRecv.View())
    }

    constructor ()
      ensures Valid() && fresh(slot) && fresh(waitSend) && fresh(waitRecv) && fresh(waitSend.id) && fresh(waitRecv.id)
      ensures View() == Mailbox([], [], [])
    {
      slot := new Msg[QUEUE_SLOTS](_ => Msg(0, 0, []));
      head, count := 0, 0;
      waitSend := new WaitQueue();
      waitRecv := new WaitQueue();
    }

    /** One pass of the loop in `tipc_send`. */
    method SendOnce(tt: TaskTable, msg: Msg) returns (o: Outcome)
      requires Valid() && tt.Valid() && IdsOk(View().waitRecv)
      modifies this, slot, waitSend, waitSend.id, waitRecv, waitRecv.id, tt, tt.tasks
      ensures Valid() && tt.Valid()
      ensures (View(), tt.View(), o) == SendStep(old(View()), old(tt.View()), msg)
    {
      if count < QUEUE_SLOTS {
        RingPush(slot[..], head, count, msg.(sender := tt.current));
        slot[(head + count) % QUEUE_SLOTS] := msg.(sender := tt.current);
        count := count + 1;
        var w := waitRecv.Pop();
        if w != NONE {
          tt.WakeTask(w);
        }
        return Done;
      }
      var ok := waitSend.Push(tt.current);
      if !ok {
        return Failed;
      }
      var parked := tt.BlockCurrent();
      return Waiting;
    }

    /** One pass of the loop in `tipc_recv`. */
    method RecvOnce(tt: TaskTable) returns (o: Outcome)
      requires Valid() && tt.Valid() && IdsOk(View().waitSend)
      modifies this, waitSend, waitSend.id, waitRecv, waitRecv.id, tt, tt.tasks
      ensures Valid() && tt.Valid()
      ensures (View(), tt.View(), o) == RecvStep(old(View()), old(tt.View()))
    {
      if count != 0 {
        RingPop(slot[..], head, count);
        o := Received(slot[head]);
        head := (head + 1) % QUEUE_SLOTS;
        count := count - 1;
        var w := waitSend.Pop();
        if w != NONE {
          tt.WakeTask(w);
        }
        return;
      }
      var ok := waitRecv.Push(tt.current);
      if !ok {
        return Failed;
      }
      var parked := tt.BlockCurrent();
      return Waiting;
    }
  }

  /** `tipc_mutex_t` */
  class MutexRecord {
    var owner: nat
    var depth: nat
    const wait: WaitQueue

    ghost predicate Valid()
      reads this, wait
    {
      wait.Valid()
    }

    ghost function View(): (m: Mutex)
      reads this, wait, wait.id
      requires Valid()
    {
      Mutex(owner, depth, wait.View())
    }

    constructor ()
      ensures Valid() && fresh(wait) && fresh(wait.id) && View() == Mutex(NONE, 0, [])
    {
      owner, depth := NONE, 0;
      wait := new WaitQueue();
    }

    /** One pass of the loop in `tipc_mutex_lock`. */
    method LockOnce(tt: TaskTable) returns (o: Outcome)
      requires Valid() && tt.Valid()
      modifies this, wait, wait.id, tt, tt.tasks
      ensures Valid() && tt.Valid()
      ensures (View(), tt.View(), o) == LockStep(old(View()), old(tt.View()))
    {
      var self := tt.current;
      if owner == NONE {
        owner := self;
        depth := 1;
        return Done;
      }
      if owner == self {
        depth := Inc32(depth);
        return Done;
      }
      var ok := wait.Push(self);
      if !ok {
        return Failed;
      }
      var parked := tt.BlockCurrent();
      return Waiting;
    }

    /** `tipc_mutex_unlock` */
    method Unlock(tt: TaskTable) returns (o: Outcome)
      requires Valid() && tt.Valid() && IdsOk(View().wait)
      modifies this, wait, tt, tt.tasks
      ensures Valid() && tt.Valid()
      ensures (View(), tt.View(), o) == UnlockStep(old(View()), old(tt.View()))
    {
      if owner != tt.current {
        return Failed;
      }
      depth := Dec32(depth);
      if depth == 0 {
        owner := NONE;
        var w := wait.Pop();
        if w != NONE {
          tt.WakeTask(w);
        }
      }
      return Done;
    }
  }
}
