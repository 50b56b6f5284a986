/**
  Laws relating what went into a run to what came out of it: exactly-once FIFO
  delivery, the balance of the recursive mutex, and how many tasks it takes to
  exhaust a wait list.
*/
module IpcRuns {
  import opened Finite
  import opened Words
  import opened Tasks
  import opened Ipc
  import opened IpcSafety

  // ------------------------------------------------- exactly-once delivery

  /** The message a successful `tipc_send` on `m` put in, stamped with its sender. */
  function SentBy(e: Event, m: nat): (r: seq<Msg>) {
    if e.command.Send? && e.command.m == m && e.outcome.Done?
    then [Msg(e.actor, e.command.len, e.command.data)] else []
  }

  function DeliveredBy(e: Event, m: nat): (r: seq<Msg>) {
    if e.command.Recv? && e.command.m == m && e.outcome.Received? then [e.outcome.msg] else []
  }

  /** Messages accepted by mailbox `m`, in order. */
  function Sent(es: seq<Event>, m: nat): (r: seq<Msg>) {
    if es == [] then [] else Sent(es[..|es| - 1], m) + SentBy(es[|es| - 1], m)
  }

  /** Messages handed out by mailbox `m`, in order. */
  function Delivered(es: seq<Event>, m: nat): (r: seq<Msg>) {
    if es == [] then [] else Delivered(es[..|es| - 1], m) + DeliveredBy(es[|es| - 1], m)
  }

  lemma FifoStep(s: State, c: Command, m: nat)
    requires Wellformed(s) && m < |s.mailboxes|
    ensures var e := EventOf(s, c);
            DeliveredBy(e, m) + Apply(s, c).0.mailboxes[m].ring == s.mailboxes[m].ring + SentBy(e, m)
  {
    hide Block, Wake, Tick, PickSwitch, Exit, Create, SetPriority;
  }

  lemma FifoInit(nm: nat, nk: nat, m: nat)
    requires m < nm
    ensures m < |Init(nm, nk).mailboxes| && Init(nm, nk).mailboxes[m].ring == []
  {
  }

  lemma TraceSplit(s: State, cs: seq<Command>)
    requires Wellformed(s) && cs != []
    ensures var n := |cs| - 1;
            && Trace(s, cs)[..n] == Trace(s, cs[..n])
            && Trace(s, cs)[n] == EventOf(Exec(s, cs[..n]), cs[n])
  {
    hide Apply, EventOf;
  }

  /** Under every interleaving: delivered so far, followed by what the ring
      still holds, is exactly the sequence of accepted sends. */
  lemma {:induction false} ExactlyOnceFifo(nm: nat, nk: nat, cs: seq<Command>, m: nat)
    requires m < nm
    ensures var s := Init(nm, nk);
            Delivered(Trace(s, cs), m) + Exec(s, cs).mailboxes[m].ring == Sent(Trace(s, cs), m)
  {
    hide Apply, EventOf, Init, SentBy, DeliveredBy;
    var s := Init(nm, nk);
    if cs == [] {
      FifoInit(nm, nk, m);
    } else {
      var n := |cs| - 1;
      var t, e := Exec(s, cs[..n]), EventOf(Exec(s, cs[..n]), cs[n]);
      var before, after := t.mailboxes[m].ring, Exec(s, cs).mailboxes[m].ring;
      ExactlyOnceFifo(nm, nk, cs[..n], m);
      TraceSplit(s, cs);
      FifoStep(t, cs[n], m);
      var d := Delivered(Trace(s, cs[..n]), m);
      assert Delivered(Trace(s, cs), m) == d + DeliveredBy(e, m);
      assert Sent(Trace(s, cs), m) == (d + before) + SentBy(e, m);
      assert d + (DeliveredBy(e, m) + after) == (d + DeliveredBy(e, m)) + after;
      assert d + (before + SentBy(e, m)) == (d + before) + SentBy(e, m);
    }
  }

  // ------------------------------------------------- recursive mutex balance

  function BalanceOf(e: Event, k: nat, id: nat): (r: int) {
    if e.actor != id || !e.outcome.Done? then 0
    else if e.command == Lock(k) then 1
    else if e.command == Unlock(k) then -1
    else 0
  }

  /** Successful locks minus successful unlocks of mutex `k` by task id `id`. */
  function Balance(es: seq<Event>, k: nat, id: nat): (r: int) {
    if es == [] then 0 else Balance(es[..|es| - 1], k, id) + BalanceOf(es[|es| - 1], k, id)
  }

  /** The recursion depth `id` has on the mutex. */
  function Held(mx: Mutex, id: nat): (r: nat) {
    if mx.owner == id then mx.depth else 0
  }

  ghost predicate Unwrapped(mx: Mutex, bound: nat) {
    && (mx.owner != NONE ==> 1 <= mx.depth <= bound)
    && (mx.owner == NONE ==> mx.depth == 0)
  }

  lemma MutexStep(s: State, c: Command, k: nat, id: nat, bound: nat)
    requires Wellformed(s) && k < |s.mutexes| && id < MAX_TASKS
    requires Unwrapped(s.mutexes[k], bound) && bound + 1 < TWO32
    ensures var t := Apply(s, c).0;
            && Held(t.mutexes[k], id) == Held(s.mutexes[k], id) + BalanceOf(EventOf(s, c), k, id)
            && Unwrapped(t.mutexes[k], bound + 1)
  {
    hide Block, Wake, Tick, PickSwitch, Exit, Create, SetPriority;
  }

  lemma StartsFree(nm: nat, nk: nat, k: nat, id: nat)
    requires k < nk && id < MAX_TASKS
    ensures var mx := Init(nm, nk).mutexes[k]; Held(mx, id) == 0 && mx.depth == 0 && mx.owner == NONE
  {
  }

  /** In every run of fewer than 2^32 steps the depth of the owner is its
      balance of locks and unlocks, and everybody else's balance is zero. */
  lemma {:induction false} MutexBalance(nm: nat, nk: nat, cs: seq<Command>, k: nat, id: nat)
    requires k < nk && id < MAX_TASKS && |cs| < TWO32
    ensures var s := Init(nm, nk);
            && Balance(Trace(s, cs), k, id) == Held(Exec(s, cs).mutexes[k], id)
            && Unwrapped(Exec(s, cs).mutexes[k], |cs|)
  {
    hide Apply, EventOf, Init, Held, BalanceOf;
    var s := Init(nm, nk);
    if cs == [] {
      StartsFree(nm, nk, k, id);
    } else {
      var n := |cs| - 1;
      MutexBalance(nm, nk, cs[..n], k, id);
      TraceSplit(s, cs);
      MutexStep(Exec(s, cs[..n]), cs[n], k, id, n);
    }
  }

  lemma MutexStepWrapped(s: State, c: Command, k: nat, id: nat)
    requires Wellformed(s) && k < |s.mutexes| && id < MAX_TASKS && s.mutexes[k].depth < TWO32
    ensures var t := Apply(s, c).0;
            && t.mutexes[k].depth < TWO32
            && (Held(s.mutexes[k], id) + BalanceOf(EventOf(s, c), k, id)) % TWO32 == Held(t.mutexes[k], id)
  {
    hide Block, Wake, Tick, PickSwitch, Exit, Create, SetPriority;
  }

  lemma AddMod(a: int, b: int, h: nat)
    requires a % TWO32 == h
    ensures (a + b) % TWO32 == (h + b) % TWO32
  {
  }

  /** In runs of any length the same law holds modulo 2^32, the width of `depth`. */
  lemma {:induction false} MutexBalanceWrapped(nm: nat, nk: nat, cs: seq<Command>, k: nat, id: nat)
    requires k < nk && id < MAX_TASKS
    ensures var s := Init(nm, nk);
            && Balance(Trace(s, cs), k, id) % TWO32 == Held(Exec(s, cs).mutexes[k], id)
            && Exec(s, cs).mutexes[k].depth < TWO32
  {
    hide Apply, EventOf, Init, Held, BalanceOf;
    var s := Init(nm, nk);
    if cs == [] {
      StartsFree(nm, nk, k, id);
    } else {
      var n := |cs| - 1;
      var t := Exec(s, cs[..n]);
      var b, e := Balance(Trace(s, cs[..n]), k, id), BalanceOf(EventOf(t, cs[n]), k, id);
      MutexBalanceWrapped(nm, nk, cs[..n], k, id);
      MutexStepWrapped(t, cs[n], k, id);
      AddMod(b, e, Held(t.mutexes[k], id));
      assert Balance(Trace(s, cs), k, id) == b + e by { TraceSplit(s, cs); }
    }
  }

  // ----------------------------------------------- exhausting a wait list

  /** Task ids that have called at place `p` during the run. */
  ghost function Callers(es: seq<Event>, p: Place): (r: set<nat>) {
    if es == [] then {}
    else Callers(es[..|es| - 1], p) +
         (if PlaceOf(es[|es| - 1].command) == InCall(p) then {es[|es| - 1].actor} else {})
  }

  /** Task ids recorded in the object behind place `p`. */
  ghost function Recorded(s: State, p: Place): (r: set<nat>) {
    Ids(Queue(s, p)) +
    (if p.LockOn? && p.k < |s.mutexes| && s.mutexes[p.k].owner != NONE then {s.mutexes[p.k].owner} else {})
  }

  lemma RecordedStep(s: State, c: Command, p: Place)
    requires Wellformed(s)
    ensures Recorded(Apply(s, c).0, p)
         <= Recorded(s, p) + (if PlaceOf(c) == InCall(p) then {s.sched.current} else {})
  {
    hide Block, Wake, Tick, PickSwitch, Exit, Create, SetPriority;
  }

  lemma {:induction false} RecordedAreCallers(nm: nat, nk: nat, cs: seq<Command>, p: Place)
    ensures Recorded(Exec(Init(nm, nk), cs), p) <= Callers(Trace(Init(nm, nk), cs), p)
  {
    var s := Init(nm, nk);
    if cs != [] {
      hide Apply, Recorded, Init, PlaceOf;
      var n := |cs| - 1;
      RecordedAreCallers(nm, nk, cs[..n], p);
      TraceSplit(s, cs);
      RecordedStep(Exec(s, cs[..n]), cs[n], p);
    }
  }

  /** How many different callers it takes before a call can be refused. */
  function Capacity(p: Place): nat {
    if p.LockOn? then WAIT_MAX + 1 else WAIT_MAX
  }

  /** A refused call leaves evidence of more than `Capacity` task ids. */
  lemma RefusalNeedsMany(s: State, c: Command, p: Place)
    requires Inv(s) && PlaceOf(c) == InCall(p) && Apply(s, c).1.Failed?
    requires match p case LockOn(k) => k < |s.mutexes| case _ => p.m < |s.mailboxes|
    ensures |Recorded(s, p) + {s.sched.current}| == Capacity(p) + 1
  {
    hide Apply, Inv, Queue, Ids;
    RefusedWhenFull(s, c, p);
    var w, self := Ids(Queue(s, p)), s.sched.current;
    if p.LockOn? {
      assert Recorded(s, p) + {self} == w + {s.mutexes[p.k].owner} + {self};
    } else {
      assert Recorded(s, p) + {self} == w + {self};
    }
  }

  /** A call is refused when its wait list holds 16 other tasks, and for a mutex
      the owner is one more. */
  lemma RefusedWhenFull(s: State, c: Command, p: Place)
    requires Inv(s) && PlaceOf(c) == InCall(p) && Apply(s, c).1.Failed?
    requires match p case LockOn(k) => k < |s.mutexes| case _ => p.m < |s.mailboxes|
    ensures |Ids(Queue(s, p))| == WAIT_MAX && s.sched.current !in Ids(Queue(s, p))
    ensures p.LockOn? ==>
              var o := s.mutexes[p.k].owner; o != NONE && o != s.sched.current && o !in Ids(Queue(s, p))
  {
    hide Block, Wake, CountInv;
    assert QueueOk(s, p);
    NoDupSize(Queue(s, p));
    if p.LockOn? {
      assert MutexOk(s, p.k);
    }
  }

  /** With at most 16 senders (or receivers) a mailbox never refuses, and with
      at most 17 contenders a mutex never refuses. */
  lemma FewCallersNeverRefused(nm: nat, nk: nat, cs: seq<Command>, c: Command, p: Place)
    requires Legal(Init(nm, nk), cs) && PlaceOf(c) == InCall(p)
    requires match p case LockOn(k) => k < nk case _ => p.m < nm
    requires var s := Exec(Init(nm, nk), cs);
             |Callers(Trace(Init(nm, nk), cs) + [EventOf(s, c)], p)| <= Capacity(p)
    ensures !Apply(Exec(Init(nm, nk), cs), c).1.Failed?
  {
    var s := Exec(Init(nm, nk), cs);
    var before := Trace(Init(nm, nk), cs);
    var es := before + [EventOf(s, c)];
    Safety(nm, nk, cs);
    RecordedAreCallers(nm, nk, cs, p);
    assert es[..|es| - 1] == before;
    hide Inv, Exec, Trace, Init, Recorded, Capacity, Legal, PlaceOf, Apply;
    assert Callers(es, p) == Callers(before, p) + {s.sched.current};
    if Apply(s, c).1.Failed? {
      RefusalNeedsMany(s, c, p);
      SubsetSize(Recorded(s, p) + {s.sched.current}, Callers(es, p));
      assert false;
    }
  }
}
