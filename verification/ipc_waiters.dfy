/**
  Wait queues over whole runs: who waits is served in the order in which they came,
  and exactly when the call at the other end succeeds.
*/
module IpcWaiters {
  import opened Words
  import opened Tasks
  import opened Ipc
  import opened IpcSafety

  /** The task that joins the queue at `p` in this step, if any. */
  ghost function Joined(s: State, c: Command, p: Place): seq<nat>
    requires Wellformed(s)
  {
    if Apply(s, c).1.Waiting? && PlaceOf(c) == InCall(p) then [s.sched.current] else []
  }

  /** The task that leaves it: the longest waiting one, when the queue gets shorter. */
  ghost function Left(s: State, c: Command, p: Place): seq<nat>
    requires Wellformed(s)
  {
    if |Queue(Apply(s, c).0, p)| < |Queue(s, p)| then [Queue(s, p)[0]] else []
  }

  /** A queue stays, gets the running task at its end, or loses its first. */
  lemma QueueStep(s: State, c: Command, p: Place)
    requires Wellformed(s)
    ensures var q, q' := Queue(s, p), Queue(Apply(s, c).0, p);
            || (Joined(s, c, p) == [] && q' == q)
            || (Joined(s, c, p) == [s.sched.current] && q' == q + [s.sched.current])
            || (Joined(s, c, p) == [] && q != [] && q' == q[1..])
  {
    hide Block, Wake, Tick, PickSwitch, Exit, Create, SetPriority, Inc32, Dec32;
  }

  lemma StepInOrder(s: State, c: Command, p: Place)
    requires Wellformed(s)
    ensures Queue(s, p) + Joined(s, c, p) == Left(s, c, p) + Queue(Apply(s, c).0, p)
  {
    hide Apply, Queue, Joined;
    QueueStep(s, c, p);
    var q := Queue(s, p);
    if q != [] {
      assert [q[0]] + q[1..] == q;
    }
  }

  // -------------------------------------------------------------- whole runs

  ghost function AllJoined(s: State, cs: seq<Command>, p: Place): seq<nat>
    requires Wellformed(s)
  {
    if cs == [] then []
    else
      var n := |cs| - 1;
      AllJoined(s, cs[..n], p) + Joined(Exec(s, cs[..n]), cs[n], p)
  }

  ghost function AllLeft(s: State, cs: seq<Command>, p: Place): seq<nat>
    requires Wellformed(s)
  {
    if cs == [] then []
    else
      var n := |cs| - 1;
      AllLeft(s, cs[..n], p) + Left(Exec(s, cs[..n]), cs[n], p)
  }

  /** In every run the tasks that joined a queue are, in order, those that left it and
      then those still in it. */
  lemma {:induction false} WaitersFifo(nm: nat, nk: nat, cs: seq<Command>, p: Place)
    ensures var s := Init(nm, nk);
            AllJoined(s, cs, p) == AllLeft(s, cs, p) + Queue(Exec(s, cs), p)
  {
    hide Init, Apply, Queue, Joined, Left;
    var s := Init(nm, nk);
    if cs == [] {
      NobodyWaits(nm, nk, p);
    } else {
      var n := |cs| - 1;
      var t := Exec(s, cs[..n]);
      WaitersFifo(nm, nk, cs[..n], p);
      StepInOrder(t, cs[n], p);
      Regroup(AllLeft(s, cs[..n], p), Queue(t, p), Joined(t, cs[n], p), Left(t, cs[n], p), Queue(Exec(s, cs), p));
    }
  }

  lemma NobodyWaits(nm: nat, nk: nat, p: Place)
    ensures Queue(Init(nm, nk), p) == []
  {
  }

  lemma Regroup(a: seq<nat>, q: seq<nat>, j: seq<nat>, l: seq<nat>, q': seq<nat>)
    requires q + j == l + q'
    ensures a + q + j == (a + l) + q'
  {
    assert a + q + j == a + (q + j) && (a + l) + q' == a + (l + q');
  }

  // ------------------------------------------------------------- exactly when

  /** The call at the other end of the queue succeeded: a message was stored for
      receivers, a slot was freed for senders, the mutex was given up. */
  ghost predicate Served(s: State, c: Command, p: Place)
    requires Wellformed(s)
  {
    var (t, o) := Apply(s, c);
    match p
    case RecvFrom(m) => c.Send? && c.m == m && o.Done?
    case SendTo(m) => c.Recv? && c.m == m && o.Received?
    case LockOn(k) => c.Unlock? && c.k == k && o.Done? && k < |t.mutexes| && t.mutexes[k].owner == NONE
  }

  /** Somebody leaves a queue if and only if it is not empty and is served. */
  lemma LeavesIff(s: State, c: Command, p: Place)
    requires Wellformed(s)
    ensures Left(s, c, p) != [] <==> Queue(s, p) != [] && Served(s, c, p)
  {
    hide Block, Wake, Tick, PickSwitch, Exit, Create, SetPriority, Inc32, Dec32, Shape;
    RunningId(s);
  }

  lemma RunningId(s: State)
    requires Wellformed(s)
    ensures s.sched.current != NONE && Shape(s.sched)
  {
  }

  /** What each call answers, by the state it finds. */
  lemma Outcomes(s: State, c: Command)
    requires Wellformed(s)
    ensures c.Send? && c.m < |s.mailboxes| ==>
              var mb, o := s.mailboxes[c.m], Apply(s, c).1;
              && (o.Done? <==> |mb.ring| < 8) && (o.Waiting? <==> |mb.ring| >= 8 && |mb.waitSend| < 16)
              && (o.Failed? <==> |mb.ring| >= 8 && |mb.waitSend| >= 16)
    ensures c.Recv? && c.m < |s.mailboxes| ==>
              var mb, o := s.mailboxes[c.m], Apply(s, c).1;
              && (o.Received? <==> mb.ring != []) && (o.Waiting? <==> mb.ring == [] && |mb.waitRecv| < 16)
              && (o.Failed? <==> mb.ring == [] && |mb.waitRecv| >= 16)
    ensures c.Lock? && c.k < |s.mutexes| ==>
              var mx, o := s.mutexes[c.k], Apply(s, c).1;
              var ours := mx.owner == NONE || mx.owner == s.sched.current;
              && (o.Done? <==> ours) && (o.Waiting? <==> !ours && |mx.wait| < 16)
              && (o.Failed? <==> !ours && |mx.wait| >= 16)
    ensures c.Unlock? && c.k < |s.mutexes| ==>
              var mx, o := s.mutexes[c.k], Apply(s, c).1;
              (o.Done? <==> mx.owner == s.sched.current) && (o.Failed? <==> mx.owner != s.sched.current)
    ensures (c.Send? || c.Recv?) && c.m >= |s.mailboxes| ==> Apply(s, c) == (s, Failed)
    ensures (c.Lock? || c.Unlock?) && c.k >= |s.mutexes| ==> Apply(s, c) == (s, Failed)
  {
    hide Block, Wake, Tick, PickSwitch, Exit, Create, SetPriority, Inc32, Dec32;
  }
}
