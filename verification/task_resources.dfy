/**
  Kernel stacks and address spaces over whole runs of the scheduler: what a task
  owns is given back when its slot is taken again, once, and never earlier.
*/
module TaskResources {
  import opened Words
  import opened Tasks
  import opened Ipc
  import opened IpcSafety

  datatype Kind = Stack | Space

  function Owned(t: Task, kind: Kind): nat { if kind.Stack? then t.stack else t.space }

  function OwnedBy(ts: seq<Task>, kind: Kind): (r: seq<nat>)
    ensures |r| == |ts| && forall i :: 0 <= i < |ts| ==> r[i] == Owned(ts[i], kind)
  {
    seq(|ts|, i requires 0 <= i < |ts| => Owned(ts[i], kind))
  }

  function One(x: nat): multiset<nat> { if x == 0 then multiset{} else multiset{x} }

  /** Everything of this kind that is owned by some slot. */
  ghost function Held(s: Sched, kind: Kind): multiset<nat> { multiset(OwnedBy(s.tasks, kind))[0 := 0] }

  /** What a command hands to a task, and what it takes from one that exited. */
  function Received(s: State, c: Command, kind: Kind): (x: nat)
    requires Wellformed(s)
  {
    if c.CreateTask? && FirstReusable(s.sched.tasks, 0) < MAX_TASKS
    then Owned(FreshTask(c.priority, c.stack, c.space), kind) else 0
  }

  function GivenBack(s: State, c: Command, kind: Kind): (x: nat)
    requires Wellformed(s)
  {
    if c.CreateTask? then if kind.Stack? then Reclaimed(s.sched).0 else Reclaimed(s.sched).1 else 0
  }

  /** A free slot owns nothing. */
  ghost predicate FreeOwnsNothing(s: Sched) {
    forall i :: 0 <= i < |s.tasks| && s.tasks[i].state.Free? ==> s.tasks[i].stack == 0 && s.tasks[i].space == 0
  }

  // ------------------------------------------------------------- one command

  /** Nothing changes hands, and no slot becomes free. */
  ghost predicate SameOwners(s: Sched, t: Sched) {
    && |t.tasks| == |s.tasks|
    && forall i :: 0 <= i < |s.tasks| ==>
         && t.tasks[i].stack == s.tasks[i].stack && t.tasks[i].space == s.tasks[i].space
         && (t.tasks[i].state.Free? ==> s.tasks[i].state.Free?)
  }

  lemma SwitchSame(s: Sched)
    requires Shape(s)
    ensures SameOwners(s, PickSwitch(s))
  {
    hide PickNext;
  }

  lemma TickSame(s: Sched)
    requires Shape(s)
    ensures SameOwners(s, Tick(s))
  {
    SwitchSame(Charge(s));
    hide PickSwitch;
  }

  lemma BlockSame(s: Sched)
    requires Shape(s)
    ensures SameOwners(s, Block(s))
  {
    hide PickNext;
  }

  lemma ExitSame(s: Sched)
    requires Shape(s)
    ensures SameOwners(s, Exit(s))
  {
    SwitchSame(SetState(s, s.current, Exited));
    hide PickSwitch;
  }

  lemma WakeSame(q: seq<nat>, s: Sched)
    requires Shape(s)
    ensures SameOwners(s, WakeHead(q, s).1)
  {
  }

  /** Only creation moves anything. */
  lemma OthersSame(s: State, c: Command)
    requires Wellformed(s) && !c.CreateTask?
    ensures SameOwners(s.sched, Apply(s, c).0.sched)
  {
    hide Block, Tick, PickSwitch, Exit, WakeHead;
    BlockSame(s.sched);
    TickSame(s.sched);
    SwitchSame(s.sched);
    ExitSame(s.sched);
    match c
    case Send(m, _, _) => if m < |s.mailboxes| { WakeSame(s.mailboxes[m].waitRecv, s.sched); }
    case Recv(m) => if m < |s.mailboxes| { WakeSame(s.mailboxes[m].waitSend, s.sched); }
    case Unlock(k) => if k < |s.mutexes| { WakeSame(s.mutexes[k].wait, s.sched); }
    case _ =>
  }

  lemma SameHeld(s: Sched, t: Sched, kind: Kind)
    requires SameOwners(s, t)
    ensures Held(t, kind) == Held(s, kind) && (FreeOwnsNothing(s) ==> FreeOwnsNothing(t))
  {
    assert OwnedBy(t.tasks, kind) == OwnedBy(s.tasks, kind);
  }

  lemma MovedOne(a: seq<nat>, i: nat, x: nat)
    requires i < |a|
    ensures multiset(a[i := x])[0 := 0] + One(a[i]) == multiset(a)[0 := 0] + One(x)
  {
    assert multiset(a[i := x]) == multiset(a) - multiset{a[i]} + multiset{x};
  }

  lemma CreateMoves(s: State, c: Command, kind: Kind)
    requires Wellformed(s) && c.CreateTask? && FreeOwnsNothing(s.sched)
    ensures var t := Apply(s, c).0.sched;
            && FreeOwnsNothing(t)
            && Held(t, kind) + One(GivenBack(s, c, kind)) == Held(s.sched, kind) + One(Received(s, c, kind))
  {
    hide FirstReusable, SliceTicks, One;
    var ts, t := s.sched.tasks, Apply(s, c).0.sched;
    var i := FirstReusable(ts, 0);
    if i < MAX_TASKS {
      var made := FreshTask(c.priority, c.stack, c.space);
      assert t.tasks == ts[i := made];
      NoneOwned(s.sched, i, kind);
      MovedOne(OwnedBy(ts, kind), i, Owned(made, kind));
      assert OwnedBy(t.tasks, kind) == OwnedBy(ts, kind)[i := Owned(made, kind)];
    }
  }

  lemma NoneOwned(s: Sched, i: nat, kind: Kind)
    requires Shape(s) && FreeOwnsNothing(s) && i == FirstReusable(s.tasks, 0) < MAX_TASKS
    ensures Owned(s.tasks[i], kind) == if kind.Stack? then Reclaimed(s).0 else Reclaimed(s).1
  {
    hide FirstReusable;
  }

  lemma StepMoves(s: State, c: Command, kind: Kind)
    requires Wellformed(s) && FreeOwnsNothing(s.sched)
    ensures var t := Apply(s, c).0.sched;
            && FreeOwnsNothing(t)
            && Held(t, kind) + One(GivenBack(s, c, kind)) == Held(s.sched, kind) + One(Received(s, c, kind))
  {
    hide Held, FreeOwnsNothing, SameOwners;
    if c.CreateTask? {
      CreateMoves(s, c, kind);
    } else {
      OthersSame(s, c);
      SameHeld(s.sched, Apply(s, c).0.sched, kind);
      hide Apply;
    }
  }

  // -------------------------------------------------------------- whole runs

  ghost function AllReceived(s: State, cs: seq<Command>, kind: Kind): multiset<nat>
    requires Wellformed(s)
  {
    if cs == [] then multiset{}
    else
      var n := |cs| - 1;
      AllReceived(s, cs[..n], kind) + One(Received(Exec(s, cs[..n]), cs[n], kind))
  }

  ghost function AllGiven(s: State, cs: seq<Command>, kind: Kind): multiset<nat>
    requires Wellformed(s)
  {
    if cs == [] then multiset{}
    else
      var n := |cs| - 1;
      AllGiven(s, cs[..n], kind) + One(GivenBack(Exec(s, cs[..n]), cs[n], kind))
  }

  lemma NothingHeld(nm: nat, nk: nat, kind: Kind)
    ensures Held(Init(nm, nk).sched, kind) == multiset{} && FreeOwnsNothing(Init(nm, nk).sched)
  {
    var a := OwnedBy(Boot().tasks, kind);
    assert forall x :: x in multiset(a) ==> x in a && x == 0;
  }

  /** Under every interleaving, what tasks received is what they hold and what was
      given back: no stack and no address space is lost or given back twice. */
  lemma {:induction false} Conserved(nm: nat, nk: nat, cs: seq<Command>, kind: Kind)
    ensures var s := Init(nm, nk);
            && FreeOwnsNothing(Exec(s, cs).sched)
            && Held(Exec(s, cs).sched, kind) + AllGiven(s, cs, kind) == AllReceived(s, cs, kind)
  {
    hide Init, Held, Apply, FreeOwnsNothing, GivenBack, Received, One;
    var s := Init(nm, nk);
    if cs == [] {
      NothingHeld(nm, nk, kind);
    } else {
      var n := |cs| - 1;
      var t := Exec(s, cs[..n]);
      Conserved(nm, nk, cs[..n], kind);
      StepMoves(t, cs[n], kind);
      SumStep(Held(t.sched, kind), AllGiven(s, cs[..n], kind), AllReceived(s, cs[..n], kind),
              Held(Exec(s, cs).sched, kind), One(GivenBack(t, cs[n], kind)), One(Received(t, cs[n], kind)));
    }
  }

  lemma SumStep(h: multiset<nat>, g: multiset<nat>, r: multiset<nat>, h': multiset<nat>, x: multiset<nat>,
                y: multiset<nat>)
    requires h + g == r && h' + x == h + y
    ensures h' + (g + x) == r + y
  {
    assert h' + (g + x) == (h' + x) + g == (h + y) + g == (h + g) + y;
  }

  /** Every stack that `tmalloc` hands out is one that no task holds. */
  ghost predicate FreshStacks(s: State, cs: seq<Command>)
    requires Wellformed(s)
  {
    cs == [] ||
    (var n := |cs| - 1;
     FreshStacks(s, cs[..n]) &&
     Received(Exec(s, cs[..n]), cs[n], Stack) !in Held(Exec(s, cs[..n]).sched, Stack))
  }

  /** Then no two tasks ever share one. */
  lemma {:induction false} NoSharedStack(nm: nat, nk: nat, cs: seq<Command>, x: nat)
    requires FreshStacks(Init(nm, nk), cs)
    ensures Held(Exec(Init(nm, nk), cs).sched, Stack)[x] <= 1
  {
    hide Init, Held, Apply, GivenBack, Received;
    var s := Init(nm, nk);
    if cs == [] {
      NothingHeld(nm, nk, Stack);
    } else {
      var n := |cs| - 1;
      var t := Exec(s, cs[..n]);
      NoSharedStack(nm, nk, cs[..n], x);
      Conserved(nm, nk, cs[..n], Stack);
      StepMoves(t, cs[n], Stack);
      var h, h' := Held(t.sched, Stack), Held(Exec(s, cs).sched, Stack);
      var g, r := One(GivenBack(t, cs[n], Stack)), One(Received(t, cs[n], Stack));
      assert (h' + g)[x] == (h + r)[x];
    }
  }

  /** In every legal run, what a creation gives back belonged to a task that had
      exited, never to the running one. */
  lemma NeverFromTheRunning(nm: nat, nk: nat, cs: seq<Command>)
    requires Legal(Init(nm, nk), cs)
    ensures var s := Exec(Init(nm, nk), cs).sched;
            var i := FirstReusable(s.tasks, 0);
            i < MAX_TASKS ==> i != s.current && Reusable(s.tasks[i])
  {
    hide Init, Legal, Exec;
    Safety(nm, nk, cs);
    RunningIsReady(Exec(Init(nm, nk), cs));
  }

  lemma RunningIsReady(s: State)
    requires Inv(s)
    ensures Shape(s.sched) && s.sched.tasks[s.sched.current].state.Ready?
  {
  }
}
