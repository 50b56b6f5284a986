/**
  Fairness of the tick-driven scheduler inside the highest READY priority,
  over arbitrarily long runs of ticks: cyclic turns when several tasks share
  the top priority, and a fixed duty cycle when one task holds it alone.
*/
module RoundRobin {
  import opened Words
  import opened Tasks

  /** `k` timer ticks with no other event in between. */
  function Ticks(s: Sched, k: nat): (r: Sched)
    requires Shape(s)
    ensures Shape(r)
  {
    if k == 0 then s else Tick(Ticks(s, k - 1))
  }

  predicate InTier(ts: seq<Task>, i: nat, p: nat) {
    i < |ts| && ts[i].state.Ready? && ts[i].priority == p
  }

  /** No READY task has a priority above `p`. */
  ghost predicate IsCeiling(ts: seq<Task>, p: nat) {
    forall i :: 0 <= i < |ts| && ts[i].state.Ready? ==> ts[i].priority <= p
  }

  /** READY slots below `n` of priority `p`, in ascending slot order. */
  function Tier(ts: seq<Task>, p: nat, n: nat): (r: seq<nat>)
    requires n <= |ts|
    ensures forall k :: 0 <= k < |r| ==> r[k] < n && InTier(ts, r[k], p)
    ensures forall i, k :: 0 <= i < k < |r| ==> r[i] < r[k]
    ensures forall i :: 0 <= i < n && InTier(ts, i, p) ==> i in r
  {
    if n == 0 then []
    else if InTier(ts, n - 1, p) then Tier(ts, p, n - 1) + [n - 1]
    else Tier(ts, p, n - 1)
  }

  /** The tier depends only on states and priorities. */
  lemma {:induction false} TierOfSame(ts: seq<Task>, us: seq<Task>, p: nat, n: nat)
    requires n <= |ts| && States(ts) == States(us) && Priorities(ts) == Priorities(us)
    ensures |us| == |ts| && Tier(ts, p, n) == Tier(us, p, n)
  {
    assert |us| == |ts|;
    if n > 0 {
      TierOfSame(ts, us, p, n - 1);
      assert States(ts)[n - 1] == States(us)[n - 1] && Priorities(ts)[n - 1] == Priorities(us)[n - 1];
    }
  }

  function Next(j: nat, m: nat): nat
    requires j < m
  {
    if j + 1 == m then 0 else j + 1
  }

  lemma TickKeeps(s: Sched)
    requires Shape(s)
    ensures States(Tick(s).tasks) == States(s.tasks) && Priorities(Tick(s).tasks) == Priorities(s.tasks)
  {
    PickSwitchKeeps(Charge(s));
    assert States(Charge(s).tasks) == States(s.tasks);
    assert Priorities(Charge(s).tasks) == Priorities(s.tasks);
  }

  lemma {:induction false} TicksKeep(s: Sched, k: nat)
    requires Shape(s)
    ensures States(Ticks(s, k).tasks) == States(s.tasks) && Priorities(Ticks(s, k).tasks) == Priorities(s.tasks)
  {
    hide Tick, States, Priorities, Shape;
    if k > 0 {
      TicksKeep(s, k - 1);
      TickKeeps(Ticks(s, k - 1));
    }
  }

  lemma CeilingOfSame(ts: seq<Task>, us: seq<Task>, p: nat)
    requires IsCeiling(ts, p) && States(ts) == States(us) && Priorities(ts) == Priorities(us)
    ensures IsCeiling(us, p)
  {
    assert |us| == |ts|;
    forall i | 0 <= i < |us| && us[i].state.Ready? ensures us[i].priority <= p {
      assert States(ts)[i] == States(us)[i] && Priorities(ts)[i] == Priorities(us)[i];
    }
  }

  /** Among ascending slots the cyclic successor is the nearest in scan order. */
  lemma SuccessorIsNearest(l: seq<nat>, j: nat, x: nat)
    requires forall i, k :: 0 <= i < k < |l| ==> l[i] < l[k]
    requires forall i :: 0 <= i < |l| ==> l[i] < MAX_TASKS
    requires |l| >= 2 && j < |l| && x in l
    ensures l[Next(j, |l|)] != l[j]
    ensures Distance(l[j], l[Next(j, |l|)], MAX_TASKS) <= Distance(l[j], x, MAX_TASKS)
  {
    var i :| 0 <= i < |l| && l[i] == x;
    var q := Next(j, |l|);
    if i < q { assert l[i] < l[q]; } else if i > q { assert l[q] < l[i]; }
    if i < j { assert l[i] < l[j]; } else if i > j { assert l[j] < l[i]; }
    if q < j { assert l[q] < l[j]; } else { assert l[j] < l[q]; }
  }

  /** One tick passes the CPU to the next slot of a top tier of two or more. */
  lemma TierTick(s: Sched, p: nat, j: nat)
    requires Shape(s) && IsCeiling(s.tasks, p)
    requires var l := Tier(s.tasks, p, MAX_TASKS); |l| >= 2 && j < |l| && s.current == l[j]
    ensures var l := Tier(s.tasks, p, MAX_TASKS); Tick(s).current == l[Next(j, |l|)]
  {
    var l := Tier(s.tasks, p, MAX_TASKS);
    var c := Charge(s);
    var st, pr, e := States(c.tasks), Priorities(c.tasks), ExcludeOf(c);
    var q := l[Next(j, |l|)];
    forall x | 0 <= x < MAX_TASKS && Eligible(st, x, e)
      ensures
        || pr[x] < pr[q]
        || (pr[x] == pr[q] && Distance(c.current, q, MAX_TASKS) <= Distance(c.current, x, MAX_TASKS))
    {
      assert pr[x] == s.tasks[x].priority && pr[q] == p;
      if pr[x] == p {
        assert InTier(s.tasks, x, p);
        SuccessorIsNearest(l, j, x);
      }
    }
    SuccessorIsNearest(l, j, q);
    assert Eligible(st, q, e);
    assert IsPick(c.current, st, pr, e, q);
    PickIsBest(c.current, st, pr, e);
    PickIsUnique(c.current, st, pr, e, q, Scan(c.current, st, pr, e, MAX_TASKS));
  }

  /** From anywhere, one tick brings the CPU into a top tier of two or more. */
  lemma TierEntered(s: Sched, p: nat)
    requires Shape(s) && IsCeiling(s.tasks, p) && |Tier(s.tasks, p, MAX_TASKS)| >= 2
    ensures Tick(s).current in Tier(s.tasks, p, MAX_TASKS)
  {
    var l := Tier(s.tasks, p, MAX_TASKS);
    var c := Charge(s);
    PickNextRule(c);
    var other := if l[0] == s.current then l[1] else l[0];
    assert Eligible(States(c.tasks), other, ExcludeOf(c));
    assert Priorities(c.tasks)[other] == p;
    var r := PickNext(c);
    assert Priorities(c.tasks)[r] == s.tasks[r].priority && States(c.tasks)[r] == s.tasks[r].state;
    assert InTier(s.tasks, r, p);
  }

  lemma NextIsModular(j: nat, k: nat, m: nat)
    requires j < m
    ensures Next((j + k) % m, m) == (j + k + 1) % m
  {
    var a, q, r := j + k, (j + k) / m, (j + k) % m;
    if r + 1 == m {
      assert a + 1 == m * (q + 1) + 0;
      DivModUnique(a + 1, m, q + 1, 0);
    } else {
      DivModUnique(a + 1, m, q, r + 1);
    }
  }

  /** Cyclic turns: after `k` ticks the running slot is the `k`-th successor
      in slot order, whatever the time slices are. */
  lemma {:induction false} CyclicTurns(s: Sched, p: nat, j: nat, k: nat)
    requires Shape(s) && IsCeiling(s.tasks, p)
    requires var l := Tier(s.tasks, p, MAX_TASKS); |l| >= 2 && j < |l| && s.current == l[j]
    ensures var l := Tier(s.tasks, p, MAX_TASKS); Ticks(s, k).current == l[(j + k) % |l|]
  {
    hide Tick, IsCeiling, Next, Tier, Ticks;
    var m := |Tier(s.tasks, p, MAX_TASKS)|;
    if k > 0 {
      CyclicTurns(s, p, j, k - 1);
      TurnPasses(s, p, (j + k - 1) % m, k - 1);
      NextIsModular(j, k - 1, m);
    } else {
      NoTicks(s);
      DivModUnique(j, m, 0, j);
    }
  }

  lemma NoTicks(s: Sched)
    requires Shape(s)
    ensures Ticks(s, 0) == s
  {
  }

  /** One more tick passes the turn on. */
  lemma TurnPasses(s: Sched, p: nat, x: nat, k: nat)
    requires Shape(s) && IsCeiling(s.tasks, p)
    requires var l := Tier(s.tasks, p, MAX_TASKS); |l| >= 2 && x < |l| && Ticks(s, k).current == l[x]
    ensures var l := Tier(s.tasks, p, MAX_TASKS); Ticks(s, k + 1).current == l[Next(x, |l|)]
  {
    hide Tick, IsCeiling, Tier, States, Priorities;
    var t := Ticks(s, k);
    TicksKeep(s, k);
    TierOfSame(s.tasks, t.tasks, p, MAX_TASKS);
    CeilingOfSame(s.tasks, t.tasks, p);
    TierTick(t, p, x);
  }

  /** So a given member of the tier runs on exactly every `m`-th tick. */
  lemma EveryMthTick(s: Sched, p: nat, j: nat, i: nat, k: nat)
    requires Shape(s) && IsCeiling(s.tasks, p)
    requires var l := Tier(s.tasks, p, MAX_TASKS); |l| >= 2 && j < |l| && i < |l| && s.current == l[j]
    ensures var l := Tier(s.tasks, p, MAX_TASKS);
            Ticks(s, k).current == l[i] <==> (j + k) % |l| == i
  {
    CyclicTurns(s, p, j, k);
    var l := Tier(s.tasks, p, MAX_TASKS);
    var x := (j + k) % |l|;
    if x < i { assert l[x] < l[i]; } else if i < x { assert l[i] < l[x]; }
  }

  // ------------------------------------------- a lone top-priority task

  /** `h` alone holds the top READY priority and some other task is READY. */
  ghost predicate Lone(s: Sched, h: nat) {
    && Shape(s) && h < MAX_TASKS && s.tasks[h].state.Ready?
    && (forall i :: 0 <= i < MAX_TASKS && i != h && s.tasks[i].state.Ready? ==>
          s.tasks[i].priority < s.tasks[h].priority)
    && exists o :: 0 <= o < MAX_TASKS && o != h && s.tasks[o].state.Ready?
  }

  /** `h` has just been switched in by `ttask_pick_switch`. */
  ghost predicate FreshlySwitchedIn(s: Sched, h: nat) {
    Lone(s, h) && s.current == h && s.tasks[h].slice == SliceTicks(s.tasks[h].priority)
  }

  lemma LoneKept(s: Sched, t: Sched, h: nat)
    requires Lone(s, h) && Shape(t) && States(t.tasks) == States(s.tasks) && Priorities(t.tasks) == Priorities(s.tasks)
    ensures Lone(t, h)
  {
    forall i | 0 <= i < MAX_TASKS
      ensures t.tasks[i].state == s.tasks[i].state && t.tasks[i].priority == s.tasks[i].priority
    {
      assert States(t.tasks)[i] == States(s.tasks)[i] && Priorities(t.tasks)[i] == Priorities(s.tasks)[i];
    }
    var o :| 0 <= o < MAX_TASKS && o != h && s.tasks[o].state.Ready?;
    assert t.tasks[o].state.Ready?;
  }

  /** With ticks left, the tick leaves the CPU where it is. */
  lemma StaysWithinSlice(s: Sched, h: nat)
    requires Lone(s, h) && s.current == h && s.tasks[h].slice >= 2
    ensures Tick(s).current == h && Tick(s).tasks[h].slice == s.tasks[h].slice - 1
  {
    var c := Charge(s);
    PickNextRule(c);
    var st, pr := States(c.tasks), Priorities(c.tasks);
    assert Eligible(st, h, ExcludeOf(c));
    var r := PickNext(c);
    assert st[r] == s.tasks[r].state && pr[r] == s.tasks[r].priority;
  }

  /** The last tick of the slice hands the CPU to another READY task. */
  lemma LeavesAfterSlice(s: Sched, h: nat)
    requires Lone(s, h) && s.current == h && s.tasks[h].slice == 1
    ensures var c := Tick(s).current; c != h && Tick(s).tasks[c].state.Ready?
  {
    var c := Charge(s);
    PickNextRule(c);
    var o :| 0 <= o < MAX_TASKS && o != h && s.tasks[o].state.Ready?;
    assert Eligible(States(c.tasks), o, ExcludeOf(c));
  }

  /** From any other task, one tick brings `h` back with a full slice. */
  lemma ComesBack(s: Sched, h: nat)
    requires Lone(s, h) && s.current != h
    ensures FreshlySwitchedIn(Tick(s), h)
  {
    var c := Charge(s);
    PickNextRule(c);
    var st, pr := States(c.tasks), Priorities(c.tasks);
    assert Eligible(st, h, ExcludeOf(c));
    var r := PickNext(c);
    assert st[r] == s.tasks[r].state && pr[r] == s.tasks[r].priority;
    TickKeeps(s);
    LoneKept(s, Tick(s), h);
  }

  lemma {:induction false} WithinSlice(s: Sched, h: nat, k: nat)
    requires FreshlySwitchedIn(s, h) && k < SliceTicks(s.tasks[h].priority)
    ensures var t := Ticks(s, k);
            Lone(t, h) && t.current == h && t.tasks[h].slice == SliceTicks(s.tasks[h].priority) - k
  {
    hide Tick;
    if k > 0 {
      WithinSlice(s, h, k - 1);
      StaysWithinSlice(Ticks(s, k - 1), h);
    }
    TicksKeep(s, k);
    LoneKept(s, Ticks(s, k), h);
  }

  /** One full period: `slice` ticks for `h`, one tick for another READY
      task, then `h` is back with a fresh slice. */
  lemma OnePeriod(s: Sched, h: nat)
    requires FreshlySwitchedIn(s, h)
    ensures var n := SliceTicks(s.tasks[h].priority);
            var t := Ticks(s, n);
            && t.current != h && t.tasks[t.current].state.Ready?
            && FreshlySwitchedIn(Ticks(s, n + 1), h)
            && Ticks(s, n + 1).tasks[h].priority == s.tasks[h].priority
  {
    hide Tick, SliceTicks;
    var n := SliceTicks(s.tasks[h].priority);
    WithinSlice(s, h, n - 1);
    LeavesAfterSlice(Ticks(s, n - 1), h);
    TicksKeep(s, n);
    LoneKept(s, Ticks(s, n), h);
    ComesBack(Ticks(s, n), h);
    TicksKeep(s, n + 1);
    assert Priorities(Ticks(s, n + 1).tasks)[h] == Priorities(s.tasks)[h];
  }

  lemma {:induction false} TicksCompose(s: Sched, a: nat, b: nat)
    requires Shape(s)
    ensures Ticks(s, a + b) == Ticks(Ticks(s, a), b)
  {
    hide Tick;
    if b > 0 {
      TicksCompose(s, a, b - 1);
    }
  }

  lemma PeriodSplit(q: nat, n: nat, r: nat)
    requires q > 0
    ensures q * (n + 1) + r == (n + 1) + ((q - 1) * (n + 1) + r) && (q - 1) * (n + 1) >= 0
  {
  }

  lemma PeriodsCompose(s: Sched, q: nat, n: nat, r: nat)
    requires Shape(s) && q > 0
    ensures (q - 1) * (n + 1) >= 0 && Ticks(s, q * (n + 1) + r) == Ticks(Ticks(s, n + 1), (q - 1) * (n + 1) + r)
  {
    hide Ticks;
    PeriodSplit(q, n, r);
    TicksCompose(s, n + 1, (q - 1) * (n + 1) + r);
  }

  /** Duty cycle, for ever: in every period of `slice + 1` ticks the lone top
      task runs on all but the last, which goes to another READY task. */
  lemma {:induction false} DutyCycle(s: Sched, h: nat, q: nat, r: nat)
    requires FreshlySwitchedIn(s, h) && r <= SliceTicks(s.tasks[h].priority)
    ensures var n := SliceTicks(s.tasks[h].priority);
            var t := Ticks(s, q * (n + 1) + r);
            && (t.current == h <==> r < n)
            && t.tasks[t.current].state.Ready?
    decreases q
  {
    hide Tick, SliceTicks, Ticks;
    var n := SliceTicks(s.tasks[h].priority);
    if q == 0 {
      if r < n { WithinSlice(s, h, r); } else { OnePeriod(s, h); }
    } else {
      OnePeriod(s, h);
      DutyCycle(Ticks(s, n + 1), h, q - 1, r);
      PeriodsCompose(s, q, n, r);
    }
  }

  /** In numbers: a lone top task of priority 1 to 7 has 2, 4, 8 or, from 4 up, 16
      ticks of every 3, 5, 9 or 17; from 8 on the priority counts modulo 8. */
  lemma DutyNumbers(s: Sched, h: nat, q: nat, r: nat)
    requires FreshlySwitchedIn(s, h)
    ensures var prio := s.tasks[h].priority;
            var n := if prio == 0 then 32 else Min(Pow2(prio % 8), 16);
            r <= n ==> (Ticks(s, q * (n + 1) + r).current == h <==> r < n)
    ensures s.tasks[h].priority == 2 && r <= 4 ==> (Ticks(s, q * 5 + r).current == h <==> r < 4)
  {
    hide Ticks, FreshlySwitchedIn, SliceTicks, Pow2;
    FreshShape(s, h);
    SliceIsPower(s.tasks[h].priority);
    PowerOf2();
    if r <= SliceTicks(s.tasks[h].priority) {
      DutyCycle(s, h, q, r);
    }
  }

  lemma PowerOf2()
    ensures Pow2(2) == 4
  {
  }

  lemma FreshShape(s: Sched, h: nat)
    requires FreshlySwitchedIn(s, h)
    ensures Shape(s) && h < MAX_TASKS
  {
  }

  /** Raising a READY task above all others brings it in with the next tick, with a
      full slice. */
  lemma RaisedRunsNext(s: Sched, id: nat, prio: nat)
    requires Shape(s) && id < MAX_TASKS && id != s.current
    requires s.tasks[id].state.Ready? && s.tasks[s.current].state.Ready?
    requires forall j :: 0 <= j < MAX_TASKS && j != id && s.tasks[j].state.Ready? ==> s.tasks[j].priority < prio
    ensures FreshlySwitchedIn(Tick(SetPriority(s, id, prio)), id)
  {
    hide Tick, SliceTicks;
    var t := SetPriority(s, id, prio);
    SetPrioritySets(s, id, prio);
    assert forall j :: 0 <= j < MAX_TASKS ==> t.tasks[j].state == s.tasks[j].state;
    assert t.tasks[s.current].state.Ready?;
    ComesBack(t, id);
  }
}
