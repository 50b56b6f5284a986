/**
  The mutable task table of `ttask.c`: a fixed array of task records, the
  running slot and the global counters. Every method is proved to take the
  table from one value to the next as the functions of `Tasks` say.
*/
module TaskTables {
  import opened Words
  import opened Tasks

  class TaskTable {
    const tasks: array<Task>
    var current: nat
    var totalSwitches: nat
    var totalBlocks: nat
    var totalWakes: nat

    ghost predicate Valid()
      reads this
    {
      tasks.Length == MAX_TASKS && current < MAX_TASKS
    }

    ghost function View(): (s: Sched)
      reads this, tasks
      requires Valid()
      ensures Shape(s)
    {
      Sched(tasks[..], current, totalSwitches, totalBlocks, totalWakes)
    }

    /** `ttask_init`: slot 0 becomes the idle task; every other slot is free. */
    constructor ()
      ensures Valid() && fresh(tasks)
      ensures View() == Boot()
    {
      tasks := new Task[MAX_TASKS](i => if i == 0 then IDLE_TASK else FREE_SLOT);
      current := 0;
      totalSwitches, totalBlocks, totalWakes := 0, 0, 0;
      new;
      assert tasks[..] == Boot().tasks;
    }

    /** `ttask_pick_next`: snapshot states and priorities, then scan. */
    method PickNextSlot() returns (next: nat)
      requires Valid()
      ensures next == PickNext(View())
    {
      var state: seq<TaskState> := [];
      var prio: seq<nat> := [];
      for i := 0 to MAX_TASKS
        invariant state == States(tasks[..i]) && prio == Priorities(tasks[..i])
      {
        state := state + [tasks[i].state];
        prio := prio + [tasks[i].priority];
      }
      assert tasks[..MAX_TASKS] == tasks[..];
      var exclude := if tasks[current].slice == 0 then current else -1;
      var idx := PickIndexEx(current, state, prio, exclude);
      next := if idx >= 0 then idx else current;
    }

    /** `ttask_pick_switch` */
    method Switch()
      requires Valid()
      modifies this, tasks
      ensures Valid() && View() == PickSwitch(old(View()))
    {
      var next := PickNextSlot();
      if next != current {
        var t := tasks[next];
        tasks[next] := t.(slice := SliceTicks(t.priority), switches := Inc32(t.switches));
        totalSwitches := Inc32(totalSwitches);
        current := next;
      }
    }

    /** `ttask_tick` */
    method OnTick()
      requires Valid()
      modifies this, tasks
      ensures Valid() && View() == Tick(old(View()))
    {
      var t := tasks[current];
      tasks[current] := t.(ticks := Inc32(t.ticks), slice := if t.slice > 0 then t.slice - 1 else 0);
      assert View() == Charge(old(View()));
      Switch();
    }

    /** `ttask_block`: `parked` is false when it returns at once because
        nobody else is runnable. */
    method BlockCurrent() returns (parked: bool)
      requires Valid()
      modifies this, tasks
      ensures Valid() && View() == Block(old(View()))
      ensures parked == !BlockFallsBack(old(View()))
    {
      var t := tasks[current];
      tasks[current] := t.(state := Blocked, blockedCount := Inc32(t.blockedCount));
      totalBlocks := Inc32(totalBlocks);
      assert View() == Parked(old(View()));
      var next := PickNextSlot();
      if next == current {
        tasks[current] := tasks[current].(state := Ready);
        parked := false;
      } else {
        current := next;
        parked := true;
      }
    }

    /** `ttask_wake` */
    method WakeTask(id: nat)
      requires Valid()
      modifies this, tasks
      ensures Valid() && View() == Wake(old(View()), id)
    {
      if id >= MAX_TASKS {
        return;
      }
      if tasks[id].state == Blocked {
        tasks[id] := tasks[id].(state := Ready, wakeCount := Inc32(tasks[id].wakeCount));
        totalWakes := Inc32(totalWakes);
      }
    }

    /** `ttask_exit`, up to the switch away from the finished task. */
    method ExitCurrent()
      requires Valid()
      modifies this, tasks
      ensures Valid() && View() == Exit(old(View()))
    {
      tasks[current] := tasks[current].(state := Exited);
      assert View() == SetState(old(View()), current, Exited);
      Switch();
    }

    /** `ttask_create` / `ttask_create_user`: the slot taken, MAX_TASKS for
        a null result, and what `ttask_free_resources` gave back. */
    method CreateTask(priority: nat, stack: nat, space: nat) returns (slot: nat, freedStack: nat, freedSpace: nat)
      requires Valid()
      modifies this, tasks
      ensures Valid() && View() == Create(old(View()), priority, stack, space)
      ensures slot == if stack != 0 then FirstReusable(old(View()).tasks, 0) else MAX_TASKS
      ensures (freedStack, freedSpace) == Reclaimed(old(View()))
    {
      freedStack, freedSpace := 0, 0;
      var i := 0;
      while i < MAX_TASKS && !(tasks[i].state == Free || tasks[i].state == Exited)
        invariant i <= MAX_TASKS
        invariant FirstReusable(tasks[..], 0) == FirstReusable(tasks[..], i)
      {
        i := i + 1;
      }
      assert i == FirstReusable(tasks[..], 0);
      slot := MAX_TASKS;
      if i == MAX_TASKS {
        return;
      }
      if tasks[i].state == Exited {
        freedStack, freedSpace := tasks[i].stack, tasks[i].space;
      }
      tasks[i] := Task(Ready, priority, SliceTicks(priority), 0, 0, 0, 0, stack, 0);
      if stack == 0 {
        tasks[i] := tasks[i].(state := Free);
        return;
      }
      tasks[i] := tasks[i].(space := space);
      slot := i;
    }

    /** `ttask_set_priority` */
    method ChangePriority(id: nat, prio: nat)
      requires Valid()
      modifies this, tasks
      ensures Valid() && View() == SetPriority(old(View()), id, prio)
    {
      if id >= MAX_TASKS {
        return;
      }
      if tasks[id].state == Free || tasks[id].state == Exited {
        return;
      }
      tasks[id] := tasks[id].(priority := prio, slice := SliceTicks(prio));
    }
  }
}
