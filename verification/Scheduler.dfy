/** The table g_tasks and the operations of sageos_build/kernel/core/scheduler.c that change it in place,
    each proved to be the step of the state machine in Process. */
module Scheduler {
  import opened Bytes
  import opened Process

  class Scheduler {
    const tasks: array<Task>
    var current: nat
    var nextPid: nat

    ghost predicate Valid()
      reads this
    {
      tasks.Length == MAX_TASKS && current < MAX_TASKS
    }

    ghost function Abs(): (t: Table)
      reads this, tasks
      requires Valid()
      ensures WellSized(t)
    {
      Table(tasks[..], current, nextPid)
    }

    /** sched_init */
    constructor ()
      ensures Valid() && fresh(tasks) && Abs() == Boot()
    {
      tasks := new Task[MAX_TASKS](i => if i == 0 then Task(0, Running, None, 0) else Task(0, Unused, None, 0));
      current := 0;
      nextPid := 1;
      new;
      assert tasks[..] == Boot().tasks;
    }

    method CreateThread() returns (slot: Option<nat>)
      requires Valid()
      modifies this, tasks
      ensures Valid() && Abs() == Spawn(old(Abs())).0 && slot == Spawn(old(Abs())).1
    {
      var i := 0;
      while i < MAX_TASKS
        invariant i <= MAX_TASKS && FreeSlot(tasks[..], i) == FreeSlot(tasks[..], 0)
      {
        if tasks[i].state == Unused {
          tasks[i] := Task(nextPid, Ready, None, 0);
          nextPid := (nextPid + 1) % 0x1_0000_0000;
          return Some(i);
        }
        i := i + 1;
      }
      return None;
    }

    /** The search loop of sched_schedule. */
    method PickNext() returns (next: Option<nat>)
      requires Valid()
      ensures next == Pick(tasks[..], current, 1)
    {
      var i := 1;
      while i <= MAX_TASKS
        invariant 1 <= i <= MAX_TASKS + 1 && Pick(tasks[..], current, 1) == Pick(tasks[..], current, i)
      {
        var idx := (current + i) % MAX_TASKS;
        if tasks[idx].state == Ready || tasks[idx].state == Running {
          return Some(idx);
        }
        i := i + 1;
      }
      return None;
    }

    /** The round robin of sched_schedule; returns whether a runnable task was found. */
    method Schedule() returns (found: bool)
      requires Valid()
      modifies this, tasks
      ensures Valid() && Abs() == Switch(old(Abs()))
      ensures found <==> Pick(old(tasks[..]), old(current), 1).Some?
    {
      var prev := current;
      var pick := PickNext();
      if pick.None? {
        return false;
      }
      var next := pick.value;
      if next == prev {
        return true;
      }
      if tasks[prev].state == Running {
        tasks[prev] := tasks[prev].(state := Ready);
      }
      tasks[next] := tasks[next].(state := Running);
      current := next;
      return true;
    }

    method BlockCurrent()
      requires Valid()
      modifies this, tasks
      ensures Valid() && Abs() == Step(old(Abs()), Block)
    {
      tasks[current] := tasks[current].(state := Blocked);
      var found := Schedule();
    }

    method Unblock(slot: nat)
      requires Valid()
      modifies tasks
      ensures Valid() && Abs() == Step(old(Abs()), Process.Unblock(slot))
    {
      if slot < MAX_TASKS && tasks[slot].state == Blocked {
        tasks[slot] := tasks[slot].(state := Ready);
      }
    }

    /** The loop of sched_exit */
    method WakeBlocked()
      requires Valid()
      modifies tasks
      ensures Valid() && tasks[..] == WakeAll(old(tasks[..]))
    {
      ghost var ts := tasks[..];
      var i := 0;
      while i < MAX_TASKS
        invariant i <= MAX_TASKS
        invariant forall k :: 0 <= k < MAX_TASKS ==>
                    tasks[k] == if k < i && ts[k].state == Blocked then ts[k].(state := Ready) else ts[k]
      {
        if tasks[i].state == Blocked {
          tasks[i] := tasks[i].(state := Ready);
        }
        i := i + 1;
      }
    }

    /** sys_exit and sched_exit */
    method ExitCurrent(code: int)
      requires Valid()
      modifies this, tasks
      ensures Valid() && Abs() == Step(old(Abs()), Exit(code))
    {
      tasks[current] := tasks[current].(exitCode := code);
      tasks[current] := tasks[current].(state := Terminated);
      ghost var c := current;
      ghost var ts := old(tasks[..])[c := old(tasks[c]).(exitCode := code, state := Terminated)];
      assert tasks[..] == ts;
      WakeBlocked();
      assert Abs() == old(Abs()).(tasks := WakeAll(ts));
      var found := Schedule();
    }

    method ThreadById(pid: nat) returns (slot: Option<nat>)
      requires Valid()
      ensures slot == ById(tasks[..], pid, 0)
    {
      var i := 0;
      while i < MAX_TASKS
        invariant i <= MAX_TASKS && ById(tasks[..], pid, i) == ById(tasks[..], pid, 0)
      {
        if tasks[i].id == pid && tasks[i].state != Unused {
          return Some(i);
        }
        i := i + 1;
      }
      return None;
    }

    /** The table changes of sys_vfork; the child runs at once in the place of its parent. */
    method VforkCurrent() returns (child: Option<nat>)
      requires Valid()
      modifies this, tasks
      ensures Valid() && Abs() == Step(old(Abs()), Vfork)
    {
      var parent := current;
      child := CreateThread();
      match child
      case None =>
      case Some(c) =>
        tasks[c] := tasks[c].(parent := Some(parent));
        tasks[c] := tasks[c].(state := Running);
        tasks[parent] := tasks[parent].(state := Blocked);
        current := c;
    }

    /** One turn of the loop of sys_waitpid. */
    method WaitOnce(pid: nat) returns (r: WaitResult)
      requires Valid()
      modifies this, tasks
      ensures Valid() && Abs() == Step(old(Abs()), Wait(pid)) && r == WaitTurn(old(Abs()), pid).1
    {
      var child := ThreadById(pid);
      match child
      case None => return Invalid;
      case Some(c) =>
        if tasks[c].state == Terminated {
          tasks[c] := tasks[c].(state := Unused);
          return Reaped;
        }
        tasks[current] := tasks[current].(state := Blocked);
        var found := Schedule();
        return Waiting;
    }
  }
}
