/** How long the parent of a vfork stays blocked: sys_vfork of sageos_build/kernel/core/syscall.c against sched_exit
    of sageos_build/kernel/core/scheduler.c, which makes every blocked task ready. */
module Blocking {
  import opened Bytes
  import opened Process
  import opened PidWrap
  import opened Effects

  /** The operation makes the task in slot j ready if it is blocked. */
  predicate Releases(op: Op, j: nat) { op.Exit? || op == Unblock(j) }

  lemma ExitReleases(t: Table, code: int, j: nat)
    requires WellSized(t) && j < MAX_TASKS && j != t.current && t.tasks[j].state == Blocked
    ensures Step(t, Exit(code)).tasks[j].state != Blocked
  {
    assert Ended(t, code).tasks[j].state == Ready;
  }

  /** A blocked task stays blocked over one step exactly when the step does not release it. */
  lemma StepBlocked(t: Table, op: Op, j: nat)
    requires WellSized(t) && Enabled(t, op) && j < MAX_TASKS && t.tasks[j].state == Blocked
    ensures Step(t, op).tasks[j].state == Blocked <==> !Releases(op, j)
  {
    if op.Exit? {
      ExitReleases(t, op.code, j);
    }
  }

  predicate StaysBlocked(t: Table, ops: seq<Op>, j: nat)
    requires WellSized(t) && j < MAX_TASKS
    decreases |ops|
  {
    t.tasks[j].state == Blocked && (ops == [] || StaysBlocked(Step(t, ops[0]), ops[1..], j))
  }

  predicate NoneReleases(ops: seq<Op>, j: nat) { forall i :: 0 <= i < |ops| ==> !Releases(ops[i], j) }

  /** Over every run a blocked task stays blocked throughout exactly when no task at all exits and nobody unblocks
      its slot. */
  lemma {:induction false} BlockedExactly(t: Table, ops: seq<Op>, j: nat)
    requires WellSized(t) && Possible(t, ops) && j < MAX_TASKS && t.tasks[j].state == Blocked
    ensures StaysBlocked(t, ops, j) <==> NoneReleases(ops, j)
    decreases |ops|
  {
    if ops != [] {
      StepBlocked(t, ops[0], j);
      assert ops == [ops[0]] + ops[1..];
      if !Releases(ops[0], j) {
        BlockedExactly(Step(t, ops[0]), ops[1..], j);
      }
    }
  }

  /** So the parent of a vfork is held exactly until the first exit of any task, its child or not, or until its
      slot is unblocked. */
  lemma ParentHeldExactly(t: Table, ops: seq<Op>)
    requires WellSized(t) && Enabled(t, Vfork) && Forks(t, Vfork) && Possible(Step(t, Vfork), ops)
    ensures StaysBlocked(Step(t, Vfork), ops, t.current) <==> NoneReleases(ops, t.current)
  {
    BlockedExactly(Step(t, Vfork), ops, t.current);
  }

  /** A task that blocks is off the processor exactly until some task exits or its slot is unblocked. */
  lemma BlockerHeldExactly(t: Table, ops: seq<Op>)
    requires WellSized(t) && Enabled(t, Block) && Possible(Step(t, Block), ops)
    ensures StaysBlocked(Step(t, Block), ops, t.current) <==> NoneReleases(ops, t.current)
  {
    BlockEffect(t);
    BlockedExactly(Step(t, Block), ops, t.current);
  }

  /** And so is a task that waits for one that has not ended. */
  lemma WaiterHeldExactly(t: Table, pid: nat, c: nat, ops: seq<Op>)
    requires WellSized(t) && Enabled(t, Wait(pid)) && Possible(Step(t, Wait(pid)), ops)
    requires c < MAX_TASKS && FirstWith(t.tasks, pid, c) && t.tasks[c].state != Terminated
    ensures StaysBlocked(Step(t, Wait(pid)), ops, t.current) <==> NoneReleases(ops, t.current)
  {
    WaitEffect(t, pid);
    BlockedExactly(Step(t, Wait(pid)), ops, t.current);
  }

  // ---------------------------------------------------------------- a parent released by a stranger

  /** Tasks in the first three slots, the third a child of the first. */
  ghost predicate Trio(t: Table, first: State, second: State, third: State, cur: nat)
  {
    && WellSized(t) && t.current == cur
    && t.tasks[0].state == first && t.tasks[1].state == second && t.tasks[2].state == third
    && t.tasks[2].parent == Some(0)
    && forall k :: 3 <= k < MAX_TASKS ==> t.tasks[k].state == Unused
  }

  lemma BootCreates(t: Table)
    requires t == Boot()
    ensures Step(t, Create).tasks == t.tasks[1 := Task(1, Ready, None, 0)] && Step(t, Create).current == 0
  {
    assert FreeSlot(t.tasks, 0) == Some(1);
  }

  lemma ThenForks(t: Table)
    requires WellSized(t) && t.current == 0 && t.tasks == Boot().tasks[1 := Task(1, Ready, None, 0)]
    ensures Forks(t, Vfork) && Trio(Step(t, Vfork), Blocked, Ready, Running, 2)
  {
    assert t.tasks[0].state == Running && t.tasks[1].state == Ready && t.tasks[2].state == Unused;
    assert FreeSlot(t.tasks, 0) == Some(2);
  }

  lemma StrangerRuns(t: Table)
    requires Trio(t, Blocked, Ready, Running, 2)
    ensures Trio(Step(t, Schedule), Blocked, Running, Ready, 1)
  {
    PickNearest(t.tasks, 2, 1);
  }

  lemma StrangerEnds(t: Table, u: Table)
    requires Trio(t, Blocked, Running, Ready, 1) && u == Ended(t, 0)
    ensures Trio(u, Ready, Terminated, Ready, 1)
  {
  }

  lemma ChildRuns(t: Table)
    requires Trio(t, Ready, Terminated, Ready, 1)
    ensures Trio(Switch(t), Ready, Terminated, Running, 2)
  {
    PickNearest(t.tasks, 1, 2);
  }

  lemma StrangerExits(t: Table)
    requires Trio(t, Blocked, Running, Ready, 1)
    ensures Trio(Step(t, Exit(0)), Ready, Terminated, Running, 2)
  {
    var u := Ended(t, 0);
    ExitIsSwitch(t, 0);
    StrangerEnds(t, u);
    ChildRuns(u);
  }

  lemma ParentRuns(t: Table)
    requires Trio(t, Ready, Terminated, Running, 2)
    ensures Trio(Step(t, Schedule), Running, Terminated, Ready, 0)
  {
    PickNearest(t.tasks, 2, 0);
  }

  /** A third task exits while the child of a vfork is still there. */
  function StrangerRun(): (ops: seq<Op>)
  {
    [Create] + ([Vfork] + ([Schedule] + ([Exit(0)] + ([Schedule] + []))))
  }

  /** From boot, task 0 vforks and is blocked; another task exits; and task 0 runs again beside its child. */
  lemma ReleasedByAnother()
    ensures Possible(Boot(), StrangerRun())
    ensures Trio(Exec(Boot(), StrangerRun()), Running, Terminated, Ready, 0)
    ensures Forks(Step(Boot(), Create), Vfork)
  {
    var t0 := Boot();
    var t1 := Step(t0, Create);
    BootCreates(t0);
    ThenForks(t1);
    var t2 := Step(t1, Vfork);
    StrangerRuns(t2);
    var t3 := Step(t2, Schedule);
    StrangerExits(t3);
    var t4 := Step(t3, Exit(0));
    ParentRuns(t4);
    FirstOp(t0, Create, [Vfork] + ([Schedule] + ([Exit(0)] + ([Schedule] + []))));
    FirstOp(t1, Vfork, [Schedule] + ([Exit(0)] + ([Schedule] + [])));
    FirstOp(t2, Schedule, [Exit(0)] + ([Schedule] + []));
    FirstOp(t3, Exit(0), [Schedule] + []);
    FirstOp(t4, Schedule, []);
  }
}
