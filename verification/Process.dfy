/** The process table of sageos_build/kernel/core/scheduler.c with the process system calls of syscall.c,
    as a state machine: one step per kernel operation. */
module Process {
  import opened Bytes

  datatype State = Unused | Ready | Running | Sleeping | Blocked | Terminated

  datatype Task = Task(id: nat, state: State, parent: Option<nat>, exitCode: int)

  const MAX_TASKS := 128

  datatype Table = Table(tasks: seq<Task>, current: nat, nextPid: nat)

  /** What the running thread, or an interrupt, asks of the kernel. */
  datatype Op =
    | Create
    | Schedule
    | Block
    | Unblock(slot: nat)
    | Vfork
    | Exit(code: int)
    | Wait(pid: nat)

  // ---------------------------------------------------------------- searching the table

  predicate Runnable(t: Task) { t.state == Ready || t.state == Running }

  /** The slot i places after cur, going round. */
  function Slot(cur: nat, i: nat): (s: nat)
    requires cur < MAX_TASKS && i <= MAX_TASKS
    ensures s < MAX_TASKS
  {
    if cur + i < MAX_TASKS then cur + i else cur + i - MAX_TASKS
  }

  /** The first runnable slot from i places after cur on. */
  function Pick(ts: seq<Task>, cur: nat, i: nat): (r: Option<nat>)
    requires |ts| == MAX_TASKS && cur < MAX_TASKS && 1 <= i <= MAX_TASKS + 1
    ensures r.Some? ==> r.value < MAX_TASKS && Runnable(ts[r.value])
    decreases MAX_TASKS + 1 - i
  {
    if i > MAX_TASKS then None
    else if Runnable(ts[Slot(cur, i)]) then Some(Slot(cur, i))
    else Pick(ts, cur, i + 1)
  }

  function FreeSlot(ts: seq<Task>, i: nat): (r: Option<nat>)
    requires i <= |ts|
    ensures r.Some? ==> i <= r.value < |ts| && ts[r.value].state == Unused
    ensures r.Some? ==> forall k :: i <= k < r.value ==> ts[k].state != Unused
    ensures r.None? ==> forall k :: i <= k < |ts| ==> ts[k].state != Unused
    decreases |ts| - i
  {
    if i == |ts| then None else if ts[i].state == Unused then Some(i) else FreeSlot(ts, i + 1)
  }

  /** sched_get_thread_by_id */
  function ById(ts: seq<Task>, pid: nat, i: nat): (r: Option<nat>)
    requires i <= |ts|
    ensures r.Some? ==> i <= r.value < |ts| && ts[r.value].id == pid && ts[r.value].state != Unused
    ensures r.None? ==> forall k :: i <= k < |ts| && ts[k].state != Unused ==> ts[k].id != pid
    decreases |ts| - i
  {
    if i == |ts| then None
    else if ts[i].id == pid && ts[i].state != Unused then Some(i)
    else ById(ts, pid, i + 1)
  }

  // ---------------------------------------------------------------- steps

  predicate WellSized(t: Table) { |t.tasks| == MAX_TASKS && t.current < MAX_TASKS }

  function SetState(ts: seq<Task>, k: nat, s: State): (r: seq<Task>)
    requires k < |ts|
  {
    ts[k := ts[k].(state := s)]
  }

  /** sched_schedule.  With nothing runnable it waits: the table stays as it is. */
  function Switch(t: Table): (r: Table)
    requires WellSized(t)
    ensures WellSized(r)
  {
    match Pick(t.tasks, t.current, 1)
    case None => t
    case Some(next) =>
      if next == t.current then t
      else
        var ts := if t.tasks[t.current].state == Running then SetState(t.tasks, t.current, Ready) else t.tasks;
        Table(SetState(ts, next, Running), next, t.nextPid)
  }

  function Spawn(t: Table): (r: (Table, Option<nat>))
    requires WellSized(t)
    ensures WellSized(r.0) && r.0.current == t.current
    ensures r.1.Some? ==> r.1.value < MAX_TASKS
  {
    match FreeSlot(t.tasks, 0)
    case None => (t, None)
    case Some(k) =>
      (t.(tasks := t.tasks[k := Task(t.nextPid, Ready, None, 0)], nextPid := (t.nextPid + 1) % 0x1_0000_0000), Some(k))
  }

  /** The loop of sched_exit: every blocked task becomes ready. */
  function WakeAll(ts: seq<Task>): (r: seq<Task>)
    ensures |r| == |ts|
    ensures forall k :: 0 <= k < |ts| ==> r[k] == if ts[k].state == Blocked then ts[k].(state := Ready) else ts[k]
  {
    if ts == [] then []
    else
      var last := ts[|ts| - 1];
      WakeAll(ts[..|ts| - 1]) + [if last.state == Blocked then last.(state := Ready) else last]
  }

  /** The table that an exiting task leaves to the scheduler. */
  function Ended(t: Table, code: int): (r: Table)
    requires WellSized(t)
    ensures WellSized(r)
  {
    t.(tasks := WakeAll(t.tasks[t.current := t.tasks[t.current].(exitCode := code, state := Terminated)]))
  }

  datatype WaitResult = Invalid | Reaped | Waiting

  /** One turn of the loop of sys_waitpid. */
  function WaitTurn(t: Table, pid: nat): (r: (Table, WaitResult))
    requires WellSized(t)
    ensures WellSized(r.0)
  {
    match ById(t.tasks, pid, 0)
    case None => (t, Invalid)
    case Some(c) =>
      if t.tasks[c].state == Terminated then (t.(tasks := SetState(t.tasks, c, Unused)), Reaped)
      else (Switch(t.(tasks := SetState(t.tasks, t.current, Blocked))), Waiting)
  }

  /** Only the scheduler's own loop and interrupts go on while the current thread is not running. */
  predicate Enabled(t: Table, op: Op)
    requires WellSized(t)
  {
    op.Schedule? || op.Unblock? || Runnable(t.tasks[t.current])
  }

  function Step(t: Table, op: Op): (r: Table)
    requires WellSized(t)
    ensures WellSized(r)
  {
    match op
    case Create => Spawn(t).0
    case Schedule => Switch(t)
    case Block => Switch(t.(tasks := SetState(t.tasks, t.current, Blocked)))
    case Unblock(k) =>
      if k < MAX_TASKS && t.tasks[k].state == Blocked then t.(tasks := SetState(t.tasks, k, Ready)) else t
    case Vfork =>
      var (u, child) := Spawn(t);
      (match child
       case None => t
       case Some(c) =>
         var ts := u.tasks[c := u.tasks[c].(parent := Some(t.current), state := Running)];
         Table(SetState(ts, t.current, Blocked), c, u.nextPid))
    case Exit(code) => Switch(Ended(t, code))
    case Wait(pid) => WaitTurn(t, pid).0
  }

  /** sched_init */
  function Boot(): (t: Table)
  {
    Table(seq(MAX_TASKS, i => if i == 0 then Task(0, Running, None, 0) else Task(0, Unused, None, 0)), 0, 1)
  }

  // ---------------------------------------------------------------- invariants of every run

  ghost predicate Inv(t: Table)
  {
    && WellSized(t)
    && (forall k :: 0 <= k < MAX_TASKS && t.tasks[k].state == Running ==> k == t.current)
    && (forall k :: 0 <= k < MAX_TASKS && t.tasks[k].state != Unused ==> t.tasks[k].id < t.nextPid)
    && (forall j, k :: 0 <= j < k < MAX_TASKS && t.tasks[j].state != Unused && t.tasks[k].state != Unused ==>
          t.tasks[j].id != t.tasks[k].id)
    && t.tasks[t.current].state != Unused
  }

  lemma BootInv()
    ensures Inv(Boot())
  {
  }

  lemma SwitchInv(t: Table)
    requires Inv(t)
    ensures Inv(Switch(t)) && Switch(t).nextPid == t.nextPid
  {
  }

  /** The process identifier counter has not come to its last value. */
  predicate PidsLeft(t: Table) { t.nextPid < 0xFFFF_FFFF }

  lemma SpawnInv(t: Table)
    requires Inv(t) && PidsLeft(t)
    ensures Inv(Spawn(t).0)
    ensures Spawn(t).1.Some? ==> Spawn(t).1.value != t.current && Spawn(t).0.tasks[Spawn(t).1.value].id == t.nextPid
  {
  }

  lemma VforkInv(t: Table)
    requires Inv(t) && PidsLeft(t)
    ensures Inv(Step(t, Vfork))
  {
    SpawnInv(t);
  }

  /** Changes of state that start no second running task and bring no slot into use keep the invariant. */
  lemma StatesInv(t: Table, ts: seq<Task>)
    requires Inv(t) && |ts| == MAX_TASKS && ts[t.current].state != Unused
    requires forall k :: 0 <= k < MAX_TASKS ==>
      && ts[k].id == t.tasks[k].id
      && (ts[k].state != Unused ==> t.tasks[k].state != Unused)
      && (ts[k].state == Running ==> k == t.current)
    ensures Inv(t.(tasks := ts))
  {
  }

  lemma BlockedInv(t: Table)
    requires Inv(t)
    ensures Inv(t.(tasks := SetState(t.tasks, t.current, Blocked)))
  {
    StatesInv(t, SetState(t.tasks, t.current, Blocked));
  }

  lemma EndedInv(t: Table, code: int)
    requires Inv(t)
    ensures Inv(Ended(t, code))
  {
    StatesInv(t, Ended(t, code).tasks);
  }

  lemma ExitInv(t: Table, code: int)
    requires Inv(t)
    ensures Inv(Switch(Ended(t, code)))
  {
    EndedInv(t, code);
    SwitchInv(Ended(t, code));
  }

  lemma WaitInv(t: Table, pid: nat)
    requires Inv(t) && Runnable(t.tasks[t.current])
    ensures Inv(Step(t, Wait(pid)))
  {
    var c := ById(t.tasks, pid, 0);
    if c.Some? {
      if t.tasks[c.value].state == Terminated {
        StatesInv(t, SetState(t.tasks, c.value, Unused));
      } else {
        BlockedInv(t);
        SwitchInv(t.(tasks := SetState(t.tasks, t.current, Blocked)));
      }
    }
  }

  predicate Legal1(t: Table, op: Op)
    requires WellSized(t)
  {
    Enabled(t, op) && (op.Create? || op.Vfork? ==> PidsLeft(t))
  }

  /** Every step keeps: only the current task is running, and live tasks have different identifiers. */
  lemma StepInv(t: Table, op: Op)
    requires Inv(t) && Legal1(t, op)
    ensures Inv(Step(t, op))
  {
    match op
    case Create => SpawnInv(t);
    case Schedule => SwitchInv(t);
    case Block =>
      BlockedInv(t);
      SwitchInv(t.(tasks := SetState(t.tasks, t.current, Blocked)));
    case Unblock(k) =>
    case Vfork => VforkInv(t);
    case Exit(code) => ExitInv(t, code);
    case Wait(pid) => WaitInv(t, pid);
  }

  /** A run: operations that the thread running at the time may ask for, fewer than 2^32 of them creating
      a task. */
  predicate Legal(t: Table, ops: seq<Op>)
    requires WellSized(t)
    decreases |ops|
  {
    ops == [] || (Legal1(t, ops[0]) && Legal(Step(t, ops[0]), ops[1..]))
  }

  function Exec(t: Table, ops: seq<Op>): (r: Table)
    requires WellSized(t)
    ensures WellSized(r)
    decreases |ops|
  {
    if ops == [] then t else Exec(Step(t, ops[0]), ops[1..])
  }

  lemma {:induction false} RunInv(t: Table, ops: seq<Op>)
    requires Inv(t) && Legal(t, ops)
    ensures Inv(Exec(t, ops))
    decreases |ops|
  {
    if ops != [] {
      StepInv(t, ops[0]);
      RunInv(Step(t, ops[0]), ops[1..]);
    }
  }

  lemma RunFromBoot(ops: seq<Op>)
    requires Legal(Boot(), ops)
    ensures Inv(Exec(Boot(), ops))
  {
    BootInv();
    RunInv(Boot(), ops);
  }

  // ---------------------------------------------------------------- bounded waiting

  /** How many places after cur slot j comes, going round. */
  function Distance(cur: nat, j: nat): (d: nat)
    requires cur < MAX_TASKS && j < MAX_TASKS
    ensures 1 <= d <= MAX_TASKS && Slot(cur, d) == j
  {
    if j > cur then j - cur else j + MAX_TASKS - cur
  }

  /** The search stops at or before a runnable slot. */
  lemma {:induction false} PickWithin(ts: seq<Task>, cur: nat, i: nat, j: nat)
    requires |ts| == MAX_TASKS && cur < MAX_TASKS && j < MAX_TASKS && Runnable(ts[j])
    requires 1 <= i <= Distance(cur, j)
    ensures var r := Pick(ts, cur, i);
      r.Some? && i <= Distance(cur, r.value) <= Distance(cur, j)
    decreases MAX_TASKS - i
  {
    if !Runnable(ts[Slot(cur, i)]) {
      PickWithin(ts, cur, i + 1, j);
    }
  }

  /** A switch either runs a ready task or moves strictly closer to it. */
  lemma SwitchCloser(t: Table, j: nat)
    requires WellSized(t) && j < MAX_TASKS && j != t.current && t.tasks[j].state == Ready
    ensures var u := Switch(t);
      u.current == j || (u.tasks[j].state == Ready && Distance(u.current, j) < Distance(t.current, j))
  {
    PickWithin(t.tasks, t.current, 1, j);
  }

  /** Does the step call sched_schedule? */
  predicate Switches(t: Table, op: Op)
    requires WellSized(t)
  {
    op.Schedule? || op.Block? || op.Exit? || (op.Wait? && WaitTurn(t, op.pid).1 == Waiting)
  }

  /** Does the step start a child in the place of the caller? */
  predicate Forks(t: Table, op: Op)
    requires WellSized(t)
  {
    op.Vfork? && Spawn(t).1.Some?
  }

  /** A ready task stays ready until it runs; each switch brings its turn closer, and only vfork, which
      moves to the child's slot without a search, can put it further away. */
  lemma StepCloser(t: Table, op: Op, j: nat)
    requires Inv(t) && Legal1(t, op) && j < MAX_TASKS && j != t.current && t.tasks[j].state == Ready
    ensures var u := Step(t, op);
      || u.current == j
      || (&& u.tasks[j].state == Ready
          && (Switches(t, op) ==> Distance(u.current, j) < Distance(t.current, j))
          && (!Switches(t, op) && !Forks(t, op) ==> u.current == t.current))
  {
    match op
    case Create =>
    case Schedule => SwitchCloser(t, j);
    case Block => SwitchCloser(t.(tasks := SetState(t.tasks, t.current, Blocked)), j);
    case Unblock(k) =>
    case Vfork =>
    case Exit(code) => SwitchCloser(Ended(t, code), j);
    case Wait(pid) => SwitchCloser(t.(tasks := SetState(t.tasks, t.current, Blocked)), j);
  }

  /** Task j is at no point of the run the current one. */
  predicate NeverRuns(t: Table, ops: seq<Op>, j: nat)
    requires WellSized(t)
    decreases |ops|
  {
    t.current != j && (ops == [] || NeverRuns(Step(t, ops[0]), ops[1..], j))
  }

  function CountSwitches(t: Table, ops: seq<Op>): nat
    requires WellSized(t)
    decreases |ops|
  {
    if ops == [] then 0 else (if Switches(t, ops[0]) then 1 else 0) + CountSwitches(Step(t, ops[0]), ops[1..])
  }

  /** How much further from j a vfork puts the running task: nothing when the child's slot is no further
      from j than the caller's. */
  function Setback(t: Table, op: Op, j: nat): (d: nat)
    requires WellSized(t) && j < MAX_TASKS
    ensures d < MAX_TASKS
  {
    if Forks(t, op) && Distance(Spawn(t).1.value, j) > Distance(t.current, j)
    then Distance(Spawn(t).1.value, j) - Distance(t.current, j)
    else 0
  }

  /** The places that the vforks of a run took from j. */
  function Lost(t: Table, ops: seq<Op>, j: nat): nat
    requires WellSized(t) && j < MAX_TASKS
    decreases |ops|
  {
    if ops == [] then 0 else Setback(t, ops[0], j) + Lost(Step(t, ops[0]), ops[1..], j)
  }

  function CountSetbacks(t: Table, ops: seq<Op>, j: nat): nat
    requires WellSized(t) && j < MAX_TASKS
    decreases |ops|
  {
    if ops == [] then 0
    else (if Setback(t, ops[0], j) > 0 then 1 else 0) + CountSetbacks(Step(t, ops[0]), ops[1..], j)
  }

  /** Less than a full round is lost for each vfork whose child is further from j than its caller. */
  lemma {:induction false} LostIsBounded(t: Table, ops: seq<Op>, j: nat)
    requires WellSized(t) && j < MAX_TASKS
    ensures Lost(t, ops, j) <= (MAX_TASKS - 1) * CountSetbacks(t, ops, j)
    ensures CountSetbacks(t, ops, j) <= Lost(t, ops, j) && CountSetbacks(t, ops, j) <= |ops|
    decreases |ops|
  {
    if ops != [] {
      LostIsBounded(Step(t, ops[0]), ops[1..], j);
    }
  }

  /** Bounded waiting: while a ready task has not run, there have been fewer calls of sched_schedule than
      its distance from the current task plus the places that vforks took from it; without such vforks,
      fewer than the distance. */
  lemma {:induction false} BoundedWaiting(t: Table, ops: seq<Op>, j: nat)
    requires Inv(t) && Legal(t, ops) && j < MAX_TASKS && t.tasks[j].state == Ready && NeverRuns(t, ops, j)
    ensures CountSwitches(t, ops) < Distance(t.current, j) + Lost(t, ops, j)
    decreases |ops|
  {
    if ops != [] {
      StepInv(t, ops[0]);
      StepCloser(t, ops[0], j);
      BoundedWaiting(Step(t, ops[0]), ops[1..], j);
    }
  }

  // ---------------------------------------------------------------- a run in which vfork delays a task

  /** A table with tasks in its first four slots only. */
  function Four(four: seq<Task>, current: nat, nextPid: nat): (t: Table)
    requires |four| == 4 && current < 4
    ensures WellSized(t)
  {
    Table(seq(MAX_TASKS, i requires 0 <= i < MAX_TASKS => if i < 4 then four[i] else Task(0, Unused, None, 0)),
          current, nextPid)
  }

  lemma FourCreate(four: seq<Task>, cur: nat, pid: nat, k: nat)
    requires |four| == 4 && cur < 4 && k < 4
    requires four[k].state == Unused && forall i :: 0 <= i < k ==> four[i].state != Unused
    ensures Spawn(Four(four, cur, pid))
      == (Four(four[k := Task(pid, Ready, None, 0)], cur, (pid + 1) % 0x1_0000_0000), Some(k))
  {
    var t := Four(four, cur, pid);
    assert t.tasks[k] == four[k];
    assert FreeSlot(t.tasks, 0) == Some(k);
    assert Spawn(t).0.tasks == Four(four[k := Task(pid, Ready, None, 0)], cur, pid + 1).tasks;
  }

  /** The nearest runnable slot is the one picked. */
  lemma PickNearest(ts: seq<Task>, cur: nat, n: nat)
    requires |ts| == MAX_TASKS && cur < MAX_TASKS && n < MAX_TASKS && Runnable(ts[n])
    requires forall j :: 0 <= j < MAX_TASKS && Runnable(ts[j]) ==> Distance(cur, n) <= Distance(cur, j)
    ensures Pick(ts, cur, 1) == Some(n)
  {
    PickWithin(ts, cur, 1, n);
  }

  lemma FourSwitch(four: seq<Task>, cur: nat, pid: nat, n: nat)
    requires |four| == 4 && cur < 4 && n < 4 && n != cur && Runnable(four[n])
    requires forall j :: 0 <= j < 4 && Runnable(four[j]) ==> Distance(cur, n) <= Distance(cur, j)
    ensures var past := if four[cur].state == Running then SetState(four, cur, Ready) else four;
      Switch(Four(four, cur, pid)) == Four(SetState(past, n, Running), n, pid)
  {
    var t := Four(four, cur, pid);
    assert t.tasks[n] == four[n];
    PickNearest(t.tasks, cur, n);
    var past := if four[cur].state == Running then SetState(four, cur, Ready) else four;
    assert Switch(t).tasks == Four(SetState(past, n, Running), n, pid).tasks;
  }

  const INIT := Task(0, Running, None, 0)
  const WORKER := Task(1, Ready, None, 0)
  const HELPER := Task(3, Ready, None, 0)
  const FREED := Task(2, Unused, None, 0)

  /** What the kernel does before the vfork: three tasks are created, the second ends and is reaped. */
  function Prelude(): seq<Op>
  {
    [Create] + ([Create] + ([Create] + ([Schedule] + ([Schedule] + [Exit(0), Wait(2), Schedule]))))
  }

  /** The run ops is legal from t and ends in u. */
  ghost predicate Leads(t: Table, ops: seq<Op>, u: Table)
    decreases |ops|
  {
    && WellSized(t)
    && if ops == [] then t == u else Legal1(t, ops[0]) && Leads(Step(t, ops[0]), ops[1..], u)
  }

  lemma {:induction false} LeadsMeans(t: Table, ops: seq<Op>, u: Table)
    requires Leads(t, ops, u)
    ensures WellSized(t) && Legal(t, ops) && Exec(t, ops) == u
    decreases |ops|
  {
    if ops != [] {
      LeadsMeans(Step(t, ops[0]), ops[1..], u);
    }
  }

  /** One operation in front of a run. */
  lemma LeadsFrom(t: Table, op: Op, next: Table, ops: seq<Op>, u: Table)
    requires WellSized(t) && Legal1(t, op) && next == Step(t, op) && Leads(next, ops, u)
    ensures Leads(t, [op] + ops, u)
  {
    assert ([op] + ops)[0] == op && ([op] + ops)[1..] == ops;
  }

  lemma FourExit(four: seq<Task>, cur: nat, pid: nat, code: int)
    requires |four| == 4 && cur < 4 && forall k :: 0 <= k < 4 ==> four[k].state != Blocked
    ensures Ended(Four(four, cur, pid), code)
      == Four(four[cur := four[cur].(exitCode := code, state := Terminated)], cur, pid)
  {
    var t := Four(four, cur, pid);
    assert Ended(t, code).tasks == Four(four[cur := four[cur].(exitCode := code, state := Terminated)], cur, pid).tasks;
  }

  lemma FourReap(four: seq<Task>, cur: nat, next: nat, pid: nat, c: nat)
    requires |four| == 4 && cur < 4 && c < 4 && four[c].id == pid && four[c].state == Terminated
    requires forall k :: 0 <= k < 4 && k != c ==> four[k].id != pid
    ensures Step(Four(four, cur, next), Wait(pid)) == Four(SetState(four, c, Unused), cur, next)
  {
    var t := Four(four, cur, next);
    assert t.tasks[c] == four[c];
    assert ById(t.tasks, pid, 0) == Some(c);
    assert Step(t, Wait(pid)).tasks == Four(SetState(four, c, Unused), cur, next).tasks;
  }

  lemma FourVfork(four: seq<Task>, cur: nat, pid: nat, k: nat)
    requires |four| == 4 && cur < 4 && k < 4 && k != cur && pid < 9
    requires four[k].state == Unused && forall i :: 0 <= i < k ==> four[i].state != Unused
    ensures Forks(Four(four, cur, pid), Vfork) && Spawn(Four(four, cur, pid)).1 == Some(k)
    ensures Step(Four(four, cur, pid), Vfork)
      == Four(SetState(four[k := Task(pid, Running, Some(cur), 0)], cur, Blocked), k, pid + 1)
  {
    var t := Four(four, cur, pid);
    FourCreate(four, cur, pid, k);
    assert Step(t, Vfork).tasks
      == Four(SetState(four[k := Task(pid, Running, Some(cur), 0)], cur, Blocked), k, pid + 1).tasks;
  }

  /** The table after the prelude: task 1 next in line, task 3 after it, slot 2 free again. */
  function Crowd(): (t: Table) { Four([INIT, WORKER, FREED, HELPER], 0, 4) }

  const PAST := Task(0, Ready, None, 0)
  const ENDING := Task(2, Running, None, 0)
  const ENDED := Task(2, Terminated, None, 0)
  const ACTIVE := Task(3, Running, None, 0)

  lemma PreludeSwitches()
    ensures var a := [INIT, WORKER, Task(2, Ready, None, 0), HELPER];
      var b := [PAST, Task(1, Running, None, 0), Task(2, Ready, None, 0), HELPER];
      && Step(Four(a, 0, 4), Schedule) == Four(b, 1, 4)
      && Step(Four(b, 1, 4), Schedule) == Four([PAST, WORKER, ENDING, HELPER], 2, 4)
  {
    var a := [INIT, WORKER, Task(2, Ready, None, 0), HELPER];
    var b := [PAST, Task(1, Running, None, 0), Task(2, Ready, None, 0), HELPER];
    FourSwitch(a, 0, 4, 1);
    assert SetState(SetState(a, 0, Ready), 1, Running) == b;
    FourSwitch(b, 1, 4, 2);
    assert SetState(SetState(b, 1, Ready), 2, Running) == [PAST, WORKER, ENDING, HELPER];
  }

  lemma PreludeExit()
    ensures Step(Four([PAST, WORKER, ENDING, HELPER], 2, 4), Exit(0)) == Four([PAST, WORKER, ENDED, ACTIVE], 3, 4)
  {
    var a, b := [PAST, WORKER, ENDING, HELPER], [PAST, WORKER, ENDED, HELPER];
    FourExit(a, 2, 4, 0);
    assert a[2 := ENDED] == b;
    FourSwitch(b, 2, 4, 3);
    assert SetState(b, 3, Running) == [PAST, WORKER, ENDED, ACTIVE];
  }

  lemma PreludeReap()
    ensures Step(Four([PAST, WORKER, ENDED, ACTIVE], 3, 4), Wait(2)) == Four([PAST, WORKER, FREED, ACTIVE], 3, 4)
    ensures Step(Four([PAST, WORKER, FREED, ACTIVE], 3, 4), Schedule) == Crowd()
  {
    var c, d := [PAST, WORKER, ENDED, ACTIVE], [PAST, WORKER, FREED, ACTIVE];
    FourReap(c, 3, 4, 2, 2);
    assert SetState(c, 2, Unused) == d;
    FourSwitch(d, 3, 4, 0);
    assert SetState(SetState(d, 3, Ready), 0, Running) == [INIT, WORKER, FREED, HELPER];
  }

  lemma PreludeCreates()
    ensures var none, second := Task(0, Unused, None, 0), Task(2, Ready, None, 0);
      && Step(Boot(), Create) == Four([INIT, WORKER, none, none], 0, 2)
      && Step(Four([INIT, WORKER, none, none], 0, 2), Create) == Four([INIT, WORKER, second, none], 0, 3)
      && Step(Four([INIT, WORKER, second, none], 0, 3), Create) == Four([INIT, WORKER, second, HELPER], 0, 4)
  {
    var none, second := Task(0, Unused, None, 0), Task(2, Ready, None, 0);
    assert Boot().tasks == Four([INIT, none, none, none], 0, 1).tasks;
    FourCreate([INIT, none, none, none], 0, 1, 1);
    assert [INIT, none, none, none][1 := WORKER] == [INIT, WORKER, none, none];
    FourCreate([INIT, WORKER, none, none], 0, 2, 2);
    assert [INIT, WORKER, none, none][2 := second] == [INIT, WORKER, second, none];
    FourCreate([INIT, WORKER, second, none], 0, 3, 3);
    assert [INIT, WORKER, second, none][3 := HELPER] == [INIT, WORKER, second, HELPER];
  }

  lemma PreludeEnds()
    ensures Leads(Four([PAST, WORKER, ENDING, HELPER], 2, 4), [Exit(0), Wait(2), Schedule], Crowd())
  {
    var a := Four([PAST, WORKER, ENDING, HELPER], 2, 4);
    var c, d := Four([PAST, WORKER, ENDED, ACTIVE], 3, 4), Four([PAST, WORKER, FREED, ACTIVE], 3, 4);
    PreludeExit();
    PreludeReap();
    LeadsFrom(d, Schedule, Crowd(), [], Crowd());
    LeadsFrom(c, Wait(2), d, [Schedule], Crowd());
    LeadsFrom(a, Exit(0), c, [Wait(2), Schedule], Crowd());
    assert [Wait(2)] + [Schedule] == [Wait(2), Schedule];
    assert [Exit(0)] + [Wait(2), Schedule] == [Exit(0), Wait(2), Schedule];
  }

  lemma PreludeMiddle(ops: seq<Op>)
    requires Leads(Four([PAST, WORKER, ENDING, HELPER], 2, 4), ops, Crowd())
    ensures Leads(Four([INIT, WORKER, Task(2, Ready, None, 0), HELPER], 0, 4), [Schedule] + ([Schedule] + ops), Crowd())
  {
    var a := Four([INIT, WORKER, Task(2, Ready, None, 0), HELPER], 0, 4);
    var b := Four([PAST, Task(1, Running, None, 0), Task(2, Ready, None, 0), HELPER], 1, 4);
    PreludeSwitches();
    LeadsFrom(b, Schedule, Four([PAST, WORKER, ENDING, HELPER], 2, 4), ops, Crowd());
    LeadsFrom(a, Schedule, b, [Schedule] + ops, Crowd());
  }

  lemma PreludeStarts(ops: seq<Op>)
    requires Leads(Four([INIT, WORKER, Task(2, Ready, None, 0), HELPER], 0, 4), ops, Crowd())
    ensures Leads(Boot(), [Create] + ([Create] + ([Create] + ops)), Crowd())
  {
    var none, second := Task(0, Unused, None, 0), Task(2, Ready, None, 0);
    var a, b := Four([INIT, WORKER, none, none], 0, 2), Four([INIT, WORKER, second, none], 0, 3);
    PreludeCreates();
    LeadsFrom(b, Create, Four([INIT, WORKER, second, HELPER], 0, 4), ops, Crowd());
    LeadsFrom(a, Create, b, [Create] + ops, Crowd());
    LeadsFrom(Boot(), Create, a, [Create] + ([Create] + ops), Crowd());
  }

  lemma PreludeLeads()
    ensures Leads(Boot(), Prelude(), Crowd())
  {
    var last := [Exit(0), Wait(2), Schedule];
    PreludeEnds();
    PreludeMiddle(last);
    PreludeStarts([Schedule] + ([Schedule] + last));
  }

  lemma CrowdForks()
    ensures Legal1(Crowd(), Vfork) && Forks(Crowd(), Vfork) && Spawn(Crowd()).1 == Some(2)
    ensures Step(Crowd(), Vfork)
      == Four([Task(0, Blocked, None, 0), WORKER, Task(4, Running, Some(0), 0), HELPER], 2, 5)
  {
    var a := [INIT, WORKER, FREED, HELPER];
    FourVfork(a, 0, 4, 2);
    assert SetState(a[2 := Task(4, Running, Some(0), 0)], 0, Blocked)
      == [Task(0, Blocked, None, 0), WORKER, Task(4, Running, Some(0), 0), HELPER];
  }

  lemma CrowdSwitches()
    ensures Switch(Four([Task(0, Blocked, None, 0), WORKER, Task(4, Running, Some(0), 0), HELPER], 2, 5)).current == 3
  {
    FourSwitch([Task(0, Blocked, None, 0), WORKER, Task(4, Running, Some(0), 0), HELPER], 2, 5, 3);
  }

  lemma OneStep(t: Table, b: Op, j: nat)
    requires WellSized(t) && j < MAX_TASKS
    ensures Legal(t, [b]) <==> Legal1(t, b)
    ensures NeverRuns(t, [b], j) <==> t.current != j && Step(t, b).current != j
    ensures CountSwitches(t, [b]) == if Switches(t, b) then 1 else 0
    ensures Lost(t, [b], j) == Setback(t, b, j)
  {
    assert [b][1..] == [];
  }

  /** Counting over a run of two operations. */
  lemma TwoSteps(t: Table, a: Op, b: Op, j: nat)
    requires WellSized(t) && j < MAX_TASKS
    ensures Legal(t, [a, b]) <==> Legal1(t, a) && Legal1(Step(t, a), b)
    ensures NeverRuns(t, [a, b], j) <==> t.current != j && Step(t, a).current != j && Step(Step(t, a), b).current != j
    ensures CountSwitches(t, [a, b]) == (if Switches(t, a) then 1 else 0) + if Switches(Step(t, a), b) then 1 else 0
    ensures Lost(t, [a, b], j) == Setback(t, a, j) + Setback(Step(t, a), b, j)
  {
    assert [a, b][1..] == [b];
    OneStep(Step(t, a), b, j);
  }

  /** From boot there is a run after which task 1 is next in line, and yet, after a vfork, the first call of
      sched_schedule runs task 3: with vfork the distance alone is no bound. */
  lemma VforkDelays()
    ensures Legal(Boot(), Prelude()) && Exec(Boot(), Prelude()) == Crowd()
    ensures Crowd().tasks[1].state == Ready && Distance(Crowd().current, 1) == 1
    ensures Legal(Crowd(), [Vfork, Schedule]) && NeverRuns(Crowd(), [Vfork, Schedule], 1)
    ensures CountSwitches(Crowd(), [Vfork, Schedule]) == 1 && Lost(Crowd(), [Vfork, Schedule], 1) == 126
  {
    PreludeLeads();
    LeadsMeans(Boot(), Prelude(), Crowd());
    CrowdForks();
    CrowdSwitches();
    TwoSteps(Crowd(), Vfork, Schedule, 1);
  }

  // ---------------------------------------------------------------- exit and waitpid

  ghost predicate Gone(t: Table, pid: nat)
  {
    pid < t.nextPid && forall k :: 0 <= k < |t.tasks| && t.tasks[k].state != Unused ==> t.tasks[k].id != pid
  }

  lemma SwitchGone(t: Table, pid: nat)
    requires WellSized(t) && Gone(t, pid)
    ensures Gone(Switch(t), pid)
  {
  }

  lemma StepGone(t: Table, op: Op, pid: nat)
    requires Inv(t) && Legal1(t, op) && Gone(t, pid)
    ensures Gone(Step(t, op), pid)
  {
    match op
    case Create =>
    case Schedule => SwitchGone(t, pid);
    case Block => SwitchGone(t.(tasks := SetState(t.tasks, t.current, Blocked)), pid);
    case Unblock(k) =>
    case Vfork =>
    case Exit(code) => SwitchGone(Ended(t, code), pid);
    case Wait(q) => SwitchGone(t.(tasks := SetState(t.tasks, t.current, Blocked)), pid);
  }

  /** A reaped identifier never comes back: every later waitpid for it is refused. */
  lemma {:induction false} ReapedOnce(t: Table, ops: seq<Op>, pid: nat)
    requires Inv(t) && Legal(t, ops) && Gone(t, pid)
    ensures Gone(Exec(t, ops), pid) && WaitTurn(Exec(t, ops), pid).1 == Invalid
    decreases |ops|
  {
    if ops != [] {
      StepInv(t, ops[0]);
      StepGone(t, ops[0], pid);
      ReapedOnce(Step(t, ops[0]), ops[1..], pid);
    }
  }

  /** Reaping leaves no live task with that identifier. */
  lemma ReapRemoves(t: Table, pid: nat)
    requires Inv(t) && Runnable(t.tasks[t.current]) && WaitTurn(t, pid).1 == Reaped
    ensures Inv(Step(t, Wait(pid))) && Gone(Step(t, Wait(pid)), pid)
  {
    WaitInv(t, pid);
  }

  /** A terminated task stays as it is until a waitpid for its identifier reaps it. */
  lemma StepKeepsZombie(t: Table, op: Op, c: nat)
    requires Inv(t) && Legal1(t, op) && c < MAX_TASKS && t.tasks[c].state == Terminated
    requires !(op.Wait? && op.pid == t.tasks[c].id)
    ensures Step(t, op).tasks[c] == t.tasks[c]
  {
    match op
    case Create =>
    case Schedule => SwitchKeepsZombie(t, c);
    case Block => SwitchKeepsZombie(t.(tasks := SetState(t.tasks, t.current, Blocked)), c);
    case Unblock(k) =>
    case Vfork =>
    case Exit(code) => SwitchKeepsZombie(Ended(t, code), c);
    case Wait(pid) => SwitchKeepsZombie(t.(tasks := SetState(t.tasks, t.current, Blocked)), c);
  }

  lemma SwitchKeepsZombie(t: Table, c: nat)
    requires WellSized(t) && c < MAX_TASKS
    ensures t.tasks[c].state == Terminated ==> Switch(t).tasks[c] == t.tasks[c]
  {
  }

  predicate NoWaitFor(ops: seq<Op>, pid: nat) { forall k :: 0 <= k < |ops| ==> ops[k] != Wait(pid) }

  lemma {:induction false} ZombieKept(t: Table, ops: seq<Op>, c: nat)
    requires Inv(t) && Legal(t, ops) && c < MAX_TASKS && t.tasks[c].state == Terminated
    requires NoWaitFor(ops, t.tasks[c].id)
    ensures Exec(t, ops).tasks[c] == t.tasks[c]
    decreases |ops|
  {
    if ops != [] {
      assert ops[0] != Wait(t.tasks[c].id);
      StepInv(t, ops[0]);
      StepKeepsZombie(t, ops[0], c);
      assert NoWaitFor(ops[1..], t.tasks[c].id);
      ZombieKept(Step(t, ops[0]), ops[1..], c);
    }
  }

  lemma FindById(t: Table, c: nat)
    requires Inv(t) && c < MAX_TASKS && t.tasks[c].state != Unused
    ensures ById(t.tasks, t.tasks[c].id, 0) == Some(c)
  {
    var r := ById(t.tasks, t.tasks[c].id, 0);
    assert r.Some?;
  }

  /** The exit of a task makes every blocked task ready, and the first waitpid for it, whenever it comes,
      finds it with its exit code and reaps it. */
  lemma ExitLetsParentReap(t: Table, code: int, parent: nat, ops: seq<Op>)
    requires Inv(t) && Legal1(t, Exit(code)) && parent < MAX_TASKS && t.tasks[parent].state == Blocked
    requires Legal(Step(t, Exit(code)), ops) && NoWaitFor(ops, t.tasks[t.current].id)
    ensures var u := Step(t, Exit(code));
      && (u.current == parent || u.tasks[parent].state == Ready)
      && WaitTurn(Exec(u, ops), t.tasks[t.current].id).1 == Reaped
      && Exec(u, ops).tasks[t.current].exitCode == code
  {
    var c, u := t.current, Step(t, Exit(code));
    StepInv(t, Exit(code));
    assert Ended(t, code).tasks[parent].state == Ready;
    ExitLeavesZombie(t, code);
    ZombieKept(u, ops, c);
    RunInv(u, ops);
    FindById(Exec(u, ops), c);
  }

  lemma ExitLeavesZombie(t: Table, code: int)
    requires WellSized(t)
    ensures Switch(Ended(t, code)).tasks[t.current] == t.tasks[t.current].(exitCode := code, state := Terminated)
  {
    SwitchKeepsZombie(Ended(t, code), t.current);
  }

  /** The table t in which the task pid exits was reached after `parent` called waitpid for it and blocked. */
  ghost predicate Awaits(t0: Table, ops: seq<Op>, t: Table, parent: nat, pid: nat)
  {
    && Inv(t0) && t0.current == parent && Legal1(t0, Wait(pid)) && WaitTurn(t0, pid).1 == Waiting
    && Legal(Step(t0, Wait(pid)), ops) && t == Exec(Step(t0, Wait(pid)), ops)
    && t.tasks[parent].state == Blocked
    && t.tasks[t.current].id == pid
  }

  lemma AwaitsInv(t0: Table, ops: seq<Op>, t: Table, parent: nat, pid: nat)
    requires Awaits(t0, ops, t, parent, pid)
    ensures Inv(t) && parent < MAX_TASKS
  {
    StepInv(t0, Wait(pid));
    RunInv(Step(t0, Wait(pid)), ops);
  }

  /** A parent blocked in waitpid is made ready by its child's exit and runs within the bound; when it does,
      its waitpid reaps the child with its exit code, and never again, by anyone. */
  lemma WaitingParentReapsOnce(t0: Table, before: seq<Op>, t: Table, parent: nat, pid: nat, code: int,
                               ops: seq<Op>, later: seq<Op>)
    requires Awaits(t0, before, t, parent, pid) && Legal1(t, Exit(code))
    requires Legal(Step(t, Exit(code)), ops) && NoWaitFor(ops, pid)
    ensures var u := Step(t, Exit(code));
      NeverRuns(u, ops, parent) ==> CountSwitches(u, ops) < Distance(u.current, parent) + Lost(u, ops, parent)
    ensures var v := Exec(Step(t, Exit(code)), ops);
      v.current == parent && Runnable(v.tasks[parent]) ==>
        && WaitTurn(v, pid).1 == Reaped
        && v.tasks[t.current].exitCode == code
        && (Legal(Step(v, Wait(pid)), later) ==> WaitTurn(Exec(Step(v, Wait(pid)), later), pid).1 == Invalid)
  {
    AwaitsInv(t0, before, t, parent, pid);
    var u := Step(t, Exit(code));
    StepInv(t, Exit(code));
    ExitLetsParentReap(t, code, parent, ops);
    if NeverRuns(u, ops, parent) {
      BoundedWaiting(u, ops, parent);
    }
    RunInv(u, ops);
    ReapedForGood(Exec(u, ops), pid, later);
  }

  lemma ReapedForGood(v: Table, pid: nat, later: seq<Op>)
    requires Inv(v)
    ensures Runnable(v.tasks[v.current]) && WaitTurn(v, pid).1 == Reaped && Legal(Step(v, Wait(pid)), later) ==>
      WaitTurn(Exec(Step(v, Wait(pid)), later), pid).1 == Invalid
  {
    if Runnable(v.tasks[v.current]) && WaitTurn(v, pid).1 == Reaped && Legal(Step(v, Wait(pid)), later) {
      ReapRemoves(v, pid);
      ReapedOnce(Step(v, Wait(pid)), later, pid);
    }
  }
}
