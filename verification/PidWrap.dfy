/** Process identifiers of sageos_build/kernel/core/scheduler.c past the wrap of their 32-bit counter: runs of any
    length, where Process.RunInv stops before the counter comes to its last value. */
module PidWrap {
  import opened Bytes
  import opened Process

  const PIDS := 0x1_0000_0000

  /** Only the current task is running, and live tasks have different identifiers. */
  ghost predicate Sound(t: Table)
  {
    && WellSized(t)
    && (forall k :: 0 <= k < MAX_TASKS && t.tasks[k].state == Running ==> k == t.current)
    && (forall j, k :: 0 <= j < k < MAX_TASKS && t.tasks[j].state != Unused && t.tasks[k].state != Unused ==>
          t.tasks[j].id != t.tasks[k].id)
    && t.tasks[t.current].state != Unused
  }

  ghost predicate Taken(t: Table, pid: nat)
  {
    exists k :: 0 <= k < |t.tasks| && t.tasks[k].state != Unused && t.tasks[k].id == pid
  }

  /** A task is created while a live one has the next identifier. */
  ghost predicate Clash(t: Table, op: Op)
  {
    (op.Create? || op.Vfork?) && FreeSlot(t.tasks, 0).Some? && Taken(t, t.nextPid)
  }

  lemma SwitchSound(t: Table)
    requires Sound(t)
    ensures Sound(Switch(t))
  {
  }

  lemma StatesSound(t: Table, ts: seq<Task>)
    requires Sound(t) && |ts| == MAX_TASKS && ts[t.current].state != Unused
    requires forall k :: 0 <= k < MAX_TASKS ==>
      && ts[k].id == t.tasks[k].id
      && (ts[k].state != Unused ==> t.tasks[k].state != Unused)
      && (ts[k].state == Running ==> k == t.current)
    ensures Sound(t.(tasks := ts))
  {
  }

  lemma SpawnSoundExactly(t: Table)
    requires Sound(t)
    ensures Sound(Spawn(t).0) <==> !Clash(t, Create)
  {
    var slot := FreeSlot(t.tasks, 0);
    if slot.Some? && Taken(t, t.nextPid) {
      var k :| 0 <= k < MAX_TASKS && t.tasks[k].state != Unused && t.tasks[k].id == t.nextPid;
      var ts := Spawn(t).0.tasks;
      assert ts[k].id == ts[slot.value].id && ts[k].state != Unused && ts[slot.value].state != Unused;
    }
  }

  lemma VforkSoundExactly(t: Table)
    requires Sound(t)
    ensures Sound(Step(t, Vfork)) <==> !Clash(t, Vfork)
  {
    var slot := FreeSlot(t.tasks, 0);
    if slot.Some? && Taken(t, t.nextPid) {
      var k :| 0 <= k < MAX_TASKS && t.tasks[k].state != Unused && t.tasks[k].id == t.nextPid;
      var ts := Step(t, Vfork).tasks;
      assert ts[k].id == ts[slot.value].id && ts[k].state != Unused && ts[slot.value].state != Unused;
    }
  }

  lemma WaitSound(t: Table, pid: nat)
    requires Sound(t) && Runnable(t.tasks[t.current])
    ensures Sound(Step(t, Wait(pid)))
  {
    var c := ById(t.tasks, pid, 0);
    if c.Some? {
      if t.tasks[c.value].state == Terminated {
        StatesSound(t, SetState(t.tasks, c.value, Unused));
      } else {
        StatesSound(t, SetState(t.tasks, t.current, Blocked));
        SwitchSound(t.(tasks := SetState(t.tasks, t.current, Blocked)));
      }
    }
  }

  /** A step keeps the table sound exactly when it does not give a live task's identifier away again. */
  lemma StepSoundExactly(t: Table, op: Op)
    requires Sound(t) && Enabled(t, op)
    ensures Sound(Step(t, op)) <==> !Clash(t, op)
  {
    match op
    case Create => SpawnSoundExactly(t);
    case Schedule => SwitchSound(t);
    case Block =>
      StatesSound(t, SetState(t.tasks, t.current, Blocked));
      SwitchSound(t.(tasks := SetState(t.tasks, t.current, Blocked)));
    case Unblock(k) =>
    case Vfork => VforkSoundExactly(t);
    case Exit(code) =>
      StatesSound(t, Ended(t, code).tasks);
      SwitchSound(Ended(t, code));
    case Wait(pid) => WaitSound(t, pid);
  }

  /** Every operation of the run is one that may be asked for when its turn comes. */
  predicate Possible(t: Table, ops: seq<Op>)
    requires WellSized(t)
    decreases |ops|
  {
    ops == [] || (Enabled(t, ops[0]) && Possible(Step(t, ops[0]), ops[1..]))
  }

  ghost predicate ClashFree(t: Table, ops: seq<Op>)
    requires WellSized(t)
    decreases |ops|
  {
    ops == [] || (!Clash(t, ops[0]) && ClashFree(Step(t, ops[0]), ops[1..]))
  }

  ghost predicate AlwaysSound(t: Table, ops: seq<Op>)
    requires WellSized(t)
    decreases |ops|
  {
    Sound(t) && (ops == [] || AlwaysSound(Step(t, ops[0]), ops[1..]))
  }

  /** Over runs of any length the table is sound throughout exactly when no creation clashes. */
  lemma {:induction false} RunSoundExactly(t: Table, ops: seq<Op>)
    requires Sound(t) && Possible(t, ops)
    ensures AlwaysSound(t, ops) <==> ClashFree(t, ops)
    decreases |ops|
  {
    if ops != [] {
      StepSoundExactly(t, ops[0]);
      if Sound(Step(t, ops[0])) {
        RunSoundExactly(Step(t, ops[0]), ops[1..]);
      }
    }
  }

  // ---------------------------------------------------------------- a run that clashes

  /** Task 0 and task p, in these states, and no other. */
  ghost predicate Pair(t: Table, first: State, p: nat, second: State, cur: nat, next: nat)
  {
    && WellSized(t) && t.current == cur && t.nextPid == next
    && t.tasks[0] == Task(0, first, None, 0) && t.tasks[1] == Task(p, second, None, 0)
    && forall k :: 2 <= k < MAX_TASKS ==> t.tasks[k].state == Unused
  }

  lemma PairCreate(t: Table, n: nat, p: nat)
    requires Pair(t, Running, n, Unused, 0, p)
    ensures Pair(Step(t, Create), Running, p, Ready, 0, (p + 1) % PIDS)
  {
    assert FreeSlot(t.tasks, 0) == Some(1);
  }

  lemma PairSchedule(t: Table, p: nat, next: nat)
    requires Pair(t, Running, p, Ready, 0, next)
    ensures Pair(Step(t, Schedule), Ready, p, Running, 1, next)
  {
    PickNearest(t.tasks, 0, 1);
  }

  lemma PairEnds(t: Table, p: nat, next: nat, u: Table)
    requires Pair(t, Ready, p, Running, 1, next) && u == Ended(t, 0)
    ensures Pair(u, Ready, p, Terminated, 1, next)
  {
  }

  lemma PairBack(t: Table, p: nat, next: nat)
    requires Pair(t, Ready, p, Terminated, 1, next)
    ensures Pair(Switch(t), Running, p, Terminated, 0, next)
  {
    PickNearest(t.tasks, 1, 0);
  }

  lemma ExitIsSwitch(t: Table, code: int)
    requires WellSized(t)
    ensures Step(t, Exit(code)) == Switch(Ended(t, code))
  {
  }

  lemma PairExit(t: Table, p: nat, next: nat)
    requires Pair(t, Ready, p, Running, 1, next)
    ensures Pair(Step(t, Exit(0)), Running, p, Terminated, 0, next)
  {
    var u := Ended(t, 0);
    ExitIsSwitch(t, 0);
    PairEnds(t, p, next, u);
    PairBack(u, p, next);
  }

  lemma PairReap(t: Table, p: nat, next: nat)
    requires p > 0 && Pair(t, Running, p, Terminated, 0, next)
    ensures Pair(Step(t, Wait(p)), Running, p, Unused, 0, next)
  {
    assert ById(t.tasks, p, 0) == Some(1);
  }

  /** A task is created, runs, ends and is reaped; then the rest. */
  function Cycle(p: nat, rest: seq<Op>): (ops: seq<Op>)
  {
    [Create] + ([Schedule] + ([Exit(0)] + ([Wait(p)] + rest)))
  }

  lemma FirstOp(t: Table, op: Op, ops: seq<Op>)
    requires WellSized(t)
    ensures Possible(t, [op] + ops) <==> Enabled(t, op) && Possible(Step(t, op), ops)
    ensures Exec(t, [op] + ops) == Exec(Step(t, op), ops)
  {
    assert ([op] + ops)[0] == op && ([op] + ops)[1..] == ops;
  }

  /** Task 0 alone, after n other tasks have come and gone. */
  ghost predicate Alone(t: Table, n: nat) { Pair(t, Running, n, Unused, 0, (n + 1) % PIDS) }

  lemma CycleGoes(t: Table, n: nat, rest: seq<Op>, ops: seq<Op>) returns (u: Table)
    requires n + 1 < PIDS && Alone(t, n) && ops == Cycle(n + 1, rest)
    ensures Alone(u, n + 1)
    ensures Possible(t, ops) <==> Possible(u, rest)
    ensures Exec(t, ops) == Exec(u, rest)
  {
    var p, next := n + 1, (n + 2) % PIDS;
    var last := [Wait(p)] + rest;
    PairCreate(t, n, p);
    FirstOp(t, Create, [Schedule] + ([Exit(0)] + last));
    var a := Step(t, Create);
    PairSchedule(a, p, next);
    FirstOp(a, Schedule, [Exit(0)] + last);
    var b := Step(a, Schedule);
    PairExit(b, p, next);
    FirstOp(b, Exit(0), last);
    var c := Step(b, Exit(0));
    PairReap(c, p, next);
    FirstOp(c, Wait(p), rest);
    u := Step(c, Wait(p));
  }

  /** n tasks, one after the other, after the first m. */
  function Cycles(m: nat, n: nat): (ops: seq<Op>)
    decreases n
  {
    if n == 0 then [] else Cycle(m + 1, Cycles(m + 1, n - 1))
  }

  lemma {:induction false} CyclesGo(t: Table, m: nat, n: nat, last: nat, ops: seq<Op>)
    requires m + n == last < PIDS && Alone(t, m) && ops == Cycles(m, n)
    ensures Possible(t, ops) && Alone(Exec(t, ops), last)
    decreases n
  {
    if n == 0 {
      assert ops == [];
    } else {
      var rest := Cycles(m + 1, n - 1);
      var u := CycleGoes(t, m, rest, ops);
      CyclesGo(u, m + 1, n - 1, last, rest);
    }
  }

  lemma AloneClashes(t: Table, n: nat)
    requires n + 1 == PIDS && Alone(t, n)
    ensures Sound(t) && Clash(t, Create) && Pair(Step(t, Create), Running, 0, Ready, 0, 1)
  {
    assert FreeSlot(t.tasks, 0) == Some(1);
    PairCreate(t, n, 0);
  }

  /** After 2^32 - 1 tasks have come and gone the next one gets the identifier of task 0, which is still there. */
  lemma IdentifiersRunOut(n: nat)
    requires n + 1 == PIDS
    ensures Possible(Boot(), Cycles(0, n))
    ensures var t := Exec(Boot(), Cycles(0, n));
      Sound(t) && Clash(t, Create) && Pair(Step(t, Create), Running, 0, Ready, 0, 1)
  {
    assert Alone(Boot(), 0);
    CyclesGo(Boot(), 0, n, n, Cycles(0, n));
    AloneClashes(Exec(Boot(), Cycles(0, n)), n);
  }
}
