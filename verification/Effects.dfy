/** What each operation on the process table does to every slot of it, told without the helpers that the state
    machine in Process is built from. */
module Effects {
  import opened Bytes
  import opened Process

  /** How far behind cur slot j comes, going round. */
  function Ahead(cur: nat, j: nat): (d: nat)
    requires cur < MAX_TASKS && j < MAX_TASKS
  {
    (j + MAX_TASKS - cur) % MAX_TASKS
  }

  /** Slot n is the first runnable one behind cur, before the search comes back to cur itself. */
  ghost predicate FirstBehind(ts: seq<Task>, cur: nat, n: nat)
    requires |ts| == MAX_TASKS && cur < MAX_TASKS && n < MAX_TASKS
  {
    && n != cur && Runnable(ts[n])
    && forall j :: 0 <= j < MAX_TASKS && j != cur && Runnable(ts[j]) ==> Ahead(cur, n) <= Ahead(cur, j)
  }

  ghost predicate Alone(ts: seq<Task>, cur: nat)
    requires |ts| == MAX_TASKS
  {
    forall j :: 0 <= j < MAX_TASKS && j != cur ==> !Runnable(ts[j])
  }

  /** The caller's slot becomes mine; the first runnable slot behind it runs, or none if there is none; and all
      other slots stay as they are. */
  ghost predicate Passes(t: Table, u: Table, mine: Task)
    requires WellSized(t)
  {
    && WellSized(u) && u.nextPid == t.nextPid && u.tasks[t.current] == mine
    && (forall k :: 0 <= k < MAX_TASKS && k != t.current ==>
          u.tasks[k] == if k == u.current then t.tasks[k].(state := Running) else t.tasks[k])
    && (FirstBehind(t.tasks, t.current, u.current) || (Alone(t.tasks, t.current) && u.current == t.current))
  }

  // ---------------------------------------------------------------- the scheduler

  lemma AheadIsDistance(cur: nat, j: nat)
    requires cur < MAX_TASKS && j < MAX_TASKS && j != cur
    ensures Ahead(cur, j) == Distance(cur, j) < MAX_TASKS
  {
  }

  /** The search finds the first runnable slot behind the current one. */
  lemma PickFirst(ts: seq<Task>, cur: nat, n: nat)
    requires |ts| == MAX_TASKS && cur < MAX_TASKS && n < MAX_TASKS && n != cur && Pick(ts, cur, 1) == Some(n)
    ensures FirstBehind(ts, cur, n)
  {
    AheadIsDistance(cur, n);
    forall j | 0 <= j < MAX_TASKS && j != cur && Runnable(ts[j]) ensures Ahead(cur, n) <= Ahead(cur, j) {
      PickWithin(ts, cur, 1, j);
      AheadIsDistance(cur, j);
    }
  }

  /** It comes back to the current slot, or finds nothing, only if no other slot is runnable. */
  lemma PickLast(ts: seq<Task>, cur: nat)
    requires |ts| == MAX_TASKS && cur < MAX_TASKS && Pick(ts, cur, 1) in {None, Some(cur)}
    ensures Alone(ts, cur)
  {
    forall j | 0 <= j < MAX_TASKS && j != cur ensures !Runnable(ts[j]) {
      if Runnable(ts[j]) {
        PickWithin(ts, cur, 1, j);
        AheadIsDistance(cur, j);
      }
    }
  }

  /** sched_schedule: a running task that has to give way becomes ready. */
  lemma ScheduleEffect(t: Table)
    requires WellSized(t)
    ensures var u, mine := Step(t, Schedule), t.tasks[t.current];
      Passes(t, u, if mine.state == Running && !Alone(t.tasks, t.current) then mine.(state := Ready) else mine)
  {
    var r := Pick(t.tasks, t.current, 1);
    if r in {None, Some(t.current)} {
      PickLast(t.tasks, t.current);
    } else {
      PickFirst(t.tasks, t.current, r.value);
      assert Runnable(t.tasks[r.value]);
    }
  }

  /** The search does not depend on the caller's own slot. */
  lemma SameTurn(ts: seq<Task>, us: seq<Task>, cur: nat, n: nat)
    requires |ts| == |us| == MAX_TASKS && cur < MAX_TASKS && n < MAX_TASKS
    requires forall k :: 0 <= k < MAX_TASKS && k != cur ==> ts[k] == us[k]
    ensures FirstBehind(ts, cur, n) <==> FirstBehind(us, cur, n)
    ensures Alone(ts, cur) <==> Alone(us, cur)
  {
  }

  /** Giving up the processor in a state that is not runnable. */
  lemma GivesUp(t: Table, mine: Task)
    requires WellSized(t) && !Runnable(mine)
    ensures Passes(t, Switch(t.(tasks := t.tasks[t.current := mine])), mine)
  {
    var v := t.(tasks := t.tasks[t.current := mine]);
    ScheduleEffect(v);
    SameTurn(t.tasks, v.tasks, t.current, Switch(v).current);
  }

  // ---------------------------------------------------------------- the operations

  /** sched_init: the idle task runs in slot 0, and no other slot is in use. */
  lemma BootEffect(k: nat)
    requires k < MAX_TASKS
    ensures Boot().tasks[0] == Task(0, Running, None, 0) && Boot().current == 0 && Boot().nextPid == 1
    ensures Boot().tasks[k].state == Unused <==> k != 0
  {
  }

  /** sched_block: the caller is blocked and the next task runs. */
  lemma BlockEffect(t: Table)
    requires WellSized(t)
    ensures Passes(t, Step(t, Block), t.tasks[t.current].(state := Blocked))
  {
    GivesUp(t, t.tasks[t.current].(state := Blocked));
  }

  lemma EndedSlots(t: Table, code: int, ts: seq<Task>, mine: Task)
    requires WellSized(t) && |ts| == MAX_TASKS && mine == t.tasks[t.current].(state := Terminated, exitCode := code)
    requires forall k :: 0 <= k < MAX_TASKS ==>
      ts[k] == if t.tasks[k].state == Blocked then t.tasks[k].(state := Ready) else t.tasks[k]
    ensures Ended(t, code) == t.(tasks := ts[t.current := mine])
  {
    assert Ended(t, code).tasks == ts[t.current := mine];
  }

  /** sys_exit: the caller is terminated with its exit code, every blocked task becomes ready, and the next task
      runs. */
  lemma ExitEffect(t: Table, code: int, ts: seq<Task>)
    requires WellSized(t) && |ts| == MAX_TASKS
    requires forall k :: 0 <= k < MAX_TASKS ==>
      ts[k] == if t.tasks[k].state == Blocked then t.tasks[k].(state := Ready) else t.tasks[k]
    ensures Passes(t.(tasks := ts), Step(t, Exit(code)), t.tasks[t.current].(state := Terminated, exitCode := code))
  {
    var mine, woken := t.tasks[t.current].(state := Terminated, exitCode := code), t.(tasks := ts);
    EndedSlots(t, code, ts, mine);
    GivesUp(woken, mine);
    assert woken.(tasks := ts[t.current := mine]) == Ended(t, code);
  }

  /** sys_waitpid, one turn: no task in use has the identifier; or the first that has is terminated, and its slot
      is freed; or the caller is blocked until it is. */
  lemma WaitEffect(t: Table, pid: nat)
    requires WellSized(t)
    ensures WaitTurn(t, pid).1 == Invalid <==> forall k :: 0 <= k < MAX_TASKS && t.tasks[k].id == pid ==>
      t.tasks[k].state == Unused
    ensures WaitTurn(t, pid).1 == Invalid ==> Step(t, Wait(pid)) == t
    ensures forall c :: 0 <= c < MAX_TASKS && FirstWith(t.tasks, pid, c) ==>
      var u := Step(t, Wait(pid));
      if t.tasks[c].state == Terminated
      then u == t.(tasks := t.tasks[c := t.tasks[c].(state := Unused)]) && WaitTurn(t, pid).1 == Reaped
      else Passes(t, u, t.tasks[t.current].(state := Blocked)) && WaitTurn(t, pid).1 == Waiting
  {
    GivesUp(t, t.tasks[t.current].(state := Blocked));
    forall c | 0 <= c < MAX_TASKS && FirstWith(t.tasks, pid, c) ensures ById(t.tasks, pid, 0) == Some(c) {
      FirstFound(t.tasks, pid, c, 0);
    }
  }

  /** Slot c is the first in use whose task has this identifier. */
  ghost predicate FirstWith(ts: seq<Task>, pid: nat, c: nat)
    requires c < |ts|
  {
    && ts[c].id == pid && ts[c].state != Unused
    && forall k :: 0 <= k < c && ts[k].id == pid ==> ts[k].state == Unused
  }

  lemma {:induction false} FirstFound(ts: seq<Task>, pid: nat, c: nat, i: nat)
    requires i <= c < |ts| && FirstWith(ts, pid, c)
    ensures ById(ts, pid, i) == Some(c)
    decreases c - i
  {
    if i < c {
      FirstFound(ts, pid, c, i + 1);
    }
  }

  /** Slot c is the first that is not in use. */
  ghost predicate FirstUnused(ts: seq<Task>, c: nat)
    requires c < |ts|
  {
    ts[c].state == Unused && forall k :: 0 <= k < c ==> ts[k].state != Unused
  }

  ghost predicate Full(ts: seq<Task>) { forall k :: 0 <= k < |ts| ==> ts[k].state != Unused }

  /** sched_create_thread: a ready task without a parent in the first unused slot, under the next identifier. */
  lemma CreateEffect(t: Table)
    requires WellSized(t)
    ensures Full(t.tasks) ==> Step(t, Create) == t
    ensures forall c :: 0 <= c < MAX_TASKS && FirstUnused(t.tasks, c) ==>
      && Step(t, Create).tasks == t.tasks[c := Task(t.nextPid, Ready, None, 0)]
      && Step(t, Create).current == t.current
      && (t.nextPid < 0xFFFF_FFFF ==> Step(t, Create).nextPid == t.nextPid + 1)
      && (t.nextPid == 0xFFFF_FFFF ==> Step(t, Create).nextPid == 0)
  {
    forall c | 0 <= c < MAX_TASKS && FirstUnused(t.tasks, c) ensures FreeSlot(t.tasks, 0) == Some(c) {
      var r := FreeSlot(t.tasks, 0);
      assert r.Some?;
      assert r.value <= c && c <= r.value;
    }
  }

  /** sys_vfork: a child of the caller runs in the first unused slot, and the caller is blocked. */
  lemma VforkEffect(t: Table, c: nat)
    requires WellSized(t) && c < MAX_TASKS && FirstUnused(t.tasks, c) && c != t.current
    ensures var u := Step(t, Vfork);
      && u.current == c && u.nextPid == Step(t, Create).nextPid
      && u.tasks[c] == Task(t.nextPid, Running, Some(t.current), 0)
      && u.tasks[t.current] == t.tasks[t.current].(state := Blocked)
      && forall k :: 0 <= k < MAX_TASKS && k != c && k != t.current ==> u.tasks[k] == t.tasks[k]
  {
    CreateEffect(t);
  }

  lemma FullVforkEffect(t: Table)
    requires WellSized(t) && Full(t.tasks)
    ensures Step(t, Vfork) == t
  {
  }

  /** sched_unblock: only a blocked task becomes ready. */
  lemma UnblockEffect(t: Table, slot: nat, k: nat)
    requires WellSized(t) && k < MAX_TASKS
    ensures var u := Step(t, Unblock(slot));
      && u.current == t.current && u.nextPid == t.nextPid
      && u.tasks[k] == if k == slot && t.tasks[k].state == Blocked then t.tasks[k].(state := Ready) else t.tasks[k]
  {
  }
}
