/** Capability tables are found by task identifier modulo 64, while the scheduler of
    sageos_build/kernel/core/scheduler.c has room for 128 tasks: live tasks can share a table. */
module Sharing {
  import opened Bytes
  import P = Process
  import Caps

  /** The table after n creations at boot. */
  function Filled(n: nat): (t: P.Table)
    requires n < P.MAX_TASKS
    ensures P.WellSized(t)
  {
    P.Table(seq(P.MAX_TASKS, i requires 0 <= i < P.MAX_TASKS =>
      if i == 0 then P.Task(0, P.Running, None, 0)
      else if i <= n then P.Task(i, P.Ready, None, 0)
      else P.Task(0, P.Unused, None, 0)), 0, n + 1)
  }

  lemma CreateFills(n: nat)
    requires n + 1 < P.MAX_TASKS
    ensures P.Spawn(Filled(n)).0 == Filled(n + 1)
  {
    var t := Filled(n);
    assert t.tasks[n + 1].state == P.Unused;
    assert P.FreeSlot(t.tasks, 0) == Some(n + 1);
    assert P.Spawn(t).0.tasks == Filled(n + 1).tasks;
  }

  function Creates(n: nat): (ops: seq<P.Op>)
  {
    if n == 0 then [] else [P.Create] + Creates(n - 1)
  }

  lemma {:induction false} CreatesFill(m: nat, n: nat, t: P.Table, u: P.Table, ops: seq<P.Op>)
    requires m + n < P.MAX_TASKS && t == Filled(m) && u == Filled(m + n) && ops == Creates(n)
    ensures P.Leads(t, ops, u)
    decreases n
  {
    if n > 0 {
      var next, rest := Filled(m + 1), Creates(n - 1);
      CreateFills(m);
      CreatesFill(m + 1, n - 1, next, u, rest);
      P.LeadsFrom(t, P.Create, next, rest, u);
    }
  }

  lemma BootFills(n: nat)
    requires n < P.MAX_TASKS
    ensures P.Legal(P.Boot(), Creates(n)) && P.Exec(P.Boot(), Creates(n)) == Filled(n)
  {
    assert P.Boot().tasks == Filled(0).tasks;
    CreatesFill(0, n, Filled(0), Filled(n), Creates(n));
    P.LeadsMeans(P.Boot(), Creates(n), Filled(n));
  }

  lemma StartClears(s: Caps.System, n: nat)
    requires 64 <= n
    ensures Caps.Step(s, n, Caps.StartThread).0[Caps.TableOf(n - 64)] == Caps.Fresh()
    ensures !Caps.KeepsTable(n, Caps.StartThread, n - 64)
  {
    assert Caps.TableOf(n - 64) == Caps.TableOf(n);
    Caps.TableKeptExactly(n, Caps.StartThread, n - 64);
  }

  /** After n creations from boot, 64 <= n < 128, the tasks n - 64 and n are live, and the start of task n
      cleared the capability table that both of them use: task n - 64 is left with the root directory alone. */
  lemma LiveTasksShareTable(s: Caps.System, n: nat)
    requires 64 <= n < P.MAX_TASKS
    ensures P.Legal(P.Boot(), Creates(n))
    ensures var t := P.Exec(P.Boot(), Creates(n));
      t.tasks[n - 64].id == n - 64 && P.Runnable(t.tasks[n - 64]) && t.tasks[n].id == n && P.Runnable(t.tasks[n])
    ensures Caps.Step(s, n, Caps.StartThread).0[Caps.TableOf(n - 64)] == Caps.Fresh()
    ensures !Caps.KeepsTable(n, Caps.StartThread, n - 64)
  {
    BootFills(n);
    StartClears(s, n);
  }
}
