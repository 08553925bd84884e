/** Endpoints and the capabilities for them together: what the IPC system calls of sageos_build/kernel/core/ipc.c
    can do to the endpoint pool over whole runs. */
module Endpoints {
  import opened Bytes
  import Caps
  import Ring
  import CapEffects

  const POOL := 128
  const RING_SIZE := 16

  const BLANK := Ring.Queue(Ring.Dead, 0, [], 0, 0, 0, 0)

  type Pool = p: seq<Ring.Queue> | |p| == POOL witness seq(POOL, _ => BLANK)

  datatype System = System(caps: Caps.System, pool: Pool)

  /** The system calls that are not steps of the capability tables alone are written out. */
  datatype Call =
    | Create(memory: bool)
    | Send(handle: nat, msg: Ring.Msg, transfer: bool)
    | Receive(handle: nat)
    | Rpc(handle: nat, msg: Ring.Msg)
    | Destroy(handle: nat)
    | Pause(handle: nat)
    | Resume(handle: nat)
    | Drain(handle: nat)
    | Other(op: Caps.Op)

  // ---------------------------------------------------------------- allocation

  predicate Vacant(q: Ring.Queue) { q.state == Ring.Dead || q.state == Ring.Constructed }

  function FirstVacant(p: seq<Ring.Queue>, i: nat): (r: Option<nat>)
    requires i <= |p|
    ensures r.Some? ==> i <= r.value < |p| && Vacant(p[r.value])
    ensures r.Some? ==> forall k :: i <= k < r.value ==> !Vacant(p[k])
    ensures r.None? ==> forall k :: i <= k < |p| ==> !Vacant(p[k])
    decreases |p| - i
  {
    if i == |p| then None else if Vacant(p[i]) then Some(i) else FirstVacant(p, i + 1)
  }

  /** ipc_alloc_endpoint leaves the entry CONSTRUCTED, which it takes for vacant the next time. */
  function Allocated(p: Pool, i: nat): (r: Pool)
    requires i < POOL
  {
    p[i := BLANK.(state := Ring.Constructed)]
  }

  /** The two endpoints that sys_ipc_endpoint_create allocates are one and the same. */
  lemma AllocatesTwice(p: Pool)
    ensures match FirstVacant(p, 0)
      case None => true
      case Some(i) => FirstVacant(Allocated(p, i), 0) == Some(i)
  {
    var r := FirstVacant(p, 0);
    if r.Some? {
      var q := Allocated(p, r.value);
      assert Vacant(q[r.value]) && forall k :: 0 <= k < r.value ==> q[k] == p[k];
    }
  }

  method AllocEndpoint(pool: array<Ring.Queue>) returns (r: Option<nat>)
    requires pool.Length == POOL
    modifies pool
    ensures r == FirstVacant(old(pool[..]), 0)
    ensures pool[..] == match r case None => old(pool[..]) case Some(i) => Allocated(old(pool[..]), i)
  {
    var i := 0;
    while i < POOL
      invariant i <= POOL && pool[..] == old(pool[..])
      invariant FirstVacant(pool[..], i) == FirstVacant(old(pool[..]), 0)
    {
      if pool[i].state == Ring.Dead || pool[i].state == Ring.Constructed {
        pool[i] := BLANK.(state := Ring.Constructed);
        return Some(i);
      }
      i := i + 1;
    }
    return None;
  }

  // ---------------------------------------------------------------- calls

  predicate Grants(s: System, task: nat, h: nat, r: Caps.Right)
  {
    var t := s.caps[Caps.TableOf(task)];
    Caps.Holds(t, h, r) && t[h].kind == Caps.Endpoint
  }

  function EndpointOf(s: System, task: nat, h: nat): (i: nat)
    requires h < Caps.SLOTS
  {
    s.caps[Caps.TableOf(task)][h].obj
  }

  /** The endpoint a capability names. One outside the pool is left open here; NamesInPool shows that there is
      none. */
  function At(s: System, i: nat): (q: Ring.Queue) { if i < POOL then s.pool[i] else BLANK }

  function Put(s: System, i: nat, q: Ring.Queue): (r: System) { if i < POOL then s.(pool := s.pool[i := q]) else s }

  function OnEndpoint(s: System, i: nat, op: Ring.Op): (r: System) { Put(s, i, Ring.Step(At(s, i), op).0) }

  /** sys_ipc_endpoint_create: without memory for the rings or a free slot the endpoint is given up. */
  function Created(s: System, task: nat, memory: bool): (r: System)
  {
    match FirstVacant(s.pool, 0)
    case None => s
    case Some(i) =>
      var (caps, ok) := Caps.Step(s.caps, task, Caps.EndpointCreate(i));
      if memory && ok
      then System(caps, s.pool[i := BLANK.(state := Ring.Active, size := RING_SIZE)])
      else s.(pool := s.pool[i := BLANK.(size := RING_SIZE)])
  }

  function Sent(s: System, task: nat, h: nat, m: Ring.Msg, transfer: bool): (r: System)
  {
    if !Grants(s, task, h, Caps.Send) then s
    else
      var i := EndpointOf(s, task, h);
      if At(s, i).state != Ring.Active && At(s, i).state != Ring.Draining then s
      else
        var (caps, ok) := Caps.Step(s.caps, task, Caps.SendMessage(h, m.caps, transfer));
        if ok then OnEndpoint(s.(caps := caps), i, Ring.Enqueue(m)) else s.(caps := caps)
  }

  function Step(s: System, task: nat, call: Call): (r: System)
  {
    match call
    case Create(memory) => Created(s, task, memory)
    case Send(h, m, transfer) => Sent(s, task, h, m, transfer)
    case Receive(h) =>
      if Grants(s, task, h, Caps.Recv) then OnEndpoint(s, EndpointOf(s, task, h), Ring.Dequeue) else s
    case Rpc(h, m) => if Grants(s, task, h, Caps.Call) then Sent(s, task, h, m, false) else s
    case Destroy(h) =>
      var caps := Caps.Step(s.caps, task, Caps.Destroy(h)).0;
      var i := if h < Caps.SLOTS then EndpointOf(s, task, h) else 0;
      if Grants(s, task, h, Caps.Revoke) then Put(s.(caps := caps), i, At(s, i).(state := Ring.Dead))
      else s.(caps := caps)
    case Pause(h) =>
      if Grants(s, task, h, Caps.Revoke) then OnEndpoint(s, EndpointOf(s, task, h), Ring.Change(Ring.Paused)) else s
    case Resume(h) =>
      var t := s.caps[Caps.TableOf(task)];
      if Caps.Resolve(t, h).Some? && t[h].kind == Caps.Endpoint
      then OnEndpoint(s, EndpointOf(s, task, h), Ring.Resume) else s
    case Drain(h) =>
      if Grants(s, task, h, Caps.Revoke) then OnEndpoint(s, EndpointOf(s, task, h), Ring.Change(Ring.Draining)) else s
    case Other(op) =>
      if op.EndpointCreate? || op.SendMessage? || op.Destroy? then s else s.(caps := Caps.Step(s.caps, task, op).0)
  }

  datatype Request = Request(task: nat, call: Call)

  function Exec(s: System, calls: seq<Request>): (r: System)
  {
    if calls == [] then s
    else
      var n := |calls| - 1;
      Step(Exec(s, calls[..n]), calls[n].task, calls[n].call)
  }

  /** ipc_subsystem_init */
  function Boot(): (s: System) { System(Caps.Initial(), seq(POOL, _ => BLANK)) }

  // ---------------------------------------------------------------- what the calls can do

  /** No message waits or was ever sent, and the endpoint is in use or not. */
  predicate Idle(q: Ring.Queue) { q.items == [] && q.sent == 0 && q.state in {Ring.Active, Ring.Dead} }

  predicate InPool(c: Caps.Cap) { c.kind == Caps.Endpoint ==> c.obj < POOL }

  /** What every call keeps: minted rights only, capabilities for endpoints that exist, and idle endpoints. */
  ghost predicate Inv(s: System)
  {
    Caps.Inv(s.caps) && Caps.EveryIn(s.caps, InPool) && forall i :: 0 <= i < POOL ==> Idle(s.pool[i])
  }

  lemma CapsInv(s: System, task: nat, op: Caps.Op)
    requires Inv(s) && (op.EndpointCreate? ==> op.obj < POOL)
    ensures Caps.Inv(Caps.Step(s.caps, task, op).0) && Caps.EveryIn(Caps.Step(s.caps, task, op).0, InPool)
  {
    Caps.StepInv(s.caps, task, op);
    Caps.StepEvery(s.caps, task, op, InPool);
  }

  lemma NoRight(s: System, task: nat, h: nat, r: Caps.Right)
    requires Inv(s) && r in {Caps.Send, Caps.Call, Caps.Revoke}
    ensures !Grants(s, task, h, r)
  {
    assert Caps.Within(s.caps[Caps.TableOf(task)]);
  }

  lemma StepInv(s: System, task: nat, call: Call)
    requires Inv(s)
    ensures Inv(Step(s, task, call))
  {
    match call
    case Create(memory) =>
      var r := FirstVacant(s.pool, 0);
      if r.Some? {
        CapsInv(s, task, Caps.EndpointCreate(r.value));
      }
    case Send(h, m, transfer) => NoRight(s, task, h, Caps.Send);
    case Receive(h) =>
    case Rpc(h, m) => NoRight(s, task, h, Caps.Call);
    case Destroy(h) =>
      NoRight(s, task, h, Caps.Revoke);
      CapsInv(s, task, Caps.Destroy(h));
    case Pause(h) => NoRight(s, task, h, Caps.Revoke);
    case Resume(h) =>
    case Drain(h) => NoRight(s, task, h, Caps.Revoke);
    case Other(op) =>
      if !op.EndpointCreate? {
        CapsInv(s, task, op);
      }
  }

  /** Over every run of IPC system calls no endpoint is ever paused or draining, and none ever gets a message. */
  lemma {:induction false} EndpointsStayIdle(calls: seq<Request>)
    ensures Inv(Exec(Boot(), calls))
  {
    if calls != [] {
      var n := |calls| - 1;
      EndpointsStayIdle(calls[..n]);
      StepInv(Exec(Boot(), calls[..n]), calls[n].task, calls[n].call);
    }
  }

  /** Over every run a capability for an endpoint names one of the pool. */
  lemma NamesInPool(calls: seq<Request>, task: nat, h: nat)
    requires h < Caps.SLOTS
    ensures var c := Exec(Boot(), calls).caps[Caps.TableOf(task)][h];
      c.kind == Caps.Endpoint ==> c.obj < 128
  {
    EndpointsStayIdle(calls);
    assert Caps.Every(Exec(Boot(), calls).caps[Caps.TableOf(task)], InPool);
  }

  // ---------------------------------------------------------------- what the calls do to an endpoint

  /** Only endpoint i differs between the pools. */
  ghost predicate OthersStay(s: System, u: System, i: nat)
  {
    forall k :: 0 <= k < POOL && k != i ==> u.pool[k] == s.pool[k]
  }

  /** A creation takes the first endpoint that is dead or only constructed, and makes it active with 16 places. */
  lemma CreateEffect(s: System, task: nat, i: nat, n: nat)
    requires i < POOL && (s.pool[i].state == Ring.Dead || s.pool[i].state == Ring.Constructed)
    requires forall k :: 0 <= k < i ==> s.pool[k].state != Ring.Dead && s.pool[k].state != Ring.Constructed
    requires CapEffects.FirstEmpty(s.caps[task % 64], n)
    ensures var u := Step(s, task, Create(true));
      && u.pool[i] == Ring.Queue(Ring.Active, 16, [], 0, 0, 0, 0) && OthersStay(s, u, i)
      && u.caps[task % 64][n].kind == Caps.Endpoint && u.caps[task % 64][n].obj == i
      && Caps.Recv in u.caps[task % 64][n].rights
  {
    assert FirstVacant(s.pool, 0) == Some(i);
    CapEffects.EndpointEffect(s.caps, task, i, n);
  }

  /** Without memory for its ring, or without a slot, the endpoint is dead and no table changes. */
  lemma FailedCreateEffect(s: System, task: nat, i: nat, memory: bool)
    requires FirstVacant(s.pool, 0) == Some(i) && (!memory || CapEffects.Full(s.caps[task % 64]))
    ensures var u := Step(s, task, Create(memory));
      u.caps == s.caps && u.pool[i] == Ring.Queue(Ring.Dead, 16, [], 0, 0, 0, 0) && OthersStay(s, u, i)
  {
    if memory {
      CapEffects.FullEffect(s.caps, task, Caps.EndpointCreate(i));
    }
  }

  /** A message sent by a holder of the right to send on an active endpoint with room comes behind those that wait
      there, and a holder of the right to receive gets them in that order. */
  lemma MessageDelivered(s: System, a: nat, h: nat, b: nat, g: nat, i: nat, m: Ring.Msg)
    requires Grants(s, a, h, Caps.Send) && EndpointOf(s, a, h) == i < POOL
    requires Grants(s, b, g, Caps.Recv) && EndpointOf(s, b, g) == i
    requires s.pool[i].state == Ring.Active && |s.pool[i].items| < s.pool[i].size && m.caps == []
    ensures var u := Step(s, a, Send(h, m, false));
      var v := Step(u, b, Receive(g));
      && u.pool[i].items == s.pool[i].items + [m] && u.caps == s.caps && OthersStay(s, u, i)
      && [u.pool[i].items[0]] + v.pool[i].items == u.pool[i].items && v.caps == s.caps && OthersStay(s, v, i)
  {
    CapEffects.SendEffect(s.caps, a, h, [], false);
    assert s.caps[a % 64 := s.caps[a % 64]] == s.caps;
  }
}
