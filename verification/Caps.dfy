/** Capability tables of sageos_build/kernel/core/ipc.c and scheduler_ipc_ext.c: one table of slots per task,
    changed by system calls that mint, copy, narrow and drop capabilities. */
module Caps {
  import opened Bytes

  datatype Right = Send | Recv | Call | Map | Dup | Revoke | VfsRead | VfsWrite

  datatype Kind = NoObject | Endpoint | Channel | Port | SharedMem | SignalSet | Monitor | File | Dir

  datatype Cap = Cap(rights: set<Right>, kind: Kind, obj: nat, refs: nat, owner: nat, immutable: bool, path: string)

  const SLOTS := 64

  const EMPTY := Cap({}, NoObject, 0, 0, 0, false, "")

  type Table = t: seq<Cap> | |t| == SLOTS witness seq(SLOTS, _ => EMPTY)

  // ---------------------------------------------------------------- one table

  /** ipc_cap_is_valid */
  predicate Usable(c: Cap) { c.kind != NoObject && c.refs > 0 }

  function FreeSlot(t: seq<Cap>, i: nat): (r: Option<nat>)
    requires i <= |t|
    ensures r.Some? ==> i <= r.value < |t| && t[r.value].kind == NoObject
    ensures r.None? ==> forall k :: i <= k < |t| ==> t[k].kind != NoObject
    decreases |t| - i
  {
    if i == |t| then None else if t[i].kind == NoObject then Some(i) else FreeSlot(t, i + 1)
  }

  /** ipc_cap_resolve */
  function Resolve(t: Table, h: nat): (r: Option<Cap>)
  {
    if h < SLOTS && Usable(t[h]) then Some(t[h]) else None
  }

  function Holds(t: Table, h: nat, r: Right): bool
  {
    Resolve(t, h).Some? && r in Resolve(t, h).value.rights
  }

  function SendCap(obj: nat, task: nat): Cap { Cap({Send, Call, Dup}, Endpoint, obj, 1, task, false, "") }

  function RecvCap(obj: nat, task: nat): Cap { Cap({Recv, Dup}, Endpoint, obj, 1, task, false, "") }

  function PortCap(obj: nat, task: nat): Cap { Cap({Send, Recv, Dup}, Port, obj, 1, task, false, "") }

  /** sys_ipc_endpoint_create asks for two free slots before it fills either, and fills the receiving half
      last.  The answers are the handles it reports. */
  function CreateEndpoint(t: Table, obj: nat, task: nat): (r: (Table, Option<(nat, nat)>))
  {
    var s, v := FreeSlot(t, 0), FreeSlot(t, 0);
    if s.Some? && v.Some? then
      (t[s.value := SendCap(obj, task)][v.value := RecvCap(obj, task)], Some((s.value, v.value)))
    else (t, None)
  }

  function CreatePort(t: Table, obj: nat, task: nat): (r: (Table, Option<nat>))
  {
    match FreeSlot(t, 0)
    case Some(h) => (t[h := PortCap(obj, task)], Some(h))
    case None => (t, None)
  }

  function Bump(c: Cap): Cap { c.(refs := (c.refs + 1) % 0x1_0000_0000) }

  function Duplicate(t: Table, h: nat): (r: (Table, Option<nat>))
  {
    if !Holds(t, h, Dup) then (t, None)
    else match FreeSlot(t, 0)
         case Some(n) => (t[n := Bump(t[h])], Some(n))
         case None => (t, None)
  }

  function Narrow(t: Table, h: nat, keep: set<Right>): (r: (Table, bool))
  {
    if Resolve(t, h).None? || t[h].immutable then (t, false)
    else (t[h := t[h].(rights := t[h].rights * keep)], true)
  }

  function Clear(t: Table, h: nat): (r: Table)
  {
    if h < SLOTS then t[h := EMPTY] else t
  }

  /** The capability loop of sys_ipc_send: stops at the first handle that does not resolve, keeping what it
      moved out before. */
  function MoveOut(t: Table, handles: seq<nat>, transfer: bool): (r: (Table, bool))
    decreases |handles|
  {
    if handles == [] then (t, true)
    else if Resolve(t, handles[0]).None? then (t, false)
    else MoveOut(if transfer then Clear(t, handles[0]) else t, handles[1..], transfer)
  }

  /** sys_ipc_ns_lookup: a copy without the right to revoke or to duplicate. */
  function CopyIn(t: Table, src: Cap, task: nat): (r: (Table, Option<nat>))
  {
    match FreeSlot(t, 0)
    case Some(h) => (t[h := Bump(src).(rights := src.rights - {Revoke, Dup}, owner := task)], Some(h))
    case None => (t, None)
  }

  const ROOT := Cap({VfsRead, VfsWrite}, Dir, 0, 1, 0, false, "/")

  /** sched_ipc_init_thread: everything empty but the root directory in slot 0. */
  function Fresh(): (t: Table) { seq(SLOTS, i => if i == 0 then ROOT else EMPTY) }

  function Blank(): (t: Table) { seq(SLOTS, _ => EMPTY) }

  // ---------------------------------------------------------------- all tables

  const TABLES := 64

  type System = s: seq<Table> | |s| == TABLES witness seq(TABLES, _ => Blank())

  /** The table of a task; tasks whose identifiers agree modulo the number of tables share one. */
  function TableOf(task: nat): nat { task % TABLES }

  /** os_spawn_task: the child starts like every thread and then gets a copy of the table of its parent. */
  function Spawned(s: System, parent: nat, child: nat): (r: System)
  {
    var u := s[TableOf(child) := Fresh()];
    u[TableOf(child) := u[TableOf(parent)]]
  }

  datatype Op =
    | EndpointCreate(obj: nat)
    | PortCreate(obj: nat)
    | Copy(handle: nat)
    | Restrict(handle: nat, keep: set<Right>)
    | SendMessage(handle: nat, handles: seq<nat>, transfer: bool)
    | Lookup(from: nat, handle: nat)
    | Destroy(handle: nat)
    | Pause(handle: nat)
    | Drain(handle: nat)
    | StartThread
    | EndThread
    | SpawnTask(child: nat)

  /** One system call of `task`, or its start or end.  A lookup copies slot `handle` of the table of the
      task that registered the name. */
  function Step(s: System, task: nat, op: Op): (r: (System, bool))
  {
    var k := TableOf(task);
    var t := s[k];
    match op
    case EndpointCreate(o) => var (u, h) := CreateEndpoint(t, o, task); (s[k := u], h.Some?)
    case PortCreate(o) => var (u, h) := CreatePort(t, o, task); (s[k := u], h.Some?)
    case Copy(h) => var (u, n) := Duplicate(t, h); (s[k := u], n.Some?)
    case Restrict(h, keep) => var (u, ok) := Narrow(t, h, keep); (s[k := u], ok)
    case SendMessage(h, hs, transfer) =>
      if !Holds(t, h, Send) || t[h].kind != Endpoint then (s, false)
      else var (u, ok) := MoveOut(t, hs, transfer); (s[k := u], ok)
    case Lookup(from, h) =>
      if h >= SLOTS then (s, false)
      else var (u, n) := CopyIn(t, s[TableOf(from)][h], task); (s[k := u], n.Some?)
    case Destroy(h) => if !Holds(t, h, Revoke) then (s, false) else (s[k := Clear(t, h)], true)
    case Pause(h) => (s, Holds(t, h, Revoke) && t[h].kind in {Endpoint, Channel})
    case Drain(h) => (s, Holds(t, h, Revoke) && t[h].kind in {Endpoint, Channel})
    case StartThread => (s[k := Fresh()], true)
    case EndThread => (s[k := Blank()], true)
    case SpawnTask(child) => (Spawned(s, task, child), true)
  }

  /** The rights that an object of each kind is ever given out with. */
  function Minted(k: Kind): set<Right>
  {
    match k
    case Endpoint => {Recv, Dup}
    case Port => {Send, Recv, Dup}
    case Dir => {VfsRead, VfsWrite}
    case _ => {}
  }

  ghost predicate Within(t: Table)
  {
    forall h :: 0 <= h < SLOTS && t[h].kind != NoObject ==> t[h].rights <= Minted(t[h].kind)
  }

  ghost predicate Inv(s: System) { forall k :: 0 <= k < TABLES ==> Within(s[k]) }

  /** The two handles are the same slot, so the receiving half is what is left. */
  lemma HandlesCoincide(t: Table, obj: nat, task: nat)
    ensures var (u, hs) := CreateEndpoint(t, obj, task);
      hs.Some? ==> hs.value.0 == hs.value.1 && u[hs.value.0] == RecvCap(obj, task)
  {
  }

  lemma {:induction false} MoveOutWithin(t: Table, handles: seq<nat>, transfer: bool)
    requires Within(t)
    ensures Within(MoveOut(t, handles, transfer).0)
    decreases |handles|
  {
    if handles != [] && Resolve(t, handles[0]).Some? {
      MoveOutWithin(if transfer then Clear(t, handles[0]) else t, handles[1..], transfer);
    }
  }

  lemma StepInv(s: System, task: nat, op: Op)
    requires Inv(s)
    ensures Inv(Step(s, task, op).0)
  {
    var k := TableOf(task);
    var t := s[k];
    assert Within(t);
    match op
    case EndpointCreate(o) => HandlesCoincide(t, o, task);
    case PortCreate(o) =>
    case Copy(h) =>
    case Restrict(h, keep) =>
    case SendMessage(h, hs, transfer) => MoveOutWithin(t, hs, transfer);
    case Lookup(from, h) => assert Within(s[TableOf(from)]);
    case Destroy(h) =>
    case Pause(h) =>
    case Drain(h) =>
    case StartThread =>
    case EndThread =>
    case SpawnTask(child) =>
  }

  datatype Request = Request(task: nat, op: Op)

  function Exec(s: System, calls: seq<Request>): (r: System)
  {
    if calls == [] then s
    else
      var n := |calls| - 1;
      Step(Exec(s, calls[..n]), calls[n].task, calls[n].op).0
  }

  function Initial(): (s: System) { seq(TABLES, _ => Blank()) }

  /** No run amplifies rights: every occupied slot stays within what its kind of object is minted with. */
  lemma {:induction false} NoAmplification(calls: seq<Request>)
    ensures Inv(Exec(Initial(), calls))
  {
    if calls != [] {
      var n := |calls| - 1;
      NoAmplification(calls[..n]);
      StepInv(Exec(Initial(), calls[..n]), calls[n].task, calls[n].op);
    }
  }

  /** Hence nobody ever holds the right to revoke, and destroy, pause and drain are refused in every
      reachable state; and nobody can send on an endpoint. */
  lemma AlwaysRefused(calls: seq<Request>, task: nat, h: nat, hs: seq<nat>, transfer: bool)
    ensures var s := Exec(Initial(), calls);
      && Step(s, task, Destroy(h)) == (s, false)
      && Step(s, task, Pause(h)) == (s, false)
      && Step(s, task, Drain(h)) == (s, false)
      && Step(s, task, SendMessage(h, hs, transfer)) == (s, false)
  {
    NoAmplification(calls);
    assert Within(Exec(Initial(), calls)[TableOf(task)]);
  }

  // ---------------------------------------------------------------- one object

  predicate Names(c: Cap, kind: Kind, obj: nat) { c.kind == kind && c.obj == obj }

  /** Every slot of the table that names the object has at most these rights. */
  ghost predicate Capped(t: Table, kind: Kind, obj: nat, most: set<Right>)
  {
    forall h :: 0 <= h < SLOTS && Names(t[h], kind, obj) ==> t[h].rights <= most
  }

  ghost predicate CappedAll(s: System, kind: Kind, obj: nat, most: set<Right>)
  {
    forall k :: 0 <= k < TABLES ==> Capped(s[k], kind, obj, most)
  }

  /** The operation gives out a capability for the object that it did not find in a table. */
  predicate Mints(op: Op, kind: Kind, obj: nat)
  {
    match op
    case EndpointCreate(o) => kind == Endpoint && o == obj
    case PortCreate(o) => kind == Port && o == obj
    case StartThread => kind == Dir && obj == 0
    case SpawnTask(_) => kind == Dir && obj == 0
    case _ => false
  }

  lemma {:induction false} MoveOutCapped(t: Table, handles: seq<nat>, transfer: bool,
                                         kind: Kind, obj: nat, most: set<Right>)
    requires kind != NoObject && Capped(t, kind, obj, most)
    ensures Capped(MoveOut(t, handles, transfer).0, kind, obj, most)
    decreases |handles|
  {
    if handles != [] && Resolve(t, handles[0]).Some? {
      MoveOutCapped(if transfer then Clear(t, handles[0]) else t, handles[1..], transfer, kind, obj, most);
    }
  }

  lemma UpdateCapped(s: System, k: nat, u: Table, kind: Kind, obj: nat, most: set<Right>)
    requires k < TABLES && CappedAll(s, kind, obj, most) && Capped(u, kind, obj, most)
    ensures CappedAll(s[k := u], kind, obj, most)
  {
  }

  /** A slot filled from a capability within the bound keeps the table within it. */
  lemma FillCapped(t: Table, h: nat, c: Cap, kind: Kind, obj: nat, most: set<Right>)
    requires h < SLOTS && Capped(t, kind, obj, most) && (Names(c, kind, obj) ==> c.rights <= most)
    ensures Capped(t[h := c], kind, obj, most)
  {
  }

  lemma LookupCapped(t: Table, src: Cap, task: nat, kind: Kind, obj: nat, most: set<Right>)
    requires Capped(t, kind, obj, most) && (Names(src, kind, obj) ==> src.rights <= most)
    ensures Capped(CopyIn(t, src, task).0, kind, obj, most)
  {
    var h := FreeSlot(t, 0);
    if h.Some? {
      FillCapped(t, h.value, Bump(src).(rights := src.rights - {Revoke, Dup}, owner := task), kind, obj, most);
    }
  }

  lemma StepCapped(s: System, task: nat, op: Op, kind: Kind, obj: nat, most: set<Right>)
    requires kind != NoObject && CappedAll(s, kind, obj, most) && !Mints(op, kind, obj)
    ensures CappedAll(Step(s, task, op).0, kind, obj, most)
  {
    var k := TableOf(task);
    assert Capped(s[k], kind, obj, most);
    match op {
      case EndpointCreate(o) => HandlesCoincide(s[k], o, task);
      case SendMessage(h, hs, transfer) => MoveOutCapped(s[k], hs, transfer, kind, obj, most);
      case Lookup(from, h) =>
        assert Capped(s[TableOf(from)], kind, obj, most);
        if h < SLOTS {
          LookupCapped(s[k], s[TableOf(from)][h], task, kind, obj, most);
        }
      case _ =>
    }
    if op.SpawnTask? {
      UpdateCapped(s, TableOf(op.child), Step(s, task, op).0[TableOf(op.child)], kind, obj, most);
    } else {
      UpdateCapped(s, k, Step(s, task, op).0[k], kind, obj, most);
    }
  }

  predicate NeverMints(calls: seq<Request>, kind: Kind, obj: nat)
  {
    forall i :: 0 <= i < |calls| ==> !Mints(calls[i].op, kind, obj)
  }

  /** The rights that all slots together hold over an object only shrink until it is minted again: a bound
      on what every slot may do with it holds for good. */
  lemma {:induction false} AuthorityShrinks(s: System, calls: seq<Request>, kind: Kind, obj: nat, most: set<Right>)
    requires kind != NoObject && CappedAll(s, kind, obj, most) && NeverMints(calls, kind, obj)
    ensures CappedAll(Exec(s, calls), kind, obj, most)
  {
    if calls != [] {
      var n := |calls| - 1;
      AuthorityShrinks(s, calls[..n], kind, obj, most);
      StepCapped(Exec(s, calls[..n]), calls[n].task, calls[n].op, kind, obj, most);
    }
  }

  /** Narrowing the only capability for an object takes the dropped rights away for good, from everyone. */
  lemma NarrowedForGood(s: System, task: nat, h: nat, keep: set<Right>, calls: seq<Request>)
    requires h < SLOTS && Step(s, task, Restrict(h, keep)).1
    requires forall k, j :: 0 <= k < TABLES && 0 <= j < SLOTS && (k != TableOf(task) || j != h) ==>
      !Names(s[k][j], s[TableOf(task)][h].kind, s[TableOf(task)][h].obj)
    requires NeverMints(calls, s[TableOf(task)][h].kind, s[TableOf(task)][h].obj)
    ensures var c := s[TableOf(task)][h];
      CappedAll(Exec(Step(s, task, Restrict(h, keep)).0, calls), c.kind, c.obj, c.rights * keep)
  {
    var c, u := s[TableOf(task)][h], Step(s, task, Restrict(h, keep)).0;
    forall k | 0 <= k < TABLES ensures Capped(u[k], c.kind, c.obj, c.rights * keep) {
      forall j | 0 <= j < SLOTS && Names(u[k][j], c.kind, c.obj) ensures u[k][j].rights <= c.rights * keep {
      }
    }
    AuthorityShrinks(u, calls, c.kind, c.obj, c.rights * keep);
  }

  // ---------------------------------------------------------------- properties that copies inherit

  /** What copying and narrowing make of a capability. */
  function Derived(c: Cap, rights: set<Right>, refs: nat, owner: nat): (d: Cap)
  {
    c.(rights := rights, refs := refs, owner := owner)
  }

  ghost predicate Inherited(q: Cap -> bool)
  {
    q(EMPTY) && forall c, rights, refs, owner :: q(c) && rights <= c.rights ==> q(Derived(c, rights, refs, owner))
  }

  /** What the operation puts into a slot without copying it has the property. */
  ghost predicate MintsWith(q: Cap -> bool, task: nat, op: Op)
  {
    match op
    case EndpointCreate(o) => q(RecvCap(o, task))
    case PortCreate(o) => q(PortCap(o, task))
    case StartThread => q(ROOT)
    case SpawnTask(_) => q(ROOT)
    case _ => true
  }

  ghost predicate Every(t: Table, q: Cap -> bool) { forall h :: 0 <= h < SLOTS ==> q(t[h]) }

  ghost predicate EveryIn(s: System, q: Cap -> bool) { forall k :: 0 <= k < TABLES ==> Every(s[k], q) }

  lemma EverySlot(t: Table, h: nat, c: Cap, q: Cap -> bool)
    requires h < SLOTS && Every(t, q) && q(c)
    ensures Every(t[h := c], q)
  {
  }

  lemma {:induction false} MoveOutEvery(t: Table, handles: seq<nat>, transfer: bool, q: Cap -> bool)
    requires Every(t, q) && q(EMPTY)
    ensures Every(MoveOut(t, handles, transfer).0, q)
    decreases |handles|
  {
    if handles != [] && Resolve(t, handles[0]).Some? {
      MoveOutEvery(if transfer then Clear(t, handles[0]) else t, handles[1..], transfer, q);
    }
  }

  lemma CopyEvery(t: Table, h: nat, q: Cap -> bool)
    requires Every(t, q) && Inherited(q)
    ensures Every(Duplicate(t, h).0, q)
  {
    if Holds(t, h, Dup) {
      assert Bump(t[h]) == Derived(t[h], t[h].rights, (t[h].refs + 1) % 0x1_0000_0000, t[h].owner);
    }
  }

  lemma NarrowEvery(t: Table, h: nat, keep: set<Right>, q: Cap -> bool)
    requires Every(t, q) && Inherited(q)
    ensures Every(Narrow(t, h, keep).0, q)
  {
    if Narrow(t, h, keep).1 {
      var c := t[h];
      assert c.(rights := c.rights * keep) == Derived(c, c.rights * keep, c.refs, c.owner);
    }
  }

  lemma LookupEvery(t: Table, src: Cap, task: nat, q: Cap -> bool)
    requires Every(t, q) && q(src) && Inherited(q)
    ensures Every(CopyIn(t, src, task).0, q)
  {
    assert Bump(src).(rights := src.rights - {Revoke, Dup}, owner := task)
      == Derived(src, src.rights - {Revoke, Dup}, (src.refs + 1) % 0x1_0000_0000, task);
  }

  lemma StepEvery(s: System, task: nat, op: Op, q: Cap -> bool)
    requires EveryIn(s, q) && Inherited(q) && MintsWith(q, task, op)
    ensures EveryIn(Step(s, task, op).0, q)
  {
    var t := s[TableOf(task)];
    assert Every(t, q);
    match op
    case EndpointCreate(o) => HandlesCoincide(t, o, task);
    case PortCreate(o) =>
    case Copy(h) => CopyEvery(t, h, q);
    case Restrict(h, keep) => NarrowEvery(t, h, keep, q);
    case SendMessage(h, hs, transfer) => MoveOutEvery(t, hs, transfer, q);
    case Lookup(from, h) =>
      assert Every(s[TableOf(from)], q);
      if h < SLOTS {
        LookupEvery(t, s[TableOf(from)][h], task, q);
      }
    case Destroy(h) =>
    case Pause(h) =>
    case Drain(h) =>
    case StartThread =>
    case EndThread =>
    case SpawnTask(child) =>
  }

  /** A property that copying and narrowing keep, and that everything minted has, holds of every slot over every
      run. */
  lemma {:induction false} RunEvery(calls: seq<Request>, q: Cap -> bool)
    requires Inherited(q) && forall i :: 0 <= i < |calls| ==> MintsWith(q, calls[i].task, calls[i].op)
    ensures EveryIn(Exec(Initial(), calls), q)
  {
    if calls != [] {
      var n := |calls| - 1;
      RunEvery(calls[..n], q);
      StepEvery(Exec(Initial(), calls[..n]), calls[n].task, calls[n].op, q);
    }
  }

  // ---------------------------------------------------------------- tables shared by tasks

  /** Starting or ending task a leaves the table of task b alone. */
  ghost predicate KeepsTable(a: nat, op: Op, b: nat)
  {
    forall s: System :: Step(s, a, op).0[TableOf(b)] == s[TableOf(b)]
  }

  /** A thread that starts or ends clears the table of another task exactly when their identifiers agree modulo
      the number of tables. */
  lemma TableKeptExactly(a: nat, op: Op, b: nat)
    requires op == StartThread || op == EndThread
    ensures KeepsTable(a, op, b) <==> a % TABLES != b % TABLES
  {
    if a % TABLES == b % TABLES {
      var other := if op == StartThread then Blank() else Fresh();
      var s: System := seq(TABLES, _ => other);
      assert Fresh()[0] != Blank()[0];
      assert Step(s, a, op).0[TableOf(b)] != s[TableOf(b)];
    }
  }

  // ---------------------------------------------------------------- the table in place

  class CapTable {
    const caps: array<Cap>

    /** sched_ipc_init_thread */
    constructor ()
      ensures Valid() && fresh(caps) && Abs() == Fresh()
    {
      caps := new Cap[SLOTS](_ => EMPTY);
      new;
      var i := 0;
      while i < SLOTS
        invariant i <= SLOTS && forall k :: 0 <= k < SLOTS ==> caps[k] == EMPTY
      {
        caps[i] := caps[i].(kind := NoObject, refs := 0, path := "");
        i := i + 1;
      }
      caps[0] := caps[0].(kind := Dir, rights := {VfsRead, VfsWrite}, refs := 1, path := "/");
    }

    ghost predicate Valid() { caps.Length == SLOTS }

    ghost function Abs(): (t: Table)
      reads caps
      requires Valid()
    {
      caps[..]
    }

    /** ipc_cap_alloc_slot; it does not reserve the slot. */
    method AllocSlot() returns (h: Option<nat>)
      requires Valid()
      ensures h == FreeSlot(Abs(), 0)
    {
      var i := 0;
      while i < SLOTS
        invariant i <= SLOTS && FreeSlot(caps[..], i) == FreeSlot(caps[..], 0)
      {
        if caps[i].kind == NoObject {
          return Some(i);
        }
        i := i + 1;
      }
      return None;
    }

    method EndpointCreate(obj: nat, task: nat) returns (hs: Option<(nat, nat)>)
      requires Valid()
      modifies caps
      ensures Valid() && (Abs(), hs) == CreateEndpoint(old(Abs()), obj, task)
    {
      var send := AllocSlot();
      if send.None? { return None; }
      var recv := AllocSlot();
      if recv.None? { return None; }
      caps[send.value] := Cap({Send, Call, Dup}, Endpoint, obj, 1, task, false, "");
      caps[recv.value] := Cap({Recv, Dup}, Endpoint, obj, 1, task, false, "");
      hs := Some((send.value, recv.value));
    }

    method PortCreate(obj: nat, task: nat) returns (h: Option<nat>)
      requires Valid()
      modifies caps
      ensures Valid() && (Abs(), h) == CreatePort(old(Abs()), obj, task)
    {
      h := AllocSlot();
      if h.Some? {
        caps[h.value] := Cap({Send, Recv, Dup}, Port, obj, 1, task, false, "");
      }
    }

    method CapDup(handle: nat) returns (h: Option<nat>)
      requires Valid()
      modifies caps
      ensures Valid() && (Abs(), h) == Duplicate(old(Abs()), handle)
    {
      if handle >= SLOTS || !Usable(caps[handle]) || Dup !in caps[handle].rights { return None; }
      h := AllocSlot();
      if h.Some? {
        caps[h.value] := caps[handle];
        caps[h.value] := caps[h.value].(refs := (caps[h.value].refs + 1) % 0x1_0000_0000);
        assert caps[..] == old(caps[..])[h.value := Bump(old(caps[handle]))];
      }
    }

    method CapNarrow(handle: nat, keep: set<Right>) returns (ok: bool)
      requires Valid()
      modifies caps
      ensures Valid() && (Abs(), ok) == Narrow(old(Abs()), handle, keep)
    {
      if handle >= SLOTS || !Usable(caps[handle]) || caps[handle].immutable { return false; }
      caps[handle] := caps[handle].(rights := caps[handle].rights * keep);
      return true;
    }

    /** The capability loop of sys_ipc_send. */
    method SendCaps(handles: seq<nat>, transfer: bool) returns (ok: bool)
      requires Valid()
      modifies caps
      ensures Valid() && (Abs(), ok) == MoveOut(old(Abs()), handles, transfer)
    {
      var i := 0;
      while i < |handles|
        invariant i <= |handles|
        invariant MoveOut(caps[..], handles[i..], transfer) == MoveOut(old(caps[..]), handles, transfer)
      {
        var h := handles[i];
        assert handles[i..][0] == h && handles[i..][1..] == handles[i + 1..];
        if h >= SLOTS || !Usable(caps[h]) { return false; }
        if transfer {
          ghost var t := caps[..];
          caps[h] := EMPTY;
          assert caps[..] == Clear(t, h);
        }
        i := i + 1;
      }
      return true;
    }

    /** The loop of os_spawn_task over the table of the parent, which may be this very table. */
    method Inherit(parent: CapTable)
      requires Valid() && parent.Valid()
      modifies caps
      ensures Valid() && Abs() == old(parent.Abs())
    {
      for i := 0 to SLOTS
        invariant parent.caps[i..] == old(parent.caps[i..])
        invariant caps[..i] == old(parent.caps[..i])
      {
        caps[i] := parent.caps[i];
      }
    }

    /** The copy of sys_ipc_ns_lookup; the source may be this very table. */
    method CopyFrom(source: CapTable, handle: nat, task: nat) returns (h: Option<nat>)
      requires Valid() && source.Valid() && handle < SLOTS
      modifies caps
      ensures Valid() && (Abs(), h) == CopyIn(old(Abs()), old(source.caps[handle]), task)
    {
      h := AllocSlot();
      if h.Some? {
        var src := source.caps[handle];
        caps[h.value] := src;
        caps[h.value] := caps[h.value].(rights := caps[h.value].rights - {Revoke, Dup});
        caps[h.value] := caps[h.value].(refs := (caps[h.value].refs + 1) % 0x1_0000_0000);
        caps[h.value] := caps[h.value].(owner := task);
        assert caps[..] == old(caps[..])[h.value := Bump(src).(rights := src.rights - {Revoke, Dup}, owner := task)];
      }
    }
  }
}
