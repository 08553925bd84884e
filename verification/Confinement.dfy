/** When a task that is confined to its capabilities and holds no right to the root directory comes to hold one:
    the calls of sageos_build/kernel/core/ipc.c and scheduler_ipc_ext.c, over whole runs. */
module Confinement {
  import opened Bytes
  import Caps
  import VfsCaps

  /** The slot, copied by a lookup, is a root directory with a needed right. */
  predicate GivesRoot(c: Caps.Cap, need: set<Caps.Right>)
  {
    c.kind == Caps.Dir && need * (c.rights - {Caps.Revoke, Caps.Dup}) != {} && (c.refs + 1) % 0x1_0000_0000 > 0
  }

  /** A lookup lets a task use the tree exactly when it could before, or has a free slot for a copy of a root
      directory with a needed right. */
  lemma LookupGainsExactly(caps: Caps.System, task: nat, from: nat, h: nat, need: set<Caps.Right>)
    requires h < Caps.SLOTS
    ensures var t, u := caps[Caps.TableOf(task)], Caps.Step(caps, task, Caps.Lookup(from, h)).0[Caps.TableOf(task)];
      VfsCaps.HasRoot(u, need) <==>
        VfsCaps.HasRoot(t, need)
        || (Caps.FreeSlot(t, 0).Some? && GivesRoot(caps[Caps.TableOf(from)][h], need))
  {
    var t, u := caps[Caps.TableOf(task)], Caps.Step(caps, task, Caps.Lookup(from, h)).0[Caps.TableOf(task)];
    var slot := Caps.FreeSlot(t, 0);
    if slot.Some? {
      assert forall k :: 0 <= k < Caps.SLOTS && k != slot.value ==> u[k] == t[k];
      if VfsCaps.HasRoot(t, need) {
        var k :| 0 <= k < Caps.SLOTS && Caps.Usable(t[k]) && t[k].kind == Caps.Dir && need * t[k].rights != {};
        assert u[k] == t[k];
      } else if GivesRoot(caps[Caps.TableOf(from)][h], need) {
        assert Caps.Usable(u[slot.value]) && u[slot.value].kind == Caps.Dir;
      }
    }
  }

  /** The call puts a root directory with a needed right into table k, which had none. */
  ghost predicate Gives(caps: Caps.System, task: nat, op: Caps.Op, k: nat, need: set<Caps.Right>)
    requires k < Caps.TABLES
  {
    match op
    case StartThread => Caps.TableOf(task) == k
    case SpawnTask(child) =>
      Caps.TableOf(child) == k && (Caps.TableOf(task) == k || VfsCaps.HasRoot(caps[Caps.TableOf(task)], need))
    case Lookup(from, h) =>
      && Caps.TableOf(task) == k && h < Caps.SLOTS && Caps.FreeSlot(caps[k], 0).Some?
      && GivesRoot(caps[Caps.TableOf(from)][h], need)
    case _ => false
  }

  lemma FreshHasRoot(need: set<Caps.Right>)
    requires need * {Caps.VfsRead, Caps.VfsWrite} != {}
    ensures VfsCaps.HasRoot(Caps.Fresh(), need)
  {
    assert Caps.Fresh()[0] == Caps.ROOT;
  }

  /** No slot but h gained anything, and h is not a directory with a right that was not there. */
  lemma NoneBySlot(t: Caps.Table, h: nat, c: Caps.Cap, need: set<Caps.Right>)
    requires h < Caps.SLOTS && !VfsCaps.HasRoot(t, need)
    requires !(Caps.Usable(c) && c.kind == Caps.Dir && need * c.rights != {})
    ensures !VfsCaps.HasRoot(t[h := c], need)
  {
  }

  lemma {:induction false} NoneByMove(t: Caps.Table, handles: seq<nat>, transfer: bool, need: set<Caps.Right>)
    requires !VfsCaps.HasRoot(t, need)
    ensures !VfsCaps.HasRoot(Caps.MoveOut(t, handles, transfer).0, need)
    decreases |handles|
  {
    if handles != [] && Caps.Resolve(t, handles[0]).Some? {
      NoneByMove(if transfer then Caps.Clear(t, handles[0]) else t, handles[1..], transfer, need);
    }
  }

  lemma NoneByCopy(t: Caps.Table, h: nat, need: set<Caps.Right>)
    requires !VfsCaps.HasRoot(t, need)
    ensures !VfsCaps.HasRoot(Caps.Duplicate(t, h).0, need)
  {
    var n := Caps.FreeSlot(t, 0);
    if Caps.Holds(t, h, Caps.Dup) && n.Some? {
      NoneBySlot(t, n.value, Caps.Bump(t[h]), need);
    }
  }

  lemma NoneByNarrow(t: Caps.Table, h: nat, keep: set<Caps.Right>, need: set<Caps.Right>)
    requires !VfsCaps.HasRoot(t, need)
    ensures !VfsCaps.HasRoot(Caps.Narrow(t, h, keep).0, need)
  {
    if Caps.Narrow(t, h, keep).1 {
      assert need * t[h].rights == {} ==> need * (t[h].rights * keep) == {};
      NoneBySlot(t, h, t[h].(rights := t[h].rights * keep), need);
    }
  }

  lemma NoneByCreate(t: Caps.Table, obj: nat, task: nat, need: set<Caps.Right>)
    requires !VfsCaps.HasRoot(t, need)
    ensures !VfsCaps.HasRoot(Caps.CreateEndpoint(t, obj, task).0, need)
    ensures !VfsCaps.HasRoot(Caps.CreatePort(t, obj, task).0, need)
  {
    var h := Caps.FreeSlot(t, 0);
    if h.Some? {
      NoneBySlot(t, h.value, Caps.SendCap(obj, task), need);
      NoneBySlot(t[h.value := Caps.SendCap(obj, task)], h.value, Caps.RecvCap(obj, task), need);
      NoneBySlot(t, h.value, Caps.PortCap(obj, task), need);
    }
  }

  /** The call of the task that owns the table. */
  lemma OwnCall(caps: Caps.System, task: nat, op: Caps.Op, need: set<Caps.Right>)
    requires need * {Caps.VfsRead, Caps.VfsWrite} != {} && !VfsCaps.HasRoot(caps[Caps.TableOf(task)], need)
    requires !op.SpawnTask?
    ensures VfsCaps.HasRoot(Caps.Step(caps, task, op).0[Caps.TableOf(task)], need)
      <==> Gives(caps, task, op, Caps.TableOf(task), need)
  {
    var t := caps[Caps.TableOf(task)];
    match op {
      case EndpointCreate(o) => NoneByCreate(t, o, task, need);
      case PortCreate(o) => NoneByCreate(t, o, task, need);
      case Copy(h) => NoneByCopy(t, h, need);
      case Restrict(h, keep) => NoneByNarrow(t, h, keep, need);
      case SendMessage(h, hs, transfer) => NoneByMove(t, hs, transfer, need);
      case Lookup(from, h) =>
        if h < Caps.SLOTS {
          LookupGainsExactly(caps, task, from, h, need);
        }
      case Destroy(h) =>
        if h < Caps.SLOTS {
          NoneBySlot(t, h, Caps.EMPTY, need);
        }
      case StartThread => FreshHasRoot(need);
      case _ =>
    }
  }

  /** A table without a right to the root gets one by a call exactly when the call starts a thread on it, or spawns a
      task on it whose parent has one or shares the table, or looks up a slot that holds one. */
  lemma GainsRootExactly(caps: Caps.System, task: nat, op: Caps.Op, k: nat, need: set<Caps.Right>)
    requires k < Caps.TABLES && need * {Caps.VfsRead, Caps.VfsWrite} != {} && !VfsCaps.HasRoot(caps[k], need)
    ensures VfsCaps.HasRoot(Caps.Step(caps, task, op).0[k], need) <==> Gives(caps, task, op, k, need)
  {
    if op.SpawnTask? {
      FreshHasRoot(need);
    } else if Caps.TableOf(task) == k {
      OwnCall(caps, task, op, need);
    } else {
      assert Caps.Step(caps, task, op).0[k] == caps[k];
    }
  }

  ghost predicate NeverHas(caps: Caps.System, calls: seq<Caps.Request>, k: nat, need: set<Caps.Right>)
    requires k < Caps.TABLES
  {
    forall i :: 0 <= i <= |calls| ==> !VfsCaps.HasRoot(Caps.Exec(caps, calls[..i])[k], need)
  }

  ghost predicate NoneGives(caps: Caps.System, calls: seq<Caps.Request>, k: nat, need: set<Caps.Right>)
    requires k < Caps.TABLES
  {
    forall i :: 0 <= i < |calls| ==> !Gives(Caps.Exec(caps, calls[..i]), calls[i].task, calls[i].op, k, need)
  }

  lemma ExecTo(caps: Caps.System, calls: seq<Caps.Request>, i: nat)
    requires i < |calls|
    ensures Caps.Exec(caps, calls[..i + 1]) == Caps.Step(Caps.Exec(caps, calls[..i]), calls[i].task, calls[i].op).0
  {
    assert calls[..i + 1][..i] == calls[..i];
  }

  lemma {:induction false} StillNone(caps: Caps.System, calls: seq<Caps.Request>, k: nat, need: set<Caps.Right>, i: nat)
    requires k < Caps.TABLES && need * {Caps.VfsRead, Caps.VfsWrite} != {} && !VfsCaps.HasRoot(caps[k], need)
    requires NoneGives(caps, calls, k, need) && i <= |calls|
    ensures !VfsCaps.HasRoot(Caps.Exec(caps, calls[..i])[k], need)
    decreases i
  {
    if i > 0 {
      StillNone(caps, calls, k, need, i - 1);
      ExecTo(caps, calls, i - 1);
      GainsRootExactly(Caps.Exec(caps, calls[..i - 1]), calls[i - 1].task, calls[i - 1].op, k, need);
    }
  }

  /** Over every run of calls a table without a right to the root has none throughout exactly when no call gives it
      one. */
  lemma StaysWithoutExactly(caps: Caps.System, calls: seq<Caps.Request>, k: nat, need: set<Caps.Right>)
    requires k < Caps.TABLES && need * {Caps.VfsRead, Caps.VfsWrite} != {} && !VfsCaps.HasRoot(caps[k], need)
    ensures NeverHas(caps, calls, k, need) <==> NoneGives(caps, calls, k, need)
  {
    if NeverHas(caps, calls, k, need) {
      forall i | 0 <= i < |calls| ensures !Gives(Caps.Exec(caps, calls[..i]), calls[i].task, calls[i].op, k, need) {
        ExecTo(caps, calls, i);
        GainsRootExactly(Caps.Exec(caps, calls[..i]), calls[i].task, calls[i].op, k, need);
      }
    }
    if NoneGives(caps, calls, k, need) {
      forall i | 0 <= i <= |calls| ensures !VfsCaps.HasRoot(Caps.Exec(caps, calls[..i])[k], need) {
        StillNone(caps, calls, k, need, i);
      }
    }
  }
}
