/** What each capability call does to every slot of every table, told without the helpers that the state machine
    in Caps is built from. */
module CapEffects {
  import opened Bytes
  import opened Caps

  ghost predicate FirstEmpty(t: Table, n: nat)
  {
    n < 64 && t[n].kind == NoObject && forall k :: 0 <= k < n ==> t[k].kind != NoObject
  }

  ghost predicate Full(t: Table) { forall k :: 0 <= k < 64 ==> t[k].kind != NoObject }

  /** The handle names a capability that is in use and has the right. */
  predicate Allows(t: Table, h: nat, r: Right)
  {
    h < 64 && t[h].kind != NoObject && t[h].refs > 0 && r in t[h].rights
  }

  /** Only slot n of the task's table differs, and holds c. */
  ghost predicate Fills(s: System, r: System, task: nat, n: nat, c: Cap)
  {
    n < 64 && r == s[task % 64 := s[task % 64][n := c]]
  }

  lemma EmptyFound(t: Table, n: nat)
    requires FirstEmpty(t, n)
    ensures FreeSlot(t, 0) == Some(n)
  {
    FirstOfAll(t, n, 0);
  }

  lemma {:induction false} FirstOfAll(t: Table, n: nat, i: nat)
    requires FirstEmpty(t, n) && i <= n
    ensures FreeSlot(t, i) == Some(n)
    decreases n - i
  {
    if i < n {
      FirstOfAll(t, n, i + 1);
    }
  }

  // ---------------------------------------------------------------- creation

  /** sys_ipc_endpoint_create leaves only the receiving half, in the first empty slot. */
  lemma EndpointEffect(s: System, task: nat, obj: nat, n: nat)
    requires FirstEmpty(s[task % 64], n)
    ensures var r := Step(s, task, EndpointCreate(obj));
      r.1 && Fills(s, r.0, task, n, Cap({Recv, Dup}, Endpoint, obj, 1, task, false, ""))
  {
    var t := s[task % 64];
    EmptyFound(t, n);
    assert t[n := SendCap(obj, task)][n := RecvCap(obj, task)] == t[n := RecvCap(obj, task)];
  }

  lemma PortEffect(s: System, task: nat, obj: nat, n: nat)
    requires FirstEmpty(s[task % 64], n)
    ensures var r := Step(s, task, PortCreate(obj));
      r.1 && Fills(s, r.0, task, n, Cap({Send, Recv, Dup}, Port, obj, 1, task, false, ""))
  {
    EmptyFound(s[task % 64], n);
  }

  /** A full table refuses every call that needs a slot. */
  lemma FullEffect(s: System, task: nat, op: Op)
    requires Full(s[task % 64]) && (op.EndpointCreate? || op.PortCreate? || op.Copy? || op.Lookup?)
    ensures Step(s, task, op) == (s, false)
  {
    var f := FreeSlot(s[task % 64], 0);
    assert f.None?;
    assert s[task % 64 := s[task % 64]] == s;
  }

  // ---------------------------------------------------------------- copies

  /** A copy has the rights and the object of its source, and needs the right to duplicate. */
  lemma CopyEffect(s: System, task: nat, h: nat, n: nat)
    requires FirstEmpty(s[task % 64], n)
    ensures var t, r := s[task % 64], Step(s, task, Copy(h));
      && (r.1 <==> Allows(t, h, Dup))
      && (!r.1 ==> r.0 == s)
      && (r.1 && t[h].refs + 1 < 0x1_0000_0000 ==> Fills(s, r.0, task, n, t[h].(refs := t[h].refs + 1)))
  {
    EmptyFound(s[task % 64], n);
  }

  /** A lookup gives the task what the slot holds, without the rights to revoke and to duplicate. */
  lemma LookupEffect(s: System, task: nat, from: nat, h: nat, n: nat)
    requires FirstEmpty(s[task % 64], n) && h < 64 && s[from % 64][h].refs + 1 < 0x1_0000_0000
    ensures var c, r := s[from % 64][h], Step(s, task, Lookup(from, h));
      r.1 && Fills(s, r.0, task, n, Cap(c.rights - {Revoke, Dup}, c.kind, c.obj, c.refs + 1, task, c.immutable, c.path))
  {
    EmptyFound(s[task % 64], n);
  }

  // ---------------------------------------------------------------- narrowing and dropping

  /** Narrowing keeps exactly the rights asked for that were there, and is refused on an immutable capability. */
  lemma RestrictEffect(s: System, task: nat, h: nat, keep: set<Right>)
    ensures var t, r := s[task % 64], Step(s, task, Restrict(h, keep));
      && (r.1 <==> h < 64 && t[h].kind != NoObject && t[h].refs > 0 && !t[h].immutable)
      && (!r.1 ==> r.0 == s)
      && (r.1 ==> Fills(s, r.0, task, h, t[h].(rights := set x | x in t[h].rights && x in keep)))
  {
    var t := s[task % 64];
    if h < 64 {
      assert t[h].rights * keep == set x | x in t[h].rights && x in keep;
    }
  }

  /** Only a holder of the right to revoke may destroy, pause or drain. */
  lemma RevokeEffect(s: System, task: nat, h: nat)
    ensures var t, r := s[task % 64], Step(s, task, Destroy(h));
      && (r.1 <==> Allows(t, h, Revoke))
      && (!r.1 ==> r.0 == s)
      && (r.1 ==> Fills(s, r.0, task, h, Cap({}, NoObject, 0, 0, 0, false, "")))
      && Step(s, task, Pause(h)) == Step(s, task, Drain(h))
      && Step(s, task, Pause(h)) == (s, Allows(t, h, Revoke) && (t[h].kind == Endpoint || t[h].kind == Channel))
  {
  }

  /** The first n handles are usable and different. */
  ghost predicate Movable(t: Table, handles: seq<nat>, n: nat)
    requires n <= |handles|
  {
    && (forall i :: 0 <= i < n ==> handles[i] < 64 && t[handles[i]].kind != NoObject && t[handles[i]].refs > 0)
    && (forall i, j :: 0 <= i < j < n ==> handles[i] != handles[j])
  }

  /** The first n handles have been moved out of t, and nothing else has. */
  ghost predicate MovedOut(t: Table, r: Table, handles: seq<nat>, n: nat)
    requires n <= |handles|
  {
    forall h :: 0 <= h < 64 ==>
      r[h] == if h in handles[..n] then Cap({}, NoObject, 0, 0, 0, false, "") else t[h]
  }

  /** A transfer moves out the handles up to the first that is unusable or came before, and succeeds if there is
      none. */
  lemma {:induction false} TransferEffect(t: Table, handles: seq<nat>) returns (n: nat)
    ensures n <= |handles| && Movable(t, handles, n) && (n < |handles| ==> !Movable(t, handles, n + 1))
    ensures var r := MoveOut(t, handles, true); MovedOut(t, r.0, handles, n) && (r.1 <==> n == |handles|)
    decreases |handles|
  {
    n := 0;
    if handles != [] && Resolve(t, handles[0]).Some? {
      var u, rest := Clear(t, handles[0]), handles[1..];
      var m := TransferEffect(u, rest);
      n := m + 1;
      MovableBehind(t, u, handles, rest, m);
      if m < |rest| {
        MovableBehind(t, u, handles, rest, m + 1);
      }
      MovedBehind(t, u, MoveOut(u, rest, true).0, handles, rest, m);
    }
  }

  lemma MovableBehind(t: Table, u: Table, handles: seq<nat>, rest: seq<nat>, m: nat)
    requires handles != [] && rest == handles[1..] && m <= |rest| && Resolve(t, handles[0]).Some?
    requires u == Clear(t, handles[0])
    ensures Movable(u, rest, m) <==> Movable(t, handles, m + 1)
  {
    assert forall i :: 0 <= i < |rest| ==> rest[i] == handles[i + 1];
    assert forall i :: 0 < i < |handles| ==> handles[i] == rest[i - 1];
  }

  lemma MovedBehind(t: Table, u: Table, r: Table, handles: seq<nat>, rest: seq<nat>, m: nat)
    requires handles != [] && rest == handles[1..] && m <= |rest| && u == Clear(t, handles[0])
    requires MovedOut(u, r, rest, m)
    ensures MovedOut(t, r, handles, m + 1)
  {
    assert handles[..m + 1] == [handles[0]] + rest[..m];
  }

  /** Without transfer nothing moves, and every handle has to be usable. */
  lemma {:induction false} CheckEffect(t: Table, handles: seq<nat>)
    ensures MoveOut(t, handles, false).0 == t
    ensures MoveOut(t, handles, false).1 <==>
      forall i :: 0 <= i < |handles| ==> handles[i] < 64 && t[handles[i]].kind != NoObject && t[handles[i]].refs > 0
    decreases |handles|
  {
    if handles != [] {
      var rest := handles[1..];
      CheckEffect(t, rest);
      assert forall i :: 0 <= i < |rest| ==> rest[i] == handles[i + 1];
      assert forall i :: 0 < i < |handles| ==> handles[i] == rest[i - 1];
    }
  }

  /** A message is sent only with the right to send on an endpoint. */
  lemma SendEffect(s: System, task: nat, h: nat, handles: seq<nat>, transfer: bool)
    ensures var t, r := s[task % 64], Step(s, task, SendMessage(h, handles, transfer));
      if Allows(t, h, Send) && t[h].kind == Endpoint
      then r == (s[task % 64 := MoveOut(t, handles, transfer).0], MoveOut(t, handles, transfer).1)
      else r == (s, false)
  {
  }

  // ---------------------------------------------------------------- what brings an object into the tables

  /** No slot of any table names the object. */
  ghost predicate Absent(s: System, kind: Kind, obj: nat) { EveryIn(s, c => !Names(c, kind, obj)) }

  /** In some state the operation brings in an object that no table named before. */
  ghost predicate Introduces(op: Op, kind: Kind, obj: nat)
  {
    exists s: System, task :: Absent(s, kind, obj) && !Absent(Step(s, task, op).0, kind, obj)
  }

  /** An object comes into the tables only by its creation, and the root directory only with a thread. */
  lemma MintsExactly(op: Op, kind: Kind, obj: nat)
    requires kind != NoObject
    ensures Introduces(op, kind, obj) <==> Mints(op, kind, obj)
  {
    var q := (c: Cap) => !Names(c, kind, obj);
    if Mints(op, kind, obj) {
      var task := if op.SpawnTask? then op.child else 0;
      var s := Initial();
      assert Absent(s, kind, obj);
      var r := Step(s, task, op).0[task % 64][0];
      EmptyFound(s[task % 64], 0);
      assert Names(r, kind, obj);
      assert !Absent(Step(s, task, op).0, kind, obj);
    } else {
      forall s: System, task | Absent(s, kind, obj) ensures Absent(Step(s, task, op).0, kind, obj) {
        StepEvery(s, task, op, q);
      }
    }
  }

  // ---------------------------------------------------------------- threads

  /** A thread starts with the root directory, to read and to write, in slot 0, and with nothing else. */
  lemma StartEffect(s: System, task: nat, k: nat)
    requires k < 64
    ensures var r := Step(s, task, StartThread).0;
      && r[task % 64][0] == Cap({VfsRead, VfsWrite}, Dir, 0, 1, 0, false, "/")
      && (k > 0 ==> r[task % 64][k] == Cap({}, NoObject, 0, 0, 0, false, ""))
      && (k != task % 64 ==> r[k] == s[k])
  {
  }

  /** A thread that ends leaves an empty table. */
  lemma EndEffect(s: System, task: nat, k: nat)
    requires k < 64
    ensures var r := Step(s, task, EndThread).0;
      && r[task % 64][k] == Cap({}, NoObject, 0, 0, 0, false, "")
      && (k != task % 64 ==> r[k] == s[k])
  {
  }

  /** A spawned task has the table of its parent, or a fresh one when the two share a table. */
  lemma SpawnEffect(s: System, task: nat, child: nat, k: nat)
    requires k < 64
    ensures var r := Step(s, task, SpawnTask(child)).0;
      && (child % 64 != task % 64 ==> r[child % 64] == s[task % 64])
      && (child % 64 == task % 64 ==> r == Step(s, task, StartThread).0)
      && (k != child % 64 ==> r[k] == s[k])
  {
  }
}
