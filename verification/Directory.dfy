/** Names and capabilities together: sys_ipc_ns_register and sys_ipc_ns_lookup of sageos_build/kernel/core/ipc.c over
    runs with all other calls that change capability tables. */
module Directory {
  import opened Bytes
  import opened Namespace
  import Caps
  import VfsCaps
  import opened Confinement

  // ---------------------------------------------------------------- what names hold after a run

  /** From entry n on nothing is held, the root aside. */
  ghost predicate CleanFrom(ns: Space, n: nat)
  {
    |ns.pool| == ENTRIES && forall e :: n <= e < ENTRIES && e > 0 ==> HeldAt(ns, e) == Held(0, 0)
  }

  lemma AddChildHolds(ns: Space, cur: nat, tok: string, e: nat)
    requires |ns.pool| == ENTRIES && ns.count < ENTRIES && cur < ENTRIES && e < ENTRIES
    ensures HeldAt(AddChild(ns, cur, tok), e) == if e == ns.count then Held(0, 0) else HeldAt(ns, e)
  {
  }

  lemma AddChildClean(ns: Space, cur: nat, tok: string, n: nat)
    requires CleanFrom(ns, n) && ns.count < ENTRIES && cur < ENTRIES
    ensures CleanFrom(AddChild(ns, cur, tok), n)
  {
    forall e | n <= e < ENTRIES && e > 0 ensures HeldAt(AddChild(ns, cur, tok), e) == Held(0, 0) {
      AddChildHolds(ns, cur, tok, e);
    }
  }

  lemma RootedClean(ns: Space, n: nat)
    requires CleanFrom(ns, n)
    ensures CleanFrom(Rooted(ns), n)
  {
    forall e | n <= e < ENTRIES && e > 0 ensures HeldAt(Rooted(ns), e) == Held(0, 0) {
      assert Rooted(ns).pool[e] == ns.pool[e] && HeldAt(ns, e) == Held(0, 0);
    }
  }

  lemma SetHandleHolds(ns: Space, n: nat, handle: nat, owner: nat, e: nat)
    requires |ns.pool| == ENTRIES && n < ENTRIES && e < ENTRIES
    ensures HeldAt(SetHandle(ns, n, handle, owner), e) == if e == n then Held(handle, owner) else HeldAt(ns, e)
  {
  }

  lemma {:induction false} WalkClean(ns: Space, cur: nat, toks: seq<string>, n: nat)
    requires Inv(ns) && ns.rooted && InTree(ns, cur) && CleanFrom(ns, n)
    ensures CleanFrom(Walk(ns, cur, toks).0, n)
    decreases |toks|
  {
    if toks != [] {
      var c := Look(ns, cur, toks[0]);
      if c.Some? {
        WalkClean(ns, c.value, toks[1..], n);
      } else if ns.count < ENTRIES {
        AddChildInv(ns, cur, toks[0]);
        AddChildClean(ns, cur, toks[0], n);
        WalkClean(AddChild(ns, cur, toks[0]), ns.count, toks[1..], n);
      }
    }
  }

  /** The node that the insertion reached is the one its name leads to. */
  lemma InsertNode(ns: Space, name: string, handle: nat, owner: nat)
    requires Inv(ns)
    ensures Inv(Rooted(ns))
    ensures var (after, ok) := Insert(ns, name, handle, owner);
      var (walked, node) := Walk(Rooted(ns), 0, Path(name));
      && ok == node.Some? && (ok ==> Find(after, name) == node && after == SetHandle(walked, node.value, handle, owner))
      && (!ok ==> after == walked) && after.count == walked.count
  {
    RootedInv(ns);
    var (walked, node) := Walk(Rooted(ns), 0, Path(name));
    if node.Some? {
      WalkIsFound(Rooted(ns), 0, Path(name));
      SetHandleFind(walked, node.value, handle, owner, 0, Path(name));
    }
  }

  lemma InsertClean(ns: Space, name: string, handle: nat, owner: nat)
    requires Inv(ns) && CleanFrom(ns, ns.count)
    ensures var after := Insert(ns, name, handle, owner).0; CleanFrom(after, after.count)
  {
    InsertNode(ns, name, handle, owner);
    RootedClean(ns, ns.count);
    WalkClean(Rooted(ns), 0, Path(name), ns.count);
    var (walked, node) := Walk(Rooted(ns), 0, Path(name));
    var after := Insert(ns, name, handle, owner).0;
    forall e | after.count <= e < ENTRIES && e > 0 ensures HeldAt(after, e) == Held(0, 0) {
      assert HeldAt(walked, e) == Held(0, 0);
      if node.Some? {
        SetHandleHolds(walked, node.value, handle, owner, e);
      }
    }
  }

  lemma InsertHoldsNew(ns: Space, name: string, handle: nat, owner: nat, e: nat)
    requires Inv(ns) && CleanFrom(ns, ns.count) && ns.count <= e < ENTRIES && e > 0
    ensures var (after, ok) := Insert(ns, name, handle, owner);
      HeldAt(after, e) == if ok && Find(after, name) == Some(e) then Held(handle, owner) else Held(0, 0)
  {
    InsertNode(ns, name, handle, owner);
    RootedClean(ns, ns.count);
    WalkClean(Rooted(ns), 0, Path(name), ns.count);
    var (walked, node) := Walk(Rooted(ns), 0, Path(name));
    assert HeldAt(walked, e) == Held(0, 0);
    if node.Some? {
      SetHandleHolds(walked, node.value, handle, owner, e);
    }
  }

  /** What every entry of the pool, in use or not, holds after an insertion. */
  lemma InsertHoldsAll(ns: Space, name: string, handle: nat, owner: nat, e: nat)
    requires Inv(ns) && CleanFrom(ns, ns.count) && e < ENTRIES
    ensures var (after, ok) := Insert(ns, name, handle, owner);
      HeldAt(after, e) ==
        if ok && Find(after, name) == Some(e) then Held(handle, owner)
        else if e == 0 && TakesRoot(ns, name) then Held(0, 0)
        else HeldAt(ns, e)
  {
    if InTree(ns, e) {
      InsertHolds(ns, name, handle, owner, e);
    } else {
      InsertHoldsNew(ns, name, handle, owner, e);
    }
  }

  /** The last registration that succeeded for a name of entry e, and that was not cleared since with the root's
      entry. */
  ghost function LastFor(ns: Space, rs: seq<Registration>, e: nat, before: Option<Held>): (r: Option<Held>)
    requires Inv(ns)
    decreases |rs|
  {
    if rs == [] then before
    else
      var r := rs[0];
      var (after, ok) := Insert(ns, r.name, r.handle, r.owner);
      InsertThenFind(ns, r.name, r.handle, r.owner);
      LastFor(after, rs[1..], e,
        if ok && Find(after, r.name) == Some(e) then Some(Held(r.handle, r.owner))
        else if e == 0 && TakesRoot(ns, r.name) then None
        else before)
  }

  /** Without a registration an entry holds slot 0 of task 0. */
  function OrNothing(r: Option<Held>): (h: Held) { match r case Some(h) => h case None => Held(0, 0) }

  lemma {:induction false} HeldAfterRun(ns: Space, rs: seq<Registration>, e: nat, before: Option<Held>)
    requires Inv(ns) && CleanFrom(ns, ns.count) && e < ENTRIES && HeldAt(ns, e) == OrNothing(before)
    ensures HeldAt(InsertAll(ns, rs), e) == OrNothing(LastFor(ns, rs, e, before))
    decreases |rs|
  {
    if rs != [] {
      var r := rs[0];
      var (after, ok) := Insert(ns, r.name, r.handle, r.owner);
      InsertThenFind(ns, r.name, r.handle, r.owner);
      InsertHoldsAll(ns, r.name, r.handle, r.owner, e);
      InsertClean(ns, r.name, r.handle, r.owner);
      HeldAfterRun(after, rs[1..], e,
        if ok && Find(after, r.name) == Some(e) then Some(Held(r.handle, r.owner))
        else if e == 0 && TakesRoot(ns, r.name) then None
        else before);
    }
  }

  /** After every run of registrations a name that is found holds the last registration for its entry, and slot 0 of
      task 0 exactly when there is none or that is what was registered. */
  lemma FoundHolds(rs: seq<Registration>, name: string)
    requires Find(InsertAll(Empty(), rs), name).Some?
    ensures var ns := InsertAll(Empty(), rs);
      var e := Find(ns, name).value;
      HeldAt(ns, e) == OrNothing(LastFor(Empty(), rs, e, None))
  {
    HeldAfterRun(Empty(), rs, Find(InsertAll(Empty(), rs), name).value, None);
  }

  // ---------------------------------------------------------------- calls

  datatype System = System(caps: Caps.System, ns: Space)

  /** Lookups by name take the place of the lookups of Caps. */
  datatype Call = Register(name: string, handle: nat) | LookupName(name: string) | Other(op: Caps.Op)

  ghost function Step(s: System, task: nat, call: Call): (r: (System, bool))
    requires Inv(s.ns)
    ensures Inv(r.0.ns)
  {
    match call
    case Register(name, h) =>
      if Caps.Resolve(s.caps[Caps.TableOf(task)], h).None? then (s, false)
      else
        InsertThenFind(s.ns, name, h, task);
        var (ns, ok) := Insert(s.ns, name, h, task);
        (s.(ns := ns), ok)
    case LookupName(name) =>
      (match Find(s.ns, name)
       case None => (s, false)
       case Some(e) =>
         var h := HeldAt(s.ns, e);
         var (caps, ok) := Caps.Step(s.caps, task, Caps.Lookup(h.owner, h.handle));
         (s.(caps := caps), ok))
    case Other(op) =>
      if op.Lookup? then (s, false)
      else
        var (caps, ok) := Caps.Step(s.caps, task, op);
        (s.(caps := caps), ok)
  }

  /** A handle that does not resolve is not registered, and a name that leads nowhere gives nothing. */
  lemma RefusedCalls(s: System, task: nat, name: string, h: nat)
    requires Inv(s.ns)
    ensures (h >= 64 || s.caps[task % 64][h].kind == Caps.NoObject || s.caps[task % 64][h].refs == 0) ==>
      Step(s, task, Register(name, h)) == (s, false)
    ensures Find(s.ns, name) == None ==> Step(s, task, LookupName(name)) == (s, false)
  {
  }

  datatype Request = Request(task: nat, call: Call)

  ghost function Boot(): (s: System) { System(Caps.Initial(), Empty()) }

  ghost function Exec(calls: seq<Request>): (s: System)
    ensures Inv(s.ns)
  {
    if calls == [] then Boot()
    else
      var n := |calls| - 1;
      Step(Exec(calls[..n]), calls[n].task, calls[n].call).0
  }

  /** The registrations of a run that got as far as the namespace. */
  ghost function Registrations(calls: seq<Request>): (rs: seq<Registration>)
  {
    if calls == [] then []
    else
      var n := |calls| - 1;
      var before, c := Exec(calls[..n]), calls[n];
      Registrations(calls[..n]) +
      if c.call.Register? && Caps.Resolve(before.caps[Caps.TableOf(c.task)], c.call.handle).Some?
      then [Registration(c.call.name, c.call.handle, c.task)] else []
  }

  /** What the call does to the capability tables, as a call of Caps. */
  ghost function Effect(s: System, c: Request): (rs: seq<Caps.Request>)
    requires Inv(s.ns)
  {
    match c.call
    case Register(_, _) => []
    case LookupName(name) =>
      (match Find(s.ns, name)
       case None => []
       case Some(e) => [Caps.Request(c.task, Caps.Lookup(HeldAt(s.ns, e).owner, HeldAt(s.ns, e).handle))])
    case Other(op) => if op.Lookup? then [] else [Caps.Request(c.task, op)]
  }

  ghost function Effects(calls: seq<Request>): (rs: seq<Caps.Request>)
  {
    if calls == [] then []
    else
      var n := |calls| - 1;
      Effects(calls[..n]) + Effect(Exec(calls[..n]), calls[n])
  }

  lemma {:induction false} InsertAllSnoc(ns: Space, rs: seq<Registration>, r: Registration)
    requires Inv(ns)
    ensures InsertAll(ns, rs + [r]) == Insert(InsertAll(ns, rs), r.name, r.handle, r.owner).0
    decreases |rs|
  {
    if rs == [] {
      assert ([] + [r])[1..] == [];
    } else {
      assert (rs + [r])[0] == rs[0] && (rs + [r])[1..] == rs[1..] + [r];
      InsertThenFind(ns, rs[0].name, rs[0].handle, rs[0].owner);
      InsertAllSnoc(Insert(ns, rs[0].name, rs[0].handle, rs[0].owner).0, rs[1..], r);
    }
  }

  lemma CapsSnoc(calls: seq<Caps.Request>, c: Caps.Request)
    ensures Caps.Exec(Caps.Initial(), calls + [c])
      == Caps.Step(Caps.Exec(Caps.Initial(), calls), c.task, c.op).0
  {
    assert (calls + [c])[..|calls|] == calls;
  }

  /** Every run is a run of registrations beside a run of capability calls; what is proved of either holds here. */
  lemma {:induction false} RunSplits(calls: seq<Request>)
    ensures Exec(calls).ns == InsertAll(Empty(), Registrations(calls))
    ensures Exec(calls).caps == Caps.Exec(Caps.Initial(), Effects(calls))
  {
    if calls != [] {
      var n := |calls| - 1;
      var s, c := Exec(calls[..n]), calls[n];
      RunSplits(calls[..n]);
      StepSplits(s, c, Registrations(calls[..n]), Effects(calls[..n]));
    }
  }

  lemma StepSplits(s: System, c: Request, rs: seq<Registration>, es: seq<Caps.Request>)
    requires s.ns == InsertAll(Empty(), rs) && s.caps == Caps.Exec(Caps.Initial(), es)
    ensures var r := if c.call.Register? && Caps.Resolve(s.caps[Caps.TableOf(c.task)], c.call.handle).Some?
        then [Registration(c.call.name, c.call.handle, c.task)] else [];
      Step(s, c.task, c.call).0.ns == InsertAll(Empty(), rs + r)
    ensures Step(s, c.task, c.call).0.caps == Caps.Exec(Caps.Initial(), es + Effect(s, c))
  {
    assert rs + [] == rs && es + [] == es;
    match c.call
    case Register(name, h) => InsertAllSnoc(Empty(), rs, Registration(name, h, c.task));
    case LookupName(name) =>
      var e := Find(s.ns, name);
      if e.Some? {
        CapsSnoc(es, Effect(s, c)[0]);
      }
    case Other(op) =>
      if !op.Lookup? {
        CapsSnoc(es, Effect(s, c)[0]);
      }
  }

  // ---------------------------------------------------------------- what a lookup gives

  /** After every run a lookup copies the slot of the last registration for the entry its name leads to, and if there
      is none, slot 0 of task 0. */
  lemma LookupGives(calls: seq<Request>, task: nat, name: string)
    ensures var s := Exec(calls);
      match Find(s.ns, name)
      case None => Step(s, task, LookupName(name)) == (s, false)
      case Some(e) =>
        var h := OrNothing(LastFor(Empty(), Registrations(calls), e, None));
        var (caps, ok) := Caps.Step(s.caps, task, Caps.Lookup(h.owner, h.handle));
        Step(s, task, LookupName(name)) == (s.(caps := caps), ok)
  {
    RunSplits(calls);
    if Find(Exec(calls).ns, name).Some? {
      FoundHolds(Registrations(calls), name);
    }
  }

  // ---------------------------------------------------------------- a name that nobody registered

  lemma {:induction false} TokenEndAt(s: string, i: nat, j: nat)
    requires i <= j <= |s| && (j == |s| || s[j] == '.') && forall k :: i <= k < j ==> s[k] != '.'
    ensures TokenEnd(s, i) == j
    decreases j - i
  {
    if i < j {
      TokenEndAt(s, i + 1, j);
    }
  }

  lemma PathOfPair(a: string, b: string)
    requires IsToken(a) && IsToken(b) && |a| + |b| + 1 < NAME_LEN
    ensures Path(a + ['.'] + b) == [a, b]
  {
    var s, j := a + ['.'] + b, |a| + 1;
    TokenEndAt(s, 0, |a|);
    TokenEndAt(s, j, |s|);
    assert SkipDots(s, 0) == 0 && SkipDots(s, j) == j && Tokens(s, |s|) == [];
    assert s[0..|a|] == a && s[j..|s|] == b;
    assert Tokens(s, j) == [b];
  }

  /** A first registration under a name of two parts leaves the root's entry without one. */
  lemma FirstPair(name: string, a: string, b: string, handle: nat, owner: nat)
    requires Path(name) == [a, b] && a != b
    ensures var (after, ok) := Insert(Empty(), name, handle, owner);
      ok && Find(after, "") == Some(0) && Find(after, name) == Some(1) && HeldAt(after, 0) == Held(0, 0)
  {
    var ns := Rooted(Empty());
    RootedInv(Empty());
    InsertNode(Empty(), name, handle, owner);
    AddChildInv(ns, 0, a);
    var one := AddChild(ns, 0, a);
    assert Look(one, 0, b) == None;
    AddChildInv(one, 0, b);
    assert [a, b][1..] == [b] && [b][1..] == [];
    assert Walk(one, 0, [b]) == (AddChild(one, 0, b), Some(1));
    assert Walk(ns, 0, [a, b]) == (AddChild(one, 0, b), Some(1));
    InsertHolds(Empty(), name, handle, owner, 0);
  }

  lemma ExecSnoc(calls: seq<Request>, c: Request)
    ensures Exec(calls + [c]) == Step(Exec(calls), c.task, c.call).0
  {
    assert (calls + [c])[..|calls|] == calls;
  }

  lemma NoRegistration(calls: seq<Request>, task: nat, op: Caps.Op)
    ensures Registrations(calls + [Request(task, Other(op))]) == Registrations(calls)
  {
    assert (calls + [Request(task, Other(op))])[..|calls|] == calls;
  }

  /** Task 0 and task 1 start. */
  function Started(): (calls: seq<Request>)
  {
    [] + [Request(0, Other(Caps.StartThread))] + [Request(1, Other(Caps.StartThread))]
  }

  /** Task 1 gives up all rights to the root and spawns task 2, which so has none. */
  function Bared(): (calls: seq<Request>)
  {
    Started() + [Request(1, Other(Caps.Restrict(0, {})))] + [Request(1, Other(Caps.SpawnTask(2)))]
  }

  /** Task 1 registers its slot under a name. */
  function Confined(name: string): (calls: seq<Request>) { Bared() + [Request(1, Register(name, 0))] }

  /** The table of a task that has given up its rights to the root. */
  function Bare(): (t: Caps.Table) { Caps.Fresh()[0 := Caps.ROOT.(rights := {})] }

  lemma StartStep(s: System, task: nat)
    requires Inv(s.ns)
    ensures Step(s, task, Other(Caps.StartThread)).0 == s.(caps := s.caps[Caps.TableOf(task) := Caps.Fresh()])
  {
  }

  lemma AfterStart(calls: seq<Request>, task: nat, next: seq<Request>)
    requires next == calls + [Request(task, Other(Caps.StartThread))]
    ensures Exec(next).ns == Exec(calls).ns && Registrations(next) == Registrations(calls)
    ensures Exec(next).caps == Exec(calls).caps[Caps.TableOf(task) := Caps.Fresh()]
  {
    ExecSnoc(calls, Request(task, Other(Caps.StartThread)));
    StartStep(Exec(calls), task);
    NoRegistration(calls, task, Caps.StartThread);
  }

  lemma StartedRun()
    ensures var s := Exec(Started()); s.ns == Empty() && s.caps[0] == Caps.Fresh() && s.caps[1] == Caps.Fresh()
    ensures Registrations(Started()) == []
  {
    var a: seq<Request> := [];
    var c := a + [Request(0, Other(Caps.StartThread))];
    assert Exec(a) == Boot() && Registrations(a) == [];
    AfterStart(a, 0, c);
    AfterStart(c, 1, Started());
  }

  lemma Narrows(caps: Caps.System)
    requires caps[1] == Caps.Fresh()
    ensures Caps.Step(caps, 1, Caps.Restrict(0, {})).0 == caps[1 := Bare()]
  {
    var t := caps[1];
    assert t[0] == Caps.ROOT && t[0].rights * {} == {};
    assert Caps.Narrow(t, 0, {}).0 == Bare();
  }

  lemma Spawns(caps: Caps.System)
    ensures var u := Caps.Step(caps, 1, Caps.SpawnTask(2)).0; u[0] == caps[0] && u[1] == caps[1] && u[2] == caps[1]
  {
  }

  lemma BaredRun()
    ensures var s := Exec(Bared());
      s.ns == Empty() && s.caps[0] == Caps.Fresh() && s.caps[1] == Bare() && s.caps[2] == Bare()
    ensures Registrations(Bared()) == []
  {
    var c := Started() + [Request(1, Other(Caps.Restrict(0, {})))];
    StartedRun();
    ExecSnoc(Started(), Request(1, Other(Caps.Restrict(0, {}))));
    Narrows(Exec(Started()).caps);
    ExecSnoc(c, Request(1, Other(Caps.SpawnTask(2))));
    Spawns(Exec(c).caps);
    NoRegistration(Started(), 1, Caps.Restrict(0, {}));
    NoRegistration(c, 1, Caps.SpawnTask(2));
  }

  lemma ConfinedRun(name: string)
    ensures var s := Exec(Confined(name));
      s.ns == Insert(Empty(), name, 0, 1).0 && s.caps[0] == Caps.Fresh() && s.caps[2] == Bare()
    ensures Registrations(Confined(name)) == [Registration(name, 0, 1)]
  {
    BaredRun();
    var c := Request(1, Register(name, 0));
    assert Caps.Resolve(Exec(Bared()).caps[1], 0).Some?;
    ExecSnoc(Bared(), c);
    assert Confined(name)[..|Bared()|] == Bared();
  }

  lemma BareHasNone(need: set<Caps.Right>)
    ensures !VfsCaps.HasRoot(Bare(), need) && Caps.FreeSlot(Bare(), 0) == Some(1)
  {
    assert Bare()[1] == Caps.EMPTY;
  }

  lemma NothingFor(r: Registration)
    requires Find(Insert(Empty(), r.name, r.handle, r.owner).0, r.name) == Some(1)
    ensures LastFor(Empty(), [r], 0, None) == None
  {
    assert [r][1..] == [];
  }

  lemma RootGiven(need: set<Caps.Right>)
    requires need * {Caps.VfsRead, Caps.VfsWrite} != {}
    ensures GivesRoot(Caps.Fresh()[0], need)
  {
    assert {Caps.VfsRead, Caps.VfsWrite} - {Caps.Revoke, Caps.Dup} == {Caps.VfsRead, Caps.VfsWrite};
  }

  /** The run, and then task 2 looks up the empty name. */
  function LookedUp(name: string): (calls: seq<Request>) { Confined(name) + [Request(2, LookupName(""))] }

  lemma LookedUpRun(name: string, a: string, b: string, need: set<Caps.Right>)
    requires Path(name) == [a, b] && a != b && need * {Caps.VfsRead, Caps.VfsWrite} != {}
    ensures !VfsCaps.HasRoot(Exec(Confined(name)).caps[2], need) && VfsCaps.HasRoot(Exec(LookedUp(name)).caps[2], need)
    ensures LastFor(Empty(), Registrations(Confined(name)), 0, None) == None
  {
    var s := Exec(Confined(name));
    ConfinedRun(name);
    FirstPair(name, a, b, 0, 1);
    NothingFor(Registration(name, 0, 1));
    BareHasNone(need);
    RootGiven(need);
    LookupGainsExactly(s.caps, 2, 0, 0, need);
    ExecSnoc(Confined(name), Request(2, LookupName("")));
  }

  /** From boot: task 2 may use no path; it looks up the empty name, for which nothing was registered; and it may use
      every path with a leading slash. */
  lemma UnregisteredNameGivesRoot(a: string, b: string, p: string, need: set<Caps.Right>)
    requires IsToken(a) && IsToken(b) && a != b && |a| + |b| + 1 < NAME_LEN
    requires need * {Caps.VfsRead, Caps.VfsWrite} != {}
    ensures var name := a + ['.'] + b;
      && !VfsCaps.MayUse(Exec(Confined(name)).caps[2], p, need)
      && (VfsCaps.MayUse(Exec(LookedUp(name)).caps[2], p, need) <==> VfsCaps.Absolute(p))
      && LastFor(Empty(), Registrations(Confined(name)), 0, None) == None
  {
    var name := a + ['.'] + b;
    PathOfPair(a, b);
    LookedUpRun(name, a, b, need);
    RunSplits(Confined(name));
    RunSplits(LookedUp(name));
    VfsCaps.AllOrNothing(Effects(Confined(name)), 2, p, need);
    VfsCaps.AllOrNothing(Effects(LookedUp(name)), 2, p, need);
  }
}
