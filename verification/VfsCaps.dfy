/** task_has_vfs_cap of sageos_build/kernel/core/syscall.c: a string test on the path that the caller was
    given, against what it should mean, that a capability covers the place which the path names. */
module VfsCaps {
  import opened Paths
  import opened Mounts
  import Caps

  // ---------------------------------------------------------------- the test

  /** What one capability says of a path; any of the needed rights is enough. */
  predicate Grants(c: Caps.Cap, p: string, need: set<Caps.Right>)
  {
    && Caps.Usable(c) && c.kind in {Caps.Dir, Caps.File} && need * c.rights != {}
    && c.path <= p
    && (c.kind == Caps.Dir ==> |p| == |c.path| || p[|c.path|] == '/' || c.path == "/")
    && (c.kind == Caps.File ==> p == c.path)
  }

  /** task_has_vfs_cap over the slots of the task's table. */
  method HasVfsCap(capOnly: bool, caps: seq<Caps.Cap>, p: string, need: set<Caps.Right>) returns (ok: bool)
    ensures ok <==> !capOnly || exists i :: 0 <= i < |caps| && Grants(caps[i], p, need)
  {
    if !capOnly {
      return true;
    }
    for i := 0 to |caps|
      invariant forall k :: 0 <= k < i ==> !Grants(caps[k], p, need)
    {
      var c := caps[i];
      if Caps.Usable(c) && (c.kind == Caps.Dir || c.kind == Caps.File) {
        if need * c.rights != {} && |c.path| <= |p| {
          var same := SameStart(p, c.path, |c.path|);
          assert c.path[..|c.path|] == c.path;
          if same {
            if c.kind == Caps.Dir {
              if |p| == |c.path| || p[|c.path|] == '/' || c.path == "/" {
                return true;
              }
            } else if p == c.path {
              return true;
            }
          }
        }
      }
    }
    return false;
  }

  // ---------------------------------------------------------------- what it should mean

  /** A directory covers every place whose components its own start; a file covers its own place. */
  ghost predicate Covers(c: Caps.Cap, place: seq<string>, need: set<Caps.Right>)
  {
    && Caps.Usable(c) && need * c.rights != {}
    && ((c.kind == Caps.Dir && Components(c.path) <= place) || (c.kind == Caps.File && c.path == Render(place)))
  }

  /** The path of a capability is its own normal form. */
  ghost predicate NormalCap(c: Caps.Cap)
  {
    Caps.Usable(c) && c.kind in {Caps.Dir, Caps.File} ==> Normal(c.path) == c.path
  }

  /** The components of the longest stretch at the start of p that is a normal path. */
  function Lead(p: string): (cs: seq<string>)
    decreases |p|
  {
    if p == "" || p[0] != '/' then []
    else
      var c := p[1..1 + Run(p[1..])];
      if Proper(c) then [c] + Lead(p[1 + |c|..]) else []
  }

  /** p starts with a slash and the whole component c. */
  predicate AtFront(c: string, p: string)
  {
    p != "" && p[0] == '/' && Run(p[1..]) == |c| && p[1..1 + |c|] == c
  }

  lemma UnderOne(c: string, m: string, p: string)
    requires Proper(c) && (m == "" || m[0] == '/')
    ensures Under("/" + c + m, p) <==> AtFront(c, p) && Under(m, p[1 + |c|..])
  {
    var all := "/" + c + m;
    if Under(all, p) {
      assert p[0] == all[0] && p[1..1 + |c|] == all[1..1 + |c|] == c;
      assert p[1 + |c|..][..|m|] == p[1 + |c|..|all|] == all[1 + |c|..] == m;
      RunTo(p[1..], c);
    }
  }

  /** The run of characters up to a boundary. */
  lemma {:induction false} RunTo(s: string, c: string)
    requires c <= s && (|s| == |c| || s[|c|] == '/') && forall k :: 0 <= k < |c| ==> c[k] != '/'
    ensures Run(s) == |c|
    decreases |c|
  {
    if c != "" {
      assert s[0] == c[0] && c[1..] <= s[1..];
      RunTo(s[1..], c[1..]);
    }
  }

  lemma JoinFront(c: string, cs: seq<string>)
    ensures Join([c] + cs) == "/" + c + Join(cs)
    ensures Join(cs) == "" || Join(cs)[0] == '/'
  {
    JoinConcat([c], cs);
    assert Join([c]) == "/" + c by {
      assert [c][..0] == [];
    }
    if cs != [] {
      JoinStart(cs);
    }
  }

  lemma LeadOne(c: string, p: string)
    requires Proper(c)
    ensures AtFront(c, p) ==> Lead(p) == [c] + Lead(p[1 + |c|..])
    ensures !AtFront(c, p) ==> Lead(p) == [] || Lead(p)[0] != c
  {
  }

  lemma PrefixCons(c: string, rest: seq<string>, ls: seq<string>)
    ensures [c] + rest <= [c] + ls <==> rest <= ls
  {
    if rest <= ls {
      assert ls == rest + ls[|rest|..];
    }
    if [c] + rest <= [c] + ls {
      assert ls[..|rest|] == ([c] + ls)[1..1 + |rest|] == ([c] + rest)[1..] == rest;
    }
  }

  /** A normal path other than the root stands at the start of p, at a component boundary, exactly when its
      components start the leading stretch of p. */
  lemma {:induction false} UnderMeansLead(cs: seq<string>, p: string)
    requires AllProper(cs) && cs != []
    ensures Under(Join(cs), p) <==> cs <= Lead(p)
    decreases |cs|
  {
    var c, rest := cs[0], cs[1..];
    assert [c] + rest == cs;
    JoinFront(c, rest);
    UnderOne(c, Join(rest), p);
    LeadOne(c, p);
    if AtFront(c, p) {
      var q := p[1 + |c|..];
      PrefixCons(c, rest, Lead(q));
      if rest != [] {
        UnderMeansLead(rest, q);
      }
    }
  }

  // ---------------------------------------------------------------- directories

  lemma NormalPlace(p: string)
    requires Normal(p) == p
    ensures IsNormal(p) && Components(p) == Place(p) && p == Render(Place(p))
    ensures AllProper(Place(p)) && |Place(p)| <= DEPTH && p != "" && p[0] == '/'
  {
    NormalIsNormal(p);
    PlaceProper(p);
    ComponentsOfRender(Place(p));
    if Place(p) != [] {
      JoinStart(Place(p));
    }
  }

  /** The directory test: the root takes every path with a leading slash, any other directory those whose
      leading stretch its components start. */
  lemma DirGrants(c: Caps.Cap, p: string, need: set<Caps.Right>)
    requires Caps.Usable(c) && c.kind == Caps.Dir && NormalCap(c) && need * c.rights != {}
    ensures Grants(c, p, need) <==> p != "" && p[0] == '/' && Place(c.path) <= Lead(p)
  {
    NormalPlace(c.path);
    if Place(c.path) != [] {
      UnderMeansLead(Place(c.path), p);
      assert Grants(c, p, need) <==> Under(c.path, p) by {
        RootIsNotJoin(Place(c.path));
      }
      if Place(c.path) <= Lead(p) {
        assert Lead(p) != [];
      }
    } else {
      assert c.path == "/";
    }
  }

  // ---------------------------------------------------------------- granted and covered

  /** The first components that a place has room for. */
  function Room(cs: seq<string>): (r: seq<string>) { if |cs| <= DEPTH then cs else cs[..DEPTH] }

  lemma {:induction false} LeadProper(p: string)
    ensures AllProper(Lead(p))
    decreases |p|
  {
    if p != "" && p[0] == '/' {
      var c := p[1..1 + Run(p[1..])];
      if Proper(c) {
        LeadProper(p[1 + |c|..]);
      }
    }
  }

  /** Proper names that fit are the place their path names, and the path is normal. */
  lemma RenderIsNormal(cs: seq<string>)
    requires AllProper(cs) && |cs| <= DEPTH
    ensures Place(Render(cs)) == cs && Normal(Render(cs)) == Render(cs)
  {
    ComponentsOfRender(cs);
    WalkNames([], cs);
  }

  function CapFor(kind: Caps.Kind, path: string, need: set<Caps.Right>): Caps.Cap
  {
    Caps.Cap(need, kind, 0, 1, 0, false, path)
  }

  ghost predicate GrantedIsCovered(p: string, need: set<Caps.Right>)
  {
    forall c :: NormalCap(c) && Grants(c, p, need) ==> Covers(c, Place(p), need)
  }

  ghost predicate CoveredIsGranted(p: string, need: set<Caps.Right>)
  {
    forall c :: NormalCap(c) && Covers(c, Place(p), need) ==> Grants(c, p, need)
  }

  lemma GrantIsCover(c: Caps.Cap, p: string, need: set<Caps.Right>)
    requires NormalCap(c) && Grants(c, p, need) && Room(Lead(p)) <= Place(p)
    ensures Covers(c, Place(p), need)
  {
    NormalPlace(c.path);
    if c.kind == Caps.Dir {
      DirGrants(c, p, need);
      assert Place(c.path) <= Room(Lead(p));
    }
  }

  /** Every capability grants only paths whose place it covers exactly when the leading stretch of the path,
      as far as there is room for it, is still there in the place the path names. */
  lemma GrantedIsCoveredExactly(p: string, need: set<Caps.Right>)
    requires need != {}
    ensures GrantedIsCovered(p, need) <==> Room(Lead(p)) <= Place(p)
  {
    if Room(Lead(p)) <= Place(p) {
      forall c | NormalCap(c) && Grants(c, p, need) ensures Covers(c, Place(p), need) {
        GrantIsCover(c, p, need);
      }
    } else {
      LeadProper(p);
      var c := CapFor(Caps.Dir, Render(Room(Lead(p))), need);
      RenderIsNormal(Room(Lead(p)));
      DirGrants(c, p, need);
      NormalPlace(c.path);
      assert Grants(c, p, need) && !Covers(c, Place(p), need);
    }
  }

  lemma JoinAtFront(c: string, m: string)
    requires Proper(c) && (m == "" || m[0] == '/')
    ensures AtFront(c, "/" + c + m) && ("/" + c + m)[1 + |c|..] == m
  {
    var p := "/" + c + m;
    assert p[1..] == c + m;
    RunTo(c + m, c);
  }

  lemma {:induction false} LeadOfJoin(cs: seq<string>)
    requires AllProper(cs)
    ensures Lead(Join(cs)) == cs
    decreases |cs|
  {
    if cs != [] {
      var c, rest := cs[0], cs[1..];
      assert [c] + rest == cs;
      JoinFront(c, rest);
      JoinAtFront(c, Join(rest));
      LeadOne(c, Join(cs));
      LeadOfJoin(rest);
    }
  }

  lemma LeadOfNormal(p: string)
    requires Normal(p) == p
    ensures Lead(p) == Place(p)
  {
    NormalPlace(p);
    if Place(p) != [] {
      LeadOfJoin(Place(p));
    }
  }

  lemma CoverIsGrant(c: Caps.Cap, p: string, need: set<Caps.Right>)
    requires Normal(p) == p && NormalCap(c) && Covers(c, Place(p), need)
    ensures Grants(c, p, need)
  {
    NormalPlace(p);
    if c.kind == Caps.Dir {
      DirGrants(c, p, need);
      NormalPlace(c.path);
      LeadOfNormal(p);
    }
  }

  /** Every capability grants all paths whose place it covers exactly when the path is its own normal form. */
  lemma CoveredIsGrantedExactly(p: string, need: set<Caps.Right>)
    requires need != {}
    ensures CoveredIsGranted(p, need) <==> Normal(p) == p
  {
    if Normal(p) == p {
      forall c | NormalCap(c) && Covers(c, Place(p), need) ensures Grants(c, p, need) {
        CoverIsGrant(c, p, need);
      }
    } else {
      PlaceOfNormal(p);
      var c := CapFor(Caps.File, Normal(p), need);
      NormalIdempotent(p);
      assert Covers(c, Place(p), need) && !Grants(c, p, need);
    }
  }

  /** So the test means coverage, for every capability, exactly on paths that are normal when it is made. */
  lemma TestMeansCoverageExactly(p: string, need: set<Caps.Right>)
    requires need != {}
    ensures GrantedIsCovered(p, need) && CoveredIsGranted(p, need) <==> Normal(p) == p
  {
    GrantedIsCoveredExactly(p, need);
    CoveredIsGrantedExactly(p, need);
    if Normal(p) == p {
      LeadOfNormal(p);
      PlaceProper(p);
    }
  }

  /** A task confined to its capabilities may use a normal path exactly when one of them covers its place. */
  lemma AllowedMeansCovered(caps: seq<Caps.Cap>, p: string, need: set<Caps.Right>)
    requires Normal(p) == p && need != {} && forall i :: 0 <= i < |caps| ==> NormalCap(caps[i])
    ensures (exists i :: 0 <= i < |caps| && Grants(caps[i], p, need))
      <==> (exists i :: 0 <= i < |caps| && Covers(caps[i], Place(p), need))
  {
    TestMeansCoverageExactly(p, need);
  }

  // ---------------------------------------------------------------- paths that do not climb

  predicate NoClimb(cs: seq<string>) { forall k :: 0 <= k < |cs| ==> cs[k] != ".." }

  lemma {:induction false} WalkGrows(stack: seq<string>, cs: seq<string>)
    requires NoClimb(cs)
    ensures stack <= Walk(stack, cs)
    decreases |cs|
  {
    if cs != [] {
      WalkGrows(Push(stack, cs[0]), cs[1..]);
    }
  }

  lemma {:induction false} WalkFull(stack: seq<string>, cs: seq<string>)
    requires AllProper(cs) && |stack| == DEPTH
    ensures Walk(stack, cs) == stack
    decreases |cs|
  {
    if cs != [] {
      assert Proper(cs[0]);
      WalkFull(stack, cs[1..]);
    }
  }

  lemma WalkRoom(cs: seq<string>)
    requires AllProper(cs)
    ensures Walk([], cs) == Room(cs)
  {
    var a := Room(cs);
    WalkNames([], a);
    if |cs| > DEPTH {
      assert cs == a + cs[DEPTH..];
      WalkConcat([], a, cs[DEPTH..]);
      WalkFull(a, cs[DEPTH..]);
    }
  }

  lemma FrontComponent(c: string, p: string)
    requires Proper(c) && AtFront(c, p)
    ensures Components(p) == [c] + Components(p[1 + |c|..])
  {
    var q := p[1..];
    assert q[..Run(q)] == c && q[Run(q)..] == p[1 + |c|..];
    assert q[0] == c[0];
  }

  /** The leading stretch holds the first components of the path. */
  lemma {:induction false} LeadIsPrefix(p: string)
    ensures Lead(p) <= Components(p)
    decreases |p|
  {
    if Lead(p) != [] {
      var c := p[1..1 + Run(p[1..])];
      var rest := p[1 + |c|..];
      FrontComponent(c, p);
      LeadIsPrefix(rest);
      PrefixCons(c, Lead(rest), Components(rest));
    }
  }

  /** A path without a ".." component is granted only by capabilities that cover its place. */
  lemma NoClimbIsSafe(p: string, need: set<Caps.Right>)
    requires NoClimb(Components(p)) && need != {}
    ensures GrantedIsCovered(p, need)
  {
    var lead, all := Lead(p), Components(p);
    LeadIsPrefix(p);
    LeadProper(p);
    var rest := all[|lead|..];
    assert all == lead + rest;
    WalkConcat([], lead, rest);
    WalkRoom(lead);
    WalkGrows(Room(lead), rest);
    GrantedIsCoveredExactly(p, need);
  }

  // ---------------------------------------------------------------- the capabilities of every run

  /** Not a file, and if a directory, the root. */
  predicate RootOrNone(c: Caps.Cap) { c.kind != Caps.File && (c.kind == Caps.Dir ==> c.path == "/") }

  /** Over every run no task ever holds a capability for a file or for a directory below the root. */
  lemma OnlyTheRoot(calls: seq<Caps.Request>, task: nat, h: nat)
    requires h < Caps.SLOTS
    ensures RootOrNone(Caps.Exec(Caps.Initial(), calls)[Caps.TableOf(task)][h])
  {
    var s := Caps.Exec(Caps.Initial(), calls);
    Caps.RunEvery(calls, RootOrNone);
    assert Caps.Every(s[Caps.TableOf(task)], RootOrNone);
  }

  predicate Absolute(p: string) { p != "" && p[0] == '/' }

  lemma RootGrants(c: Caps.Cap, p: string, need: set<Caps.Right>)
    requires RootOrNone(c)
    ensures Grants(c, p, need) <==> Absolute(p) && Covers(c, Place(p), need)
  {
    assert Components("/") == [] by {
      assert "/"[1..] == "";
    }
  }

  /** In every reachable table: a capability grants a path exactly when the path has a leading slash and the
      capability covers the place it names, ".." or not. */
  lemma ReachableGrant(calls: seq<Caps.Request>, task: nat, h: nat, p: string, need: set<Caps.Right>)
    requires h < Caps.SLOTS
    ensures var c := Caps.Exec(Caps.Initial(), calls)[Caps.TableOf(task)][h];
      Grants(c, p, need) <==> Absolute(p) && Covers(c, Place(p), need)
  {
    OnlyTheRoot(calls, task, h);
    RootGrants(Caps.Exec(Caps.Initial(), calls)[Caps.TableOf(task)][h], p, need);
  }

  ghost predicate MayUse(t: Caps.Table, p: string, need: set<Caps.Right>)
  {
    exists h :: 0 <= h < Caps.SLOTS && Grants(t[h], p, need)
  }

  ghost predicate HasRoot(t: Caps.Table, need: set<Caps.Right>)
  {
    exists h :: 0 <= h < Caps.SLOTS && Caps.Usable(t[h]) && t[h].kind == Caps.Dir && need * t[h].rights != {}
  }

  /** So a task confined to its capabilities may use all paths with a leading slash or none: it is confined to
      no part of the tree. */
  lemma AllOrNothing(calls: seq<Caps.Request>, task: nat, p: string, need: set<Caps.Right>)
    ensures var t := Caps.Exec(Caps.Initial(), calls)[Caps.TableOf(task)];
      MayUse(t, p, need) <==> Absolute(p) && HasRoot(t, need)
  {
    var t := Caps.Exec(Caps.Initial(), calls)[Caps.TableOf(task)];
    forall h | 0 <= h < Caps.SLOTS
      ensures Grants(t[h], p, need)
        <==> Absolute(p) && Caps.Usable(t[h]) && t[h].kind == Caps.Dir && need * t[h].rights != {}
    {
      OnlyTheRoot(calls, task, h);
    }
  }

  // ---------------------------------------------------------------- failing inputs

  lemma ParentComponent()
    ensures Components("/..") == [".."]
  {
    var q := "..";
    assert "/.."[1..] == q;
    RunTo(q, q);
    assert q[..2] == q && q[2..] == "";
  }

  lemma ClimbPlace(c: string, d: string)
    requires Proper(c) && Proper(d)
    ensures Walk([], [c] + [".."] + [d]) == [d]
  {
    WalkNames([], [c]);
    WalkConcat([], [c] + [".."], [d]);
    WalkConcat([], [c], [".."]);
    assert Walk([c], [".."]) == [] by {
      assert [".."][1..] == [];
    }
    WalkNames([], [d]);
  }

  lemma Climbs(c: string, d: string)
    requires Proper(c) && Proper(d)
    ensures Place("/" + c + "/.." + ("/" + d)) == [d]
  {
    ComponentsOfOne(c);
    ComponentsOfOne(d);
    ParentComponent();
    ComponentsConcat("/" + c, "/..");
    ComponentsConcat("/" + c + "/..", "/" + d);
    ClimbPlace(c, d);
  }

  lemma OneComponent(c: string)
    requires Proper(c)
    ensures Normal("/" + c) == "/" + c && Place("/" + c) == [c]
  {
    JoinFront(c, []);
    assert [c] + [] == [c] && Join([]) == "" && "/" + c + "" == "/" + c;
    assert Render([c]) == "/" + c;
    RenderIsNormal([c]);
  }

  /** A directory below the root, if there were one, would grant a path that starts in it and climbs out,
      "/home/../etc" say, though it does not cover the place. */
  lemma ClimbingPathGranted(c: string, d: string, need: set<Caps.Right>)
    requires Proper(c) && Proper(d) && c != d && need != {}
    ensures var p := "/" + c + "/.." + ("/" + d);
      var cap := CapFor(Caps.Dir, "/" + c, need);
      NormalCap(cap) && Grants(cap, p, need) && !Covers(cap, Place(p), need)
  {
    Climbs(c, d);
    ComponentsOfOne(c);
    OneComponent(c);
  }

  /** A task starts and spawns another. */
  function SpawnRun(parent: nat, child: nat): (calls: seq<Caps.Request>)
  {
    [Caps.Request(parent, Caps.StartThread), Caps.Request(parent, Caps.SpawnTask(child))]
  }

  lemma SpawnedTable(parent: nat, child: nat)
    ensures Caps.Exec(Caps.Initial(), SpawnRun(parent, child))[Caps.TableOf(child)] == Caps.Fresh()
  {
    var calls := SpawnRun(parent, child);
    assert calls[..1] == [calls[0]] && [calls[0]][..0] == [];
    assert Caps.Exec(Caps.Initial(), []) == Caps.Initial();
    assert Caps.Exec(Caps.Initial(), [calls[0]])[Caps.TableOf(parent)] == Caps.Fresh();
  }

  /** A path without a leading slash is refused by the root directory, which covers every place; so a task that
      was spawned from boot and holds the root with all rights may not use it. */
  lemma RelativePathRefused(parent: nat, child: nat, d: string, need: set<Caps.Right>)
    requires Proper(d) && need * {Caps.VfsRead, Caps.VfsWrite} != {}
    ensures var t := Caps.Exec(Caps.Initial(), SpawnRun(parent, child))[Caps.TableOf(child)];
      !MayUse(t, d, need) && Covers(t[0], Place(d), need) && MayUse(t, "/" + d, need)
  {
    var t := Caps.Exec(Caps.Initial(), SpawnRun(parent, child))[Caps.TableOf(child)];
    SpawnedTable(parent, child);
    AllOrNothing(SpawnRun(parent, child), child, d, need);
    AllOrNothing(SpawnRun(parent, child), child, "/" + d, need);
    assert t[0] == Caps.ROOT && HasRoot(t, need);
    RootGrants(t[0], "/" + d, need);
    assert Components("/") == [] by {
      assert "/"[1..] == "";
    }
  }

  /** With a doubled slash the path has a leading slash and does not climb, and would still be refused by the
      directory below the root that covers its place. */
  lemma DoubledSlashRefused(c: string, need: set<Caps.Right>)
    requires Proper(c) && need != {}
    ensures var cap := CapFor(Caps.Dir, "/" + c, need);
      NormalCap(cap) && NoClimb(Components("//" + c))
      && !Grants(cap, "//" + c, need) && Covers(cap, Place("//" + c), need)
  {
    ComponentsOfOne(c);
    OneComponent(c);
    assert ("//" + c)[1..] == "/" + c;
    assert !("/" + c <= "//" + c) by {
      assert ("/" + c)[1] != ("//" + c)[1];
    }
  }
}
