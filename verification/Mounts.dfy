/** The mount table of sageos_build/kernel/fs/vfs.c. */
module Mounts {
  import opened Bytes
  import opened Paths

  const MAX_MOUNTS := 8

  datatype Mount = Mount(path: string, backend: nat, active: bool)

  /** A path that is its own normal form. */
  ghost predicate IsNormal(p: string) { exists cs :: Named(p, cs) }

  ghost predicate Named(p: string, cs: seq<string>) { AllProper(cs) && p == Render(cs) }

  /** What vfs_normalize_path leaves is normal, when it was not cut. */
  lemma NormalIsNormal(path: string)
    ensures IsNormal(Normal(path))
  {
    PlaceProper(path);
    assert Named(Normal(path), Place(path));
  }

  lemma NormalParts(p: string)
    requires IsNormal(p)
    ensures Named(p, Components(p))
  {
    var cs :| Named(p, cs);
    ComponentsOfRender(cs);
  }

  /** p starts with m, and m ends there at a component boundary. */
  predicate Under(m: string, p: string)
  {
    m <= p && (|p| == |m| || p[|m|] == '/')
  }

  lemma {:induction false} JoinConcat(a: seq<string>, b: seq<string>)
    ensures Join(a + b) == Join(a) + Join(b)
    decreases |b|
  {
    if b == [] {
      assert a + b == a;
    } else {
      var n := |b| - 1;
      assert (a + b)[..|a + b| - 1] == a + b[..n];
      JoinConcat(a, b[..n]);
    }
  }

  lemma {:induction false} JoinStart(cs: seq<string>)
    requires cs != []
    ensures Join(cs) != "" && Join(cs)[0] == '/'
  {
    if |cs| > 1 {
      JoinStart(cs[..|cs| - 1]);
    }
  }

  /** On normal paths the string test means that the components of one start the components of the other. */
  lemma UnderMeansPrefix(m: string, p: string)
    requires IsNormal(m) && IsNormal(p)
    ensures m == "/" || Under(m, p) <==> Components(m) <= Components(p)
  {
    var a, b := Components(m), Components(p);
    NormalParts(m);
    NormalParts(p);
    if a == [] {
    } else {
      JoinStart(a);
      if Under(m, p) {
        assert p == m + p[|m|..];
        ComponentsConcat(m, p[|m|..]);
      }
      if a <= b {
        var c := b[|a|..];
        assert b == a + c;
        JoinConcat(a, c);
        if c != [] {
          JoinStart(c);
        }
      }
      RootIsNotJoin(a);
    }
  }

  lemma RootIsNotJoin(a: seq<string>)
    requires a != [] && AllProper(a)
    ensures Join(a) != "/"
  {
    ComponentsOfJoin(a);
    assert Components("/") == Components("/"[1..]);
  }

  // ---------------------------------------------------------------- resolving

  predicate Matches(m: Mount, p: string) { m.active && (m.path == "/" || Under(m.path, p)) }

  /** The part of p below the mount. */
  function Relative(m: Mount, p: string): (r: string)
    requires Matches(m, p)
  {
    if m.path == "/" then p else if |p| == |m.path| then "/" else p[|m.path|..]
  }

  ghost predicate AllNormal(ms: seq<Mount>) { forall i :: 0 <= i < |ms| ==> IsNormal(ms[i].path) }

  /** resolve_mount picks mount k for p: a match that no match is longer than, and no earlier one as long. */
  predicate Best(ms: seq<Mount>, p: string, k: nat)
  {
    && k < |ms| && Matches(ms[k], p)
    && (forall i :: 0 <= i < |ms| && Matches(ms[i], p) ==> |ms[i].path| <= |ms[k].path|)
    && (forall i :: 0 <= i < k && Matches(ms[i], p) ==> |ms[i].path| < |ms[k].path|)
  }

  lemma MatchesMeansPrefix(m: Mount, p: string)
    requires IsNormal(m.path) && IsNormal(p)
    ensures Matches(m, p) <==> m.active && Components(m.path) <= Components(p)
  {
    UnderMeansPrefix(m.path, p);
  }

  /** Among normal prefixes of one path, string length and component count agree. */
  lemma LengthIsDepth(m: string, k: string, p: string)
    requires IsNormal(m) && IsNormal(k) && IsNormal(p)
    requires Components(m) <= Components(p) && Components(k) <= Components(p)
    ensures |m| <= |k| <==> |Components(m)| <= |Components(k)|
  {
    NormalParts(m);
    NormalParts(k);
    var a, b := Components(m), Components(k);
    if |a| <= |b| {
      LongerPath(a, b);
    } else {
      LongerPath(b, a);
      if |m| == |k| {
        SameLength(b, a);
      }
    }
  }

  lemma LongerPath(a: seq<string>, b: seq<string>)
    requires AllProper(a) && AllProper(b) && a <= b
    ensures |Render(a)| <= |Render(b)|
  {
    assert b == a + b[|a|..];
    JoinConcat(a, b[|a|..]);
    if b != [] {
      JoinStart(b);
    }
  }

  lemma SameLength(a: seq<string>, b: seq<string>)
    requires AllProper(a) && AllProper(b) && a <= b && |a| < |b|
    ensures |Render(a)| < |Render(b)|
  {
    var c := b[|a|..];
    assert b == a + c;
    JoinConcat(a, c);
    JoinStart(c);
    if a == [] {
      RootIsNotJoin(b);
      JoinStart(b);
      assert |Join(b)| == 1 ==> Join(b) == "/";
    }
  }

  /** The chosen mount has the longest component-wise prefix of the path, the lowest slot among equals, and
      its components followed by those of the relative path are those of the path. */
  lemma BestIsLongestPrefix(ms: seq<Mount>, p: string, k: nat)
    requires AllNormal(ms) && IsNormal(p) && Best(ms, p, k)
    ensures ms[k].active && Components(ms[k].path) <= Components(p)
    ensures forall i :: 0 <= i < |ms| && ms[i].active && Components(ms[i].path) <= Components(p) ==>
      && |Components(ms[i].path)| <= |Components(ms[k].path)|
      && (i < k ==> |Components(ms[i].path)| < |Components(ms[k].path)|)
    ensures Components(ms[k].path) + Components(Relative(ms[k], p)) == Components(p)
  {
    MatchesMeansPrefix(ms[k], p);
    forall i | 0 <= i < |ms| && ms[i].active && Components(ms[i].path) <= Components(p)
      ensures |Components(ms[i].path)| <= |Components(ms[k].path)|
      ensures i < k ==> |Components(ms[i].path)| < |Components(ms[k].path)|
    {
      MatchesMeansPrefix(ms[i], p);
      LengthIsDepth(ms[i].path, ms[k].path, p);
      LengthIsDepth(ms[k].path, ms[i].path, p);
    }
    RelativeComponents(ms[k], p);
  }

  lemma RelativeComponents(m: Mount, p: string)
    requires Matches(m, p)
    ensures Components(m.path) + Components(Relative(m, p)) == Components(p)
  {
    assert Components("/") == Components("/"[1..]);
    if m.path != "/" {
      assert p == m.path + p[|m.path|..];
      ComponentsConcat(m.path, p[|m.path|..]);
      if |p| == |m.path| {
        assert p[|m.path|..] == "";
      }
    }
  }

  // ---------------------------------------------------------------- mounting and unmounting

  function FirstAt(ms: seq<Mount>, path: string, i: nat): (r: Option<nat>)
    requires i <= |ms|
    ensures r.Some? ==> i <= r.value < |ms| && ms[r.value].active && ms[r.value].path == path
    ensures r.Some? ==> forall k :: i <= k < r.value && ms[k].active ==> ms[k].path != path
    ensures r.None? ==> forall k :: i <= k < |ms| && ms[k].active ==> ms[k].path != path
    decreases |ms| - i
  {
    if i == |ms| then None
    else if ms[i].active && ms[i].path == path then Some(i)
    else FirstAt(ms, path, i + 1)
  }

  datatype Op = MountAt(path: string, backend: nat) | UnmountAt(path: string)

  function Step(ms: seq<Mount>, op: Op): (r: seq<Mount>)
  {
    match op
    case MountAt(p, b) => if |ms| >= MAX_MOUNTS then ms else ms + [Mount(p, b, true)]
    case UnmountAt(p) =>
      match FirstAt(ms, p, 0)
      case None => ms
      case Some(i) => ms[i := ms[i].(active := false)]
  }

  /** A mount takes the next slot, and resolves there whatever its path is a prefix of; the slots before it are
      as they were. */
  lemma MountEffect(ms: seq<Mount>, path: string, backend: nat, p: string)
    requires |ms| < 8
    ensures var r := Step(ms, MountAt(path, backend));
      && |r| == |ms| + 1 && r[..|ms|] == ms && r[|ms|].backend == backend && r[|ms|].path == path
      && (Matches(r[|ms|], p) <==> path == "/" || Under(path, p))
  {
  }

  /** After an unmount the first active mount of that path matches nothing, and every other slot is as it was. */
  lemma UnmountEffect(ms: seq<Mount>, path: string, i: nat)
    requires i < |ms| && ms[i].active && ms[i].path == path
    requires forall k :: 0 <= k < i && ms[k].active ==> ms[k].path != path
    ensures var r := Step(ms, UnmountAt(path));
      && |r| == |ms| && (forall k :: 0 <= k < |ms| && k != i ==> r[k] == ms[k])
      && forall p :: !Matches(r[i], p)
  {
    var f := FirstAt(ms, path, 0);
    assert f.Some? && f.value == i;
  }

  /** So a path resolves as before exactly when that mount was not the one it resolved to. */
  lemma UnmountResolves(ms: seq<Mount>, path: string, i: nat, p: string, k: nat)
    requires i < |ms| && ms[i].active && ms[i].path == path
    requires forall j :: 0 <= j < i && ms[j].active ==> ms[j].path != path
    requires Best(ms, p, k)
    ensures Best(Step(ms, UnmountAt(path)), p, k) <==> k != i
  {
    UnmountEffect(ms, path, i);
  }

  /** A table without an active mount of the path, or a full one, stays as it is. */
  lemma MountsUnchanged(ms: seq<Mount>, op: Op)
    requires op.MountAt? ==> |ms| >= 8
    requires op.UnmountAt? ==> forall k :: 0 <= k < |ms| && ms[k].active ==> ms[k].path != op.path
    ensures Step(ms, op) == ms
  {
  }

  function Exec(ops: seq<Op>): (r: seq<Mount>)
  {
    if ops == [] then [] else Step(Exec(ops[..|ops| - 1]), ops[|ops| - 1])
  }

  ghost predicate MountsNormal(ops: seq<Op>)
  {
    forall i :: 0 <= i < |ops| && ops[i].MountAt? ==> IsNormal(ops[i].path)
  }

  lemma {:induction false} RunKeepsNormal(ops: seq<Op>)
    requires MountsNormal(ops)
    ensures AllNormal(Exec(ops)) && |Exec(ops)| <= MAX_MOUNTS
  {
    if ops != [] {
      RunKeepsNormal(ops[..|ops| - 1]);
    }
  }

  /** After any run of mounts at normal paths and of unmounts, resolving a path picks the active mount with
      the longest component-wise prefix of the place it names, the lowest slot among equals, and hands on
      the components below it. */
  lemma ResolveAfterRun(ops: seq<Op>, path: string, k: nat)
    requires MountsNormal(ops) && Best(Exec(ops), Normal(path), k)
    ensures var ms, cs := Exec(ops), Place(path);
      && ms[k].active && Components(ms[k].path) + Components(Relative(ms[k], Normal(path))) == cs
      && forall i :: 0 <= i < |ms| && ms[i].active && Components(ms[i].path) <= cs ==>
           && |Components(ms[i].path)| <= |Components(ms[k].path)|
           && (i < k ==> |Components(ms[i].path)| < |Components(ms[k].path)|)
  {
    RunKeepsNormal(ops);
    NormalIsNormal(path);
    PlaceProper(path);
    ComponentsOfRender(Place(path));
    BestIsLongestPrefix(Exec(ops), Normal(path), k);
  }

  /** When no mount matches, no active mount has a component-wise prefix of the place. */
  lemma ResolveNothing(ops: seq<Op>, path: string)
    requires MountsNormal(ops)
    ensures (forall i :: 0 <= i < |Exec(ops)| ==> !Matches(Exec(ops)[i], Normal(path)))
      <==> forall i :: 0 <= i < |Exec(ops)| ==> !(Exec(ops)[i].active && Components(Exec(ops)[i].path) <= Place(path))
  {
    RunKeepsNormal(ops);
    NormalIsNormal(path);
    PlaceProper(path);
    ComponentsOfRender(Place(path));
    forall i | 0 <= i < |Exec(ops)|
      ensures Matches(Exec(ops)[i], Normal(path))
        <==> Exec(ops)[i].active && Components(Exec(ops)[i].path) <= Place(path)
    {
      MatchesMeansPrefix(Exec(ops)[i], Normal(path));
    }
  }

  /** vfs_strncmp(a, b, n) == 0 for strings of at least n characters. */
  method SameStart(a: string, b: string, n: nat) returns (same: bool)
    requires n <= |a| && n <= |b|
    ensures same <==> a[..n] == b[..n]
  {
    var i := 0;
    while i < n
      invariant i <= n && a[..i] == b[..i]
    {
      if a[i] != b[i] {
        assert a[..n][i] != b[..n][i];
        return false;
      }
      i := i + 1;
    }
    return true;
  }

  class MountTable {
    const mounts: array<Mount>
    var count: nat

    constructor ()
      ensures Valid() && fresh(mounts) && Abs() == []
    {
      mounts := new Mount[MAX_MOUNTS](_ => Mount("", 0, false));
      count := 0;
    }

    ghost predicate Valid()
      reads this
    {
      mounts.Length == MAX_MOUNTS && count <= MAX_MOUNTS
    }

    ghost function Abs(): (ms: seq<Mount>)
      reads this, mounts
      requires Valid()
    {
      mounts[..count]
    }

    method AddMount(path: string, backend: nat) returns (ok: bool)
      requires Valid()
      modifies this, mounts
      ensures Valid() && Abs() == Step(old(Abs()), MountAt(path, backend))
      ensures ok <==> |old(Abs())| < MAX_MOUNTS
    {
      if count >= MAX_MOUNTS {
        return false;
      }
      mounts[count] := Mount(path, backend, true);
      count := count + 1;
      return true;
    }

    method Unmount(path: string) returns (ok: bool)
      requires Valid()
      modifies mounts
      ensures Valid() && Abs() == Step(old(Abs()), UnmountAt(path))
      ensures ok <==> FirstAt(old(Abs()), path, 0).Some?
    {
      var i := 0;
      while i < count
        invariant i <= count && mounts[..] == old(mounts[..])
        invariant FirstAt(mounts[..count], path, i) == FirstAt(mounts[..count], path, 0)
      {
        if mounts[i].active && |path| == |mounts[i].path| {
          var same := SameStart(path, mounts[i].path, |path|);
          if same {
            assert path[..|path|] == path && mounts[i].path[..|path|] == mounts[i].path;
            mounts[i] := mounts[i].(active := false);
            return true;
          }
        }
        i := i + 1;
      }
      return false;
    }

    /** resolve_mount: the best mount for a path and the path below it. */
    method ResolveMount(p: string) returns (best: Option<nat>, rel: string)
      requires Valid()
      ensures best.None? ==> forall i :: 0 <= i < |Abs()| ==> !Matches(Abs()[i], p)
      ensures best.Some? ==> Best(Abs(), p, best.value) && rel == Relative(Abs()[best.value], p)
    {
      best := None;
      var bestLen := -1;
      for i := 0 to count
        invariant best.None? ==> bestLen == -1 && forall k :: 0 <= k < i ==> !Matches(mounts[k], p)
        invariant best.Some? ==> best.value < i && Best(mounts[..i], p, best.value)
        invariant best.Some? ==> bestLen == |mounts[best.value].path|
      {
        var m := mounts[i];
        var hit := TestMount(m, p);
        if hit && |m.path| > bestLen {
          best, bestLen := Some(i), |m.path|;
        }
        assert forall k :: 0 <= k < i ==> mounts[..i + 1][k] == mounts[k];
      }
      rel := "";
      if best.Some? {
        var m := mounts[best.value];
        rel := if m.path == "/" then p else if |p| == |m.path| then "/" else p[|m.path|..];
      }
    }

    static method TestMount(m: Mount, p: string) returns (hit: bool)
      ensures hit <==> Matches(m, p)
    {
      if !m.active {
        return false;
      }
      if |m.path| == 1 && m.path[0] == '/' {
        assert m.path == "/";
        return true;
      }
      if |p| >= |m.path| {
        var same := SameStart(p, m.path, |m.path|);
        assert m.path[..|m.path|] == m.path;
        return same && (|p| == |m.path| || p[|m.path|] == '/');
      }
      return false;
    }
  }
}
