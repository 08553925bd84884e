/** The service namespace of sageos_build/kernel/core/ipc.c: a tree of dotted names kept in a fixed pool of
    entries, with child and sibling links.  Entry 0 is the root, and also the first entry handed out. */
module Namespace {
  import opened Bytes

  const ENTRIES := 256
  const NAME_LEN := 64

  datatype Entry = Entry(name: string, handle: nat, owner: nat, child: Option<nat>, sibling: Option<nat>)

  const ZERO := Entry("", 0, 0, None, None)

  datatype Space = Space(pool: seq<Entry>, rooted: bool, count: nat)

  // ---------------------------------------------------------------- tokens

  function SkipDots(s: string, i: nat): (r: nat)
    requires i <= |s|
    ensures i <= r <= |s| && (r < |s| ==> s[r] != '.')
    decreases |s| - i
  {
    if i < |s| && s[i] == '.' then SkipDots(s, i + 1) else i
  }

  function TokenEnd(s: string, i: nat): (r: nat)
    requires i <= |s|
    ensures i <= r <= |s| && (i < |s| && s[i] != '.' ==> i < r)
    decreases |s| - i
  {
    if i < |s| && s[i] != '.' then TokenEnd(s, i + 1) else i
  }

  /** What repeated strtok(…, ".") yields from position i on. */
  function Tokens(s: string, i: nat): (r: seq<string>)
    requires i <= |s|
    decreases |s| - i
  {
    var a := SkipDots(s, i);
    if a == |s| then []
    else
      var e := TokenEnd(s, a);
      [s[a..e]] + Tokens(s, if e < |s| then e + 1 else e)
  }

  /** The name as it is copied into the fixed buffer. */
  function Buffer(name: string): (r: string)
  {
    if |name| < NAME_LEN then name else name[..NAME_LEN - 1]
  }

  function Path(name: string): seq<string> { Tokens(Buffer(name), 0) }

  // ---------------------------------------------------------------- the shape of the pool

  /** Sibling links go to smaller entries, child links to entries in use. */
  ghost predicate Shape(ns: Space)
  {
    && |ns.pool| == ENTRIES && ns.count <= ENTRIES
    && (forall i :: 0 <= i < ENTRIES && ns.pool[i].sibling.Some? ==> ns.pool[i].sibling.value < i)
    && (forall i :: 0 <= i < ENTRIES && ns.pool[i].child.Some? ==> ns.pool[i].child.value < ns.count)
  }

  ghost predicate Down(pool: seq<Entry>, n: nat)
  {
    n <= |pool| && forall i :: 0 <= i < n && pool[i].sibling.Some? ==> pool[i].sibling.value < i
  }

  /** The search loop: the first entry named tok from c on along the siblings. */
  ghost function Among(pool: seq<Entry>, c: Option<nat>, tok: string): (r: Option<nat>)
    requires Down(pool, |pool|) && (c.Some? ==> c.value < |pool|)
    ensures r.Some? ==> c.Some? && r.value <= c.value && pool[r.value].name == tok
    decreases if c.Some? then c.value + 1 else 0
  {
    if c.None? then None
    else if pool[c.value].name == tok then c
    else Among(pool, pool[c.value].sibling, tok)
  }

  /** No entry has the name of a later sibling. */
  ghost predicate Distinct(ns: Space)
    requires Shape(ns)
  {
    forall i :: 0 <= i < ns.count ==> Among(ns.pool, ns.pool[i].sibling, ns.pool[i].name) == None
  }

  ghost predicate Inv(ns: Space)
  {
    Shape(ns) && Distinct(ns) && (ns.count > 0 ==> ns.rooted)
  }

  /** The root, or an entry in use. */
  ghost predicate InTree(ns: Space, cur: nat) { cur < ENTRIES && (cur == 0 || cur < ns.count) }

  ghost function Look(ns: Space, cur: nat, tok: string): (r: Option<nat>)
    requires Shape(ns) && cur < ENTRIES
    ensures r.Some? ==> r.value < ns.count && ns.pool[r.value].name == tok
  {
    Among(ns.pool, ns.pool[cur].child, tok)
  }

  // ---------------------------------------------------------------- operations

  ghost function FindFrom(ns: Space, cur: nat, toks: seq<string>): (r: Option<nat>)
    requires Shape(ns) && InTree(ns, cur)
    ensures r.Some? ==> InTree(ns, r.value)
    decreases |toks|
  {
    if toks == [] then Some(cur)
    else match Look(ns, cur, toks[0])
         case None => None
         case Some(c) => FindFrom(ns, c, toks[1..])
  }

  /** ipc_ns_find */
  ghost function Find(ns: Space, name: string): (r: Option<nat>)
    requires Shape(ns)
    ensures r.Some? ==> InTree(ns, r.value)
  {
    if !ns.rooted then None else FindFrom(ns, 0, Path(name))
  }

  /** Take the next entry of the pool and put it in front of the children of cur; the entry is cleared
      first, which matters when it is cur itself. */
  ghost function AddChild(ns: Space, cur: nat, tok: string): (r: Space)
    requires |ns.pool| == ENTRIES && ns.count < ENTRIES && cur < ENTRIES
    ensures |r.pool| == ENTRIES && r.count == ns.count + 1
  {
    var k := ns.count;
    var cleared := ns.pool[k := ZERO.(name := tok)];
    var linked := cleared[k := cleared[k].(sibling := cleared[cur].child)];
    Space(linked[cur := linked[cur].(child := Some(k))], ns.rooted, k + 1)
  }

  /** The loop of ipc_ns_insert from node cur on: the tree it leaves, and the node reached unless the pool
      ran out. */
  ghost function Walk(ns: Space, cur: nat, toks: seq<string>): (r: (Space, Option<nat>))
    requires Inv(ns) && ns.rooted && InTree(ns, cur)
    ensures Inv(r.0) && r.0.rooted && r.0.count >= ns.count && (r.1.Some? ==> InTree(r.0, r.1.value))
    decreases |toks|
  {
    if toks == [] then (ns, Some(cur))
    else match Look(ns, cur, toks[0])
         case Some(c) => Walk(ns, c, toks[1..])
         case None =>
           if ns.count >= ENTRIES then (ns, None)
           else
             AddChildInv(ns, cur, toks[0]);
             Walk(AddChild(ns, cur, toks[0]), ns.count, toks[1..])
  }

  ghost function Rooted(ns: Space): (r: Space)
    requires |ns.pool| == ENTRIES
  {
    if ns.rooted then ns else ns.(pool := ns.pool[0 := ZERO], rooted := true)
  }

  ghost function SetHandle(ns: Space, n: nat, handle: nat, owner: nat): (r: Space)
    requires n < |ns.pool|
  {
    ns.(pool := ns.pool[n := ns.pool[n].(handle := handle, owner := owner)])
  }

  /** ipc_ns_insert */
  ghost function Insert(ns: Space, name: string, handle: nat, owner: nat): (r: (Space, bool))
    requires Inv(ns)
    ensures Shape(r.0)
  {
    RootedInv(ns);
    var (after, node) := Walk(Rooted(ns), 0, Path(name));
    match node
    case None => (after, false)
    case Some(n) => SetHandleShape(after, n, handle, owner); (SetHandle(after, n, handle, owner), true)
  }

  // ---------------------------------------------------------------- what links and names depend on

  /** Searching depends only on the names and sibling links of the entries it can reach. */
  lemma {:induction false} AmongFrame(p: seq<Entry>, q: seq<Entry>, n: nat, c: Option<nat>, tok: string)
    requires Down(p, |p|) && Down(q, |q|) && |p| == |q| && n <= |p|
    requires forall i :: 0 <= i < n ==> p[i].name == q[i].name && p[i].sibling == q[i].sibling
    requires c.Some? ==> c.value < n
    ensures Among(p, c, tok) == Among(q, c, tok)
    decreases if c.Some? then c.value + 1 else 0
  {
    if c.Some? && p[c.value].name != tok {
      AmongFrame(p, q, n, p[c.value].sibling, tok);
    }
  }

  lemma SetHandleShape(ns: Space, n: nat, handle: nat, owner: nat)
    requires Shape(ns) && n < ENTRIES
    ensures Shape(SetHandle(ns, n, handle, owner))
  {
  }

  lemma SetHandleLook(ns: Space, n: nat, handle: nat, owner: nat, cur: nat, tok: string)
    requires Shape(ns) && n < ENTRIES && cur < ENTRIES
    ensures Shape(SetHandle(ns, n, handle, owner))
    ensures Look(SetHandle(ns, n, handle, owner), cur, tok) == Look(ns, cur, tok)
  {
    SetHandleShape(ns, n, handle, owner);
    AmongFrame(ns.pool, SetHandle(ns, n, handle, owner).pool, ENTRIES, ns.pool[cur].child, tok);
  }

  lemma SetHandleInv(ns: Space, n: nat, handle: nat, owner: nat)
    requires Inv(ns) && n < ENTRIES
    ensures Inv(SetHandle(ns, n, handle, owner))
  {
    SetHandleShape(ns, n, handle, owner);
    var q := SetHandle(ns, n, handle, owner).pool;
    forall i | 0 <= i < ns.count ensures Among(q, q[i].sibling, q[i].name) == None {
      AmongFrame(ns.pool, q, ENTRIES, ns.pool[i].sibling, ns.pool[i].name);
    }
  }

  lemma RootedInv(ns: Space)
    requires Inv(ns)
    ensures Inv(Rooted(ns))
  {
  }

  lemma AddChildShape(ns: Space, cur: nat, tok: string)
    requires Shape(ns) && ns.count < ENTRIES && InTree(ns, cur)
    ensures Shape(AddChild(ns, cur, tok))
    ensures forall i :: 0 <= i < ns.count ==>
      var e := AddChild(ns, cur, tok).pool[i]; e.name == ns.pool[i].name && e.sibling == ns.pool[i].sibling
    ensures AddChild(ns, cur, tok).pool[ns.count].name == tok
    ensures AddChild(ns, cur, tok).pool[ns.count].sibling == ns.pool[cur].child
  {
    assert ns.count == 0 ==> ns.pool[cur].child == None;
  }

  /** A name that was not among the children can be added. */
  lemma AddChildInv(ns: Space, cur: nat, tok: string)
    requires Inv(ns) && ns.count < ENTRIES && InTree(ns, cur) && ns.rooted && Look(ns, cur, tok) == None
    ensures Inv(AddChild(ns, cur, tok)) && AddChild(ns, cur, tok).rooted
  {
    AddChildShape(ns, cur, tok);
    var p, q := ns.pool, AddChild(ns, cur, tok).pool;
    forall i | 0 <= i < ns.count + 1 ensures Among(q, q[i].sibling, q[i].name) == None {
      if i < ns.count {
        AmongFrame(p, q, ns.count, p[i].sibling, p[i].name);
      } else {
        AmongFrame(p, q, ns.count, p[cur].child, tok);
      }
    }
  }

  /** Adding a child finds the new name, and changes no search that succeeded before. */
  lemma AddChildLook(ns: Space, cur: nat, tok: string, x: nat, t: string)
    requires Inv(ns) && ns.count < ENTRIES && InTree(ns, cur) && ns.rooted && Look(ns, cur, tok) == None
    requires InTree(ns, x)
    ensures Shape(AddChild(ns, cur, tok)) && Look(AddChild(ns, cur, tok), cur, tok) == Some(ns.count)
    ensures Look(ns, x, t).Some? ==> Look(AddChild(ns, cur, tok), x, t) == Look(ns, x, t)
  {
    AddChildShape(ns, cur, tok);
    var p, q := ns.pool, AddChild(ns, cur, tok).pool;
    if Look(ns, x, t).Some? {
      AmongFrame(p, q, ns.count, p[x].child, t);
      if x == cur {
        AmongFrame(p, q, ns.count, p[cur].child, t);
      }
    }
  }

  /** A walk changes no search that succeeded before. */
  lemma {:induction false} WalkKeepsLook(ns: Space, cur: nat, toks: seq<string>, x: nat, t: string)
    requires Inv(ns) && ns.rooted && InTree(ns, cur) && InTree(ns, x) && Look(ns, x, t).Some?
    ensures Look(Walk(ns, cur, toks).0, x, t) == Look(ns, x, t)
    decreases |toks|
  {
    if toks != [] {
      var c := Look(ns, cur, toks[0]);
      if c.Some? {
        WalkKeepsLook(ns, c.value, toks[1..], x, t);
      } else if ns.count < ENTRIES {
        AddChildInv(ns, cur, toks[0]);
        AddChildLook(ns, cur, toks[0], x, t);
        WalkKeepsLook(AddChild(ns, cur, toks[0]), ns.count, toks[1..], x, t);
      }
    }
  }

  lemma {:induction false} WalkKeepsFind(ns: Space, cur: nat, toks: seq<string>, x: nat, path: seq<string>)
    requires Inv(ns) && ns.rooted && InTree(ns, cur) && InTree(ns, x) && FindFrom(ns, x, path).Some?
    ensures FindFrom(Walk(ns, cur, toks).0, x, path) == FindFrom(ns, x, path)
    decreases |path|
  {
    if path != [] {
      WalkKeepsLook(ns, cur, toks, x, path[0]);
      WalkKeepsFind(ns, cur, toks, Look(ns, x, path[0]).value, path[1..]);
    }
  }

  /** The path of a walk that reached a node leads to that node in the tree it leaves. */
  lemma {:induction false} WalkIsFound(ns: Space, cur: nat, toks: seq<string>)
    requires Inv(ns) && ns.rooted && InTree(ns, cur) && Walk(ns, cur, toks).1.Some?
    ensures FindFrom(Walk(ns, cur, toks).0, cur, toks) == Walk(ns, cur, toks).1
    decreases |toks|
  {
    if toks != [] {
      var c := Look(ns, cur, toks[0]);
      if c.Some? {
        WalkIsFound(ns, c.value, toks[1..]);
        WalkKeepsLook(ns, c.value, toks[1..], cur, toks[0]);
      } else {
        AddChildInv(ns, cur, toks[0]);
        AddChildLook(ns, cur, toks[0], cur, toks[0]);
        var next := AddChild(ns, cur, toks[0]);
        WalkIsFound(next, ns.count, toks[1..]);
        WalkKeepsLook(next, ns.count, toks[1..], cur, toks[0]);
      }
    }
  }

  lemma {:induction false} SetHandleFind(ns: Space, n: nat, handle: nat, owner: nat, x: nat, path: seq<string>)
    requires Shape(ns) && n < ENTRIES && InTree(ns, x)
    ensures Shape(SetHandle(ns, n, handle, owner))
    ensures FindFrom(SetHandle(ns, n, handle, owner), x, path) == FindFrom(ns, x, path)
    decreases |path|
  {
    SetHandleShape(ns, n, handle, owner);
    if path != [] {
      SetHandleLook(ns, n, handle, owner, x, path[0]);
      var c := Look(ns, x, path[0]);
      if c.Some? {
        SetHandleFind(ns, n, handle, owner, c.value, path[1..]);
      }
    }
  }

  // ---------------------------------------------------------------- main results

  /** Inserting keeps the tree sound, and a name that was inserted is found, holding what was registered. */
  lemma InsertThenFind(ns: Space, name: string, handle: nat, owner: nat)
    requires Inv(ns)
    ensures var (after, ok) := Insert(ns, name, handle, owner);
      && Inv(after)
      && (ok ==> Find(after, name).Some?)
      && (ok ==> after.pool[Find(after, name).value].handle == handle)
      && (ok ==> after.pool[Find(after, name).value].owner == owner)
  {
    RootedInv(ns);
    var (walked, node) := Walk(Rooted(ns), 0, Path(name));
    if node.Some? {
      WalkIsFound(Rooted(ns), 0, Path(name));
      SetHandleInv(walked, node.value, handle, owner);
      SetHandleFind(walked, node.value, handle, owner, 0, Path(name));
    }
  }

  /** Inserting a name leaves every other name leading where it led. */
  lemma InsertKeepsPlaces(ns: Space, name: string, handle: nat, owner: nat, other: string)
    requires Inv(ns) && Find(ns, other).Some?
    ensures Find(Insert(ns, name, handle, owner).0, other) == Find(ns, other)
  {
    var (walked, node) := Walk(ns, 0, Path(name));
    WalkKeepsFind(ns, 0, Path(name), 0, Path(other));
    if node.Some? {
      SetHandleFind(walked, node.value, handle, owner, 0, Path(other));
    }
  }

  /** What an entry holds for the names that lead to it. */
  datatype Held = Held(handle: nat, owner: nat)

  ghost function HeldAt(ns: Space, e: nat): (h: Held)
    requires e < |ns.pool|
  {
    Held(ns.pool[e].handle, ns.pool[e].owner)
  }

  /** The insertion clears the root's entry: it makes the root, or it takes its first entry from the pool. */
  ghost predicate TakesRoot(ns: Space, name: string) { ns.count == 0 && (Path(name) != [] || !ns.rooted) }

  /** What every entry of the tree holds after an insertion: the registration, if the name leads to it;
      nothing, if it is the root's entry and was taken; and otherwise what it held. */
  lemma InsertHolds(ns: Space, name: string, handle: nat, owner: nat, e: nat)
    requires Inv(ns) && InTree(ns, e)
    ensures var (after, ok) := Insert(ns, name, handle, owner);
      HeldAt(after, e) ==
        if ok && Find(after, name) == Some(e) then Held(handle, owner)
        else if e == 0 && TakesRoot(ns, name) then Held(0, 0)
        else HeldAt(ns, e)
  {
    var start := Rooted(ns);
    RootedInv(ns);
    WalkHolds(start, 0, Path(name), e);
    var (walked, node) := Walk(start, 0, Path(name));
    if node.Some? {
      WalkIsFound(start, 0, Path(name));
      SetHandleFind(walked, node.value, handle, owner, 0, Path(name));
    }
  }

  /** Hence another name keeps what it holds exactly when it does not lead to the root's entry, or the
      insertion does not clear it, or there was nothing to lose. */
  lemma OthersKeepTheirs(ns: Space, name: string, handle: nat, owner: nat, other: string)
    requires Inv(ns) && Find(ns, other).Some?
    requires Find(Insert(ns, name, handle, owner).0, name) != Find(ns, other)
    ensures var e := Find(ns, other).value;
      (HeldAt(Insert(ns, name, handle, owner).0, e) == HeldAt(ns, e)) ==
      (!(e == 0 && TakesRoot(ns, name)) || HeldAt(ns, e) == Held(0, 0))
  {
    InsertHolds(ns, name, handle, owner, Find(ns, other).value);
  }

  /** A walk clears the root's entry if it takes it, and no other. */
  lemma WalkHolds(ns: Space, cur: nat, toks: seq<string>, e: nat)
    requires Inv(ns) && ns.rooted && InTree(ns, cur) && InTree(ns, e)
    ensures HeldAt(Walk(ns, cur, toks).0, e)
      == if e == 0 && ns.count == 0 && toks != [] then Held(0, 0) else HeldAt(ns, e)
  {
    if e < ns.count {
      WalkKeepsHandles(ns, cur, toks, e);
    } else if toks != [] {
      assert ns.count == 0 && cur == 0 && Look(ns, 0, toks[0]) == None;
      AddChildInv(ns, 0, toks[0]);
      WalkKeepsHandles(AddChild(ns, 0, toks[0]), 0, toks[1..], 0);
    }
  }

  lemma {:induction false} WalkKeepsHandles(ns: Space, cur: nat, toks: seq<string>, e: nat)
    requires Inv(ns) && ns.rooted && InTree(ns, cur) && e < ns.count
    ensures Walk(ns, cur, toks).0.pool[e].handle == ns.pool[e].handle
    ensures Walk(ns, cur, toks).0.pool[e].owner == ns.pool[e].owner
    decreases |toks|
  {
    if toks != [] {
      var c := Look(ns, cur, toks[0]);
      if c.Some? {
        WalkKeepsHandles(ns, c.value, toks[1..], e);
      } else if ns.count < ENTRIES {
        AddChildInv(ns, cur, toks[0]);
        WalkKeepsHandles(AddChild(ns, cur, toks[0]), ns.count, toks[1..], e);
      }
    }
  }

  ghost function Empty(): (ns: Space) { Space(seq(ENTRIES, _ => ZERO), false, 0) }

  datatype Registration = Registration(name: string, handle: nat, owner: nat)

  ghost function InsertAll(ns: Space, rs: seq<Registration>): (r: Space)
    requires Inv(ns)
    ensures Inv(r)
    decreases |rs|
  {
    if rs == [] then ns
    else
      InsertThenFind(ns, rs[0].name, rs[0].handle, rs[0].owner);
      InsertAll(Insert(ns, rs[0].name, rs[0].handle, rs[0].owner).0, rs[1..])
  }

  /** From the empty namespace, every run of registrations, those that failed for lack of entries included,
      leaves a sound tree in which the next registered name is found. */
  lemma EveryRunIsSound(rs: seq<Registration>, next: Registration)
    ensures Inv(Empty())
    ensures var ns := InsertAll(Empty(), rs);
      var (after, ok) := Insert(ns, next.name, next.handle, next.owner);
      && Inv(ns) && Inv(after)
      && (ok ==> Find(after, next.name).Some? && after.pool[Find(after, next.name).value].handle == next.handle)
  {
    InsertThenFind(InsertAll(Empty(), rs), next.name, next.handle, next.owner);
  }

  /** A registration under the empty name, and then one under a one-part name: the second takes the entry of
      the first, and the empty name leads to what the second registered. */
  lemma RootRegistrationLost(tok: string, h0: nat, o0: nat, handle: nat, owner: nat)
    requires IsToken(tok)
    ensures Inv(Empty()) && Inv(Insert(Empty(), "", h0, o0).0)
    ensures var ns := Insert(Empty(), "", h0, o0).0;
      var after := Insert(ns, tok, handle, owner).0;
      && Find(ns, "") == Some(0) && HeldAt(ns, 0) == Held(h0, o0)
      && Find(after, "") == Some(0) && Find(after, tok) == Some(0) && HeldAt(after, 0) == Held(handle, owner)
  {
    InsertThenFind(Empty(), "", h0, o0);
    var ns := Insert(Empty(), "", h0, o0).0;
    assert Path("") == [];
    assert ns.rooted && ns.count == 0;
    FirstTokenAtRoot(ns, tok, handle, owner);
    InsertKeepsPlaces(ns, tok, handle, owner, "");
  }

  lemma FirstTokenAtRoot(ns: Space, tok: string, handle: nat, owner: nat)
    requires Inv(ns) && ns.rooted && ns.count == 0 && IsToken(tok)
    ensures Find(Insert(ns, tok, handle, owner).0, tok) == Some(0)
    ensures HeldAt(Insert(ns, tok, handle, owner).0, 0) == Held(handle, owner)
  {
    PathOfToken(tok);
    AddChildInv(ns, 0, tok);
    assert [tok][1..] == [];
    assert Walk(ns, 0, [tok]) == (AddChild(ns, 0, tok), Some(0));
    InsertThenFind(ns, tok, handle, owner);
    WalkIsFound(ns, 0, [tok]);
    SetHandleFind(AddChild(ns, 0, tok), 0, handle, owner, 0, [tok]);
  }

  predicate IsToken(tok: string) { 0 < |tok| < NAME_LEN && forall k :: 0 <= k < |tok| ==> tok[k] != '.' }

  lemma {:induction false} TokenToEnd(s: string, i: nat)
    requires i <= |s| && forall k :: i <= k < |s| ==> s[k] != '.'
    ensures TokenEnd(s, i) == |s|
    decreases |s| - i
  {
    if i < |s| {
      TokenToEnd(s, i + 1);
    }
  }

  lemma PathOfToken(tok: string)
    requires IsToken(tok)
    ensures Path(tok) == [tok]
  {
    TokenToEnd(tok, 0);
    assert SkipDots(tok, 0) == 0;
    assert tok[0..|tok|] == tok;
    assert Tokens(tok, |tok|) == [];
  }

  predicate AllTokens(toks: seq<string>) { forall k :: 0 <= k < |toks| ==> toks[k] != "" && '.' !in toks[k] }

  lemma {:induction false} EndOfToken(s: string, i: nat, e: nat)
    requires i <= e <= |s| && (forall k :: i <= k < e ==> s[k] != '.') && (e < |s| ==> s[e] == '.')
    ensures TokenEnd(s, i) == e
    decreases e - i
  {
    if i < e {
      EndOfToken(s, i + 1, e);
    }
  }

  /** A token at position i, with the end or a dot behind it, is the first token from there on. */
  lemma FirstToken(s: string, i: nat, tok: string)
    requires tok != "" && '.' !in tok && i + |tok| <= |s| && s[i..i + |tok|] == tok
    requires i + |tok| < |s| ==> s[i + |tok|] == '.'
    ensures Tokens(s, i) == [tok] + Tokens(s, if i + |tok| < |s| then i + |tok| + 1 else |s|)
  {
    assert forall k :: 0 <= k < |tok| ==> tok[k] == s[i + k];
    EndOfToken(s, i, i + |tok|);
  }

  /** From position i on, s is these tokens with a dot between each two. */
  ghost predicate Spelt(s: string, i: nat, toks: seq<string>)
    decreases |toks|
  {
    if toks == [] then i == |s|
    else
      var e := i + |toks[0]|;
      && e <= |s| && s[i..e] == toks[0]
      && (if |toks| == 1 then e == |s| else e < |s| && s[e] == '.' && Spelt(s, e + 1, toks[1..]))
  }

  lemma {:induction false} TokensSpelt(s: string, i: nat, toks: seq<string>)
    requires i <= |s| && AllTokens(toks) && Spelt(s, i, toks)
    ensures Tokens(s, i) == toks
    decreases |toks|
  {
    if toks != [] {
      FirstToken(s, i, toks[0]);
      TokensSpelt(s, if |toks| == 1 then |s| else i + |toks[0]| + 1, toks[1..]);
      assert toks == [toks[0]] + toks[1..];
    }
  }

  /** A dotted name of fewer than 64 characters leads along its tokens, and a longer one along those of its first
      63 characters. */
  lemma PathSpelt(name: string, toks: seq<string>)
    requires AllTokens(toks)
    ensures |name| < 64 && Spelt(name, 0, toks) ==> Path(name) == toks
    ensures |name| >= 64 && Spelt(name[..63], 0, toks) ==> Path(name) == toks
  {
    var s := if |name| < 64 then name else name[..63];
    if Spelt(s, 0, toks) {
      TokensSpelt(s, 0, toks);
    }
  }

  // ---------------------------------------------------------------- when a registration finds room

  /** Nothing is registered at first. */
  lemma EmptyFindsNothing(name: string)
    ensures Find(Empty(), name) == None
  {
  }

  /** How many tokens of the path are left where it first leads to no entry. */
  ghost function Missing(ns: Space, cur: nat, toks: seq<string>): (n: nat)
    requires Shape(ns) && InTree(ns, cur)
    decreases |toks|
  {
    if toks == [] then 0
    else match Look(ns, cur, toks[0])
         case None => |toks|
         case Some(c) => Missing(ns, c, toks[1..])
  }

  /** A new entry has no children, so all that is left of the path is missing there. */
  lemma NewHasNone(ns: Space, cur: nat, tok: string, toks: seq<string>)
    requires Inv(ns) && ns.rooted && 0 < ns.count < ENTRIES && InTree(ns, cur) && Look(ns, cur, tok) == None
    ensures Inv(AddChild(ns, cur, tok)) && Missing(AddChild(ns, cur, tok), ns.count, toks) == |toks|
  {
    AddChildInv(ns, cur, tok);
    assert AddChild(ns, cur, tok).pool[ns.count].child == None;
  }

  lemma {:induction false} WalkFindsRoom(ns: Space, cur: nat, toks: seq<string>)
    requires Inv(ns) && ns.rooted && ns.count > 0 && InTree(ns, cur)
    ensures Walk(ns, cur, toks).1.Some? <==> ns.count + Missing(ns, cur, toks) <= 256
    decreases |toks|
  {
    if toks != [] {
      match Look(ns, cur, toks[0])
      case Some(c) => WalkFindsRoom(ns, c, toks[1..]);
      case None =>
        if ns.count < ENTRIES {
          NewHasNone(ns, cur, toks[0], toks[1..]);
          WalkFindsRoom(AddChild(ns, cur, toks[0]), ns.count, toks[1..]);
        }
    }
  }

  /** A registration in a tree with entries succeeds exactly when the tokens that are missing there still fit in the
      256 entries. */
  lemma InsertSucceedsExactly(ns: Space, name: string, handle: nat, owner: nat)
    requires Inv(ns) && ns.count > 0
    ensures Insert(ns, name, handle, owner).1 <==> ns.count + Missing(ns, 0, Path(name)) <= 256
  {
    WalkFindsRoom(ns, 0, Path(name));
  }

  lemma {:induction false} WalkTakesFew(ns: Space, cur: nat, toks: seq<string>)
    requires Inv(ns) && ns.rooted && InTree(ns, cur) && ns.count + |toks| <= 256
    ensures Walk(ns, cur, toks).1.Some?
    decreases |toks|
  {
    if toks != [] {
      match Look(ns, cur, toks[0])
      case Some(c) => WalkTakesFew(ns, c, toks[1..]);
      case None =>
        AddChildInv(ns, cur, toks[0]);
        WalkTakesFew(AddChild(ns, cur, toks[0]), ns.count, toks[1..]);
    }
  }

  lemma {:induction false} TokensAreFew(s: string, i: nat)
    requires i <= |s|
    ensures |Tokens(s, i)| <= |s| - i
    decreases |s| - i
  {
    var a := SkipDots(s, i);
    if a < |s| {
      var e := TokenEnd(s, a);
      TokensAreFew(s, if e < |s| then e + 1 else e);
    }
  }

  /** The first registration always succeeds. */
  lemma FirstInsertSucceeds(ns: Space, name: string, handle: nat, owner: nat)
    requires Inv(ns) && ns.count == 0
    ensures Insert(ns, name, handle, owner).1
  {
    RootedInv(ns);
    TokensAreFew(Buffer(name), 0);
    WalkTakesFew(Rooted(ns), 0, Path(name));
  }
}
