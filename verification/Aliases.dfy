/** Which names lead to the same entry of the namespace of sageos_build/kernel/core/ipc.c. The first token ever
    registered takes the root's own entry and so becomes the root's child and the root at once. */
module Aliases {
  import opened Bytes
  import opened Namespace

  // ---------------------------------------------------------------- children have one parent

  /** Entry e stands in the list of siblings that starts at c. */
  ghost predicate Listed(pool: seq<Entry>, c: Option<nat>, e: nat)
    requires Down(pool, |pool|) && (c.Some? ==> c.value < |pool|)
    decreases if c.Some? then c.value + 1 else 0
  {
    c.Some? && (c.value == e || Listed(pool, pool[c.value].sibling, e))
  }

  lemma {:induction false} AmongListed(pool: seq<Entry>, c: Option<nat>, tok: string)
    requires Down(pool, |pool|) && (c.Some? ==> c.value < |pool|) && Among(pool, c, tok).Some?
    ensures Listed(pool, c, Among(pool, c, tok).value)
    decreases if c.Some? then c.value + 1 else 0
  {
    if pool[c.value].name != tok {
      AmongListed(pool, pool[c.value].sibling, tok);
    }
  }

  lemma {:induction false} ListedBelow(pool: seq<Entry>, c: Option<nat>, e: nat)
    requires Down(pool, |pool|) && (c.Some? ==> c.value < |pool|) && Listed(pool, c, e)
    ensures c.Some? && e <= c.value
    decreases if c.Some? then c.value + 1 else 0
  {
    if c.value != e {
      ListedBelow(pool, pool[c.value].sibling, e);
    }
  }

  lemma {:induction false} ListedFrame(p: seq<Entry>, q: seq<Entry>, n: nat, c: Option<nat>, e: nat)
    requires Down(p, |p|) && Down(q, |q|) && |p| == |q| && n <= |p| && (c.Some? ==> c.value < n)
    requires forall i :: 0 <= i < n ==> p[i].sibling == q[i].sibling
    ensures Listed(p, c, e) <==> Listed(q, c, e)
    decreases if c.Some? then c.value + 1 else 0
  {
    if c.Some? && c.value != e {
      ListedFrame(p, q, n, p[c.value].sibling, e);
    }
  }

  /** e is a child of x. */
  ghost predicate Child(ns: Space, x: nat, e: nat)
    requires Shape(ns) && x < ENTRIES
  {
    Listed(ns.pool, ns.pool[x].child, e)
  }

  ghost predicate OneParent(ns: Space)
    requires Shape(ns)
  {
    forall x, y, e :: InTree(ns, x) && InTree(ns, y) && Child(ns, x, e) && Child(ns, y, e) ==> x == y
  }

  /** Once an entry was taken, the root is a child of itself. */
  ghost predicate Looped(ns: Space)
    requires Shape(ns)
  {
    ns.count > 0 ==> Look(ns, 0, ns.pool[0].name) == Some(0)
  }

  ghost predicate Tree(ns: Space) { Inv(ns) && OneParent(ns) && Looped(ns) }

  lemma LookIsChild(ns: Space, x: nat, tok: string)
    requires Shape(ns) && x < ENTRIES && Look(ns, x, tok).Some?
    ensures Child(ns, x, Look(ns, x, tok).value)
  {
    AmongListed(ns.pool, ns.pool[x].child, tok);
  }

  /** What the children of x are after a child is added to cur. */
  lemma AddChildChildren(ns: Space, cur: nat, tok: string, x: nat, e: nat)
    requires Inv(ns) && ns.rooted && ns.count < ENTRIES && InTree(ns, cur) && Look(ns, cur, tok) == None
    requires InTree(AddChild(ns, cur, tok), x) && Shape(AddChild(ns, cur, tok))
    ensures Child(AddChild(ns, cur, tok), x, e) <==>
      (x == cur && e == ns.count) || (InTree(ns, x) && Child(ns, x, e))
  {
    AddChildShape(ns, cur, tok);
    var p, q, k := ns.pool, AddChild(ns, cur, tok).pool, ns.count;
    if x == cur {
      assert q[x].child == Some(k) && q[k].sibling == p[cur].child;
      ListedFrame(p, q, k, p[cur].child, e);
    } else if x < k {
      assert q[x].child == p[x].child;
      ListedFrame(p, q, k, p[x].child, e);
    } else {
      assert x == k && q[k].child == None;
    }
  }

  lemma NewIsNoChild(ns: Space, x: nat)
    requires Shape(ns) && x < ENTRIES
    ensures !Child(ns, x, ns.count)
  {
    if Child(ns, x, ns.count) {
      ListedBelow(ns.pool, ns.pool[x].child, ns.count);
    }
  }

  lemma AddChildOneParent(ns: Space, cur: nat, tok: string)
    requires Tree(ns) && ns.rooted && ns.count < ENTRIES && InTree(ns, cur) && Look(ns, cur, tok) == None
    ensures Inv(AddChild(ns, cur, tok)) && OneParent(AddChild(ns, cur, tok))
  {
    AddChildInv(ns, cur, tok);
    var after := AddChild(ns, cur, tok);
    forall x, y, e | InTree(after, x) && InTree(after, y) && Child(after, x, e) && Child(after, y, e) ensures x == y {
      AddChildChildren(ns, cur, tok, x, e);
      AddChildChildren(ns, cur, tok, y, e);
      if e == ns.count {
        NewIsNoChild(ns, x);
        NewIsNoChild(ns, y);
      }
    }
  }

  lemma AddChildTree(ns: Space, cur: nat, tok: string)
    requires Tree(ns) && ns.rooted && ns.count < ENTRIES && InTree(ns, cur) && Look(ns, cur, tok) == None
    ensures Tree(AddChild(ns, cur, tok)) && AddChild(ns, cur, tok).rooted
  {
    AddChildInv(ns, cur, tok);
    AddChildOneParent(ns, cur, tok);
    AddChildShape(ns, cur, tok);
    AddChildLook(ns, cur, tok, 0, ns.pool[0].name);
  }

  lemma {:induction false} WalkTree(ns: Space, cur: nat, toks: seq<string>)
    requires Tree(ns) && ns.rooted && InTree(ns, cur)
    ensures Tree(Walk(ns, cur, toks).0)
    decreases |toks|
  {
    if toks != [] {
      var c := Look(ns, cur, toks[0]);
      if c.Some? {
        WalkTree(ns, c.value, toks[1..]);
      } else if ns.count < ENTRIES {
        AddChildTree(ns, cur, toks[0]);
        WalkTree(AddChild(ns, cur, toks[0]), ns.count, toks[1..]);
      }
    }
  }

  lemma SetHandleTree(ns: Space, n: nat, handle: nat, owner: nat)
    requires Tree(ns) && n < ENTRIES
    ensures Tree(SetHandle(ns, n, handle, owner))
  {
    SetHandleInv(ns, n, handle, owner);
    var after := SetHandle(ns, n, handle, owner);
    forall x: nat, e: nat | InTree(ns, x) ensures Child(after, x, e) <==> Child(ns, x, e) {
      ListedFrame(ns.pool, after.pool, ENTRIES, ns.pool[x].child, e);
    }
    SetHandleLook(ns, n, handle, owner, 0, ns.pool[0].name);
  }

  lemma RootedTree(ns: Space)
    requires Tree(ns)
    ensures Tree(Rooted(ns))
  {
    RootedInv(ns);
  }

  lemma InsertTree(ns: Space, name: string, handle: nat, owner: nat)
    requires Tree(ns)
    ensures Tree(Insert(ns, name, handle, owner).0)
  {
    RootedTree(ns);
    WalkTree(Rooted(ns), 0, Path(name));
    var (walked, node) := Walk(Rooted(ns), 0, Path(name));
    if node.Some? {
      SetHandleTree(walked, node.value, handle, owner);
    }
  }

  lemma {:induction false} RunTree(ns: Space, rs: seq<Registration>)
    requires Tree(ns)
    ensures Tree(InsertAll(ns, rs))
    decreases |rs|
  {
    if rs != [] {
      InsertTree(ns, rs[0].name, rs[0].handle, rs[0].owner);
      RunTree(Insert(ns, rs[0].name, rs[0].handle, rs[0].owner).0, rs[1..]);
    }
  }

  lemma EmptyTree()
    ensures Tree(Empty())
  {
  }

  // ---------------------------------------------------------------- names of one entry

  /** The path without the tokens at its front that are the root's own name. */
  function Strip(first: string, path: seq<string>): (r: seq<string>)
    ensures r == [] || r[0] != first
  {
    if path != [] && path[0] == first then Strip(first, path[1..]) else path
  }

  lemma {:induction false} StripFind(ns: Space, path: seq<string>)
    requires Tree(ns) && ns.count > 0
    ensures FindFrom(ns, 0, path) == FindFrom(ns, 0, Strip(ns.pool[0].name, path))
    decreases |path|
  {
    if path != [] && path[0] == ns.pool[0].name {
      StripFind(ns, path[1..]);
    }
  }

  /** The last step of a search. */
  lemma {:induction false} FindLast(ns: Space, x: nat, path: seq<string>) returns (y: nat)
    requires Shape(ns) && InTree(ns, x) && path != [] && FindFrom(ns, x, path).Some?
    ensures InTree(ns, y) && FindFrom(ns, x, path[..|path| - 1]) == Some(y)
    ensures Look(ns, y, path[|path| - 1]) == FindFrom(ns, x, path)
    decreases |path|
  {
    var n := |path| - 1;
    if n == 0 {
      y := x;
      assert path[1..] == [] && path[..0] == [];
    } else {
      var c := Look(ns, x, path[0]).value;
      y := FindLast(ns, c, path[1..]);
      assert path[1..][..n - 1] == path[..n][1..] && path[..n][0] == path[0];
    }
  }

  /** A path that leads to the root is made of the root's own name. */
  lemma {:induction false} RootPath(ns: Space, path: seq<string>)
    requires Tree(ns) && ns.count > 0 && FindFrom(ns, 0, path) == Some(0) && path != []
    ensures path[0] == ns.pool[0].name
    decreases |path|
  {
    var y := FindLast(ns, 0, path);
    LookIsChild(ns, y, path[|path| - 1]);
    LookIsChild(ns, 0, ns.pool[0].name);
    if |path| > 1 {
      RootPath(ns, path[..|path| - 1]);
    }
  }

  /** Paths that lead to one entry come from one entry, by one token. */
  lemma OneStep(ns: Space, a: seq<string>, b: seq<string>)
    requires Tree(ns) && FindFrom(ns, 0, a).Some? && FindFrom(ns, 0, a) == FindFrom(ns, 0, b) && a != [] && b != []
    ensures FindFrom(ns, 0, a[..|a| - 1]).Some? && FindFrom(ns, 0, a[..|a| - 1]) == FindFrom(ns, 0, b[..|b| - 1])
    ensures a[|a| - 1] == b[|b| - 1]
  {
    var x := FindLast(ns, 0, a);
    var y := FindLast(ns, 0, b);
    LookIsChild(ns, x, a[|a| - 1]);
    LookIsChild(ns, y, b[|b| - 1]);
  }

  /** Two stripped paths that lead to one entry are one path. */
  lemma {:induction false} OnePath(ns: Space, a: seq<string>, b: seq<string>)
    requires Tree(ns) && ns.count > 0 && FindFrom(ns, 0, a).Some? && FindFrom(ns, 0, a) == FindFrom(ns, 0, b)
    requires (a == [] || a[0] != ns.pool[0].name) && (b == [] || b[0] != ns.pool[0].name)
    ensures a == b
    decreases |a|
  {
    if a == [] {
      if b != [] {
        RootPath(ns, b);
      }
    } else if b == [] {
      RootPath(ns, a);
    } else {
      var m, n := |a| - 1, |b| - 1;
      OneStep(ns, a, b);
      OnePath(ns, a[..m], b[..n]);
      assert a == a[..m] + [a[m]] && b == b[..n] + [b[n]];
    }
  }

  /** After every run of registrations two names that are found lead to one entry exactly when they differ only by
      tokens at their front that are the first token ever registered. */
  lemma SameEntryExactly(rs: seq<Registration>, a: string, b: string)
    requires Find(InsertAll(Empty(), rs), a).Some? && Find(InsertAll(Empty(), rs), b).Some?
    ensures var ns := InsertAll(Empty(), rs);
      ns.count > 0 ==>
        (Find(ns, a) == Find(ns, b)
         <==> Strip(ns.pool[0].name, Path(a)) == Strip(ns.pool[0].name, Path(b)))
  {
    var ns := InsertAll(Empty(), rs);
    EmptyTree();
    RunTree(Empty(), rs);
    if ns.count > 0 {
      StripFind(ns, Path(a));
      StripFind(ns, Path(b));
      if Find(ns, a) == Find(ns, b) {
        OnePath(ns, Strip(ns.pool[0].name, Path(a)), Strip(ns.pool[0].name, Path(b)));
      }
    }
  }
}
