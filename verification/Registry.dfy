/** ipc_ns_find and ipc_ns_insert of sageos_build/kernel/core/ipc.c over the pool of entries that they change
    in place, with the strtok they use. */
module Registry {
  import opened Bytes
  import opened Namespace

  /** strtok(…, "."): the next token from position i, and where the one after it is looked for. */
  method NextToken(s: string, i: nat) returns (tok: Option<string>, next: nat)
    requires i <= |s|
    ensures i <= next <= |s|
    ensures tok.None? ==> Tokens(s, i) == []
    ensures tok.Some? ==> i < next && Tokens(s, i) == [tok.value] + Tokens(s, next)
  {
    var start := i;
    while start < |s| && s[start] == '.'
      invariant i <= start <= |s| && SkipDots(s, start) == SkipDots(s, i)
    {
      start := start + 1;
    }
    if start == |s| {
      return None, start;
    }
    var end := start;
    while end < |s| && s[end] != '.'
      invariant start <= end <= |s| && TokenEnd(s, end) == TokenEnd(s, start)
    {
      end := end + 1;
    }
    tok := Some(s[start..end]);
    next := if end < |s| then end + 1 else end;
  }

  class Registry {
    const pool: array<Entry>
    var rooted: bool
    var count: nat

    ghost predicate Valid()
      reads this, pool
    {
      Inv(Space(pool[..], rooted, count))
    }

    ghost function Abs(): (ns: Space)
      reads this, pool
    {
      Space(pool[..], rooted, count)
    }

    /** ipc_subsystem_init */
    constructor ()
      ensures Valid() && fresh(pool) && Abs() == Empty()
    {
      pool := new Entry[ENTRIES](_ => ZERO);
      rooted, count := false, 0;
      new;
      assert pool[..] == Empty().pool;
    }

    /** The inner search loop of both operations. */
    method FindChild(cur: nat, tok: string) returns (r: Option<nat>)
      requires Valid() && cur < ENTRIES
      ensures r == Look(Abs(), cur, tok)
    {
      var child: Option<nat> := pool[cur].child;
      while child.Some?
        invariant child.Some? ==> child.value < ENTRIES
        invariant Among(pool[..], child, tok) == Look(Abs(), cur, tok)
        decreases if child.Some? then child.value + 1 else 0
      {
        if pool[child.value].name == tok {
          return child;
        }
        child := pool[child.value].sibling;
      }
      return None;
    }

    method FindName(name: string) returns (r: Option<nat>)
      requires Valid()
      ensures r == Find(Abs(), name)
    {
      if !rooted {
        return None;
      }
      var buf := if |name| < NAME_LEN then name else name[..NAME_LEN - 1];
      var cur: nat := 0;
      var token, i := NextToken(buf, 0);
      while token.Some?
        invariant InTree(Abs(), cur) && i <= |buf|
        invariant FindFrom(Abs(), cur, if token.Some? then [token.value] + Tokens(buf, i) else []) == Find(Abs(), name)
        decreases |buf| - i, if token.Some? then 1 else 0
      {
        ghost var rest := Tokens(buf, i);
        assert ([token.value] + rest)[1..] == rest;
        var child := FindChild(cur, token.value);
        if child.None? {
          return None;
        }
        cur := child.value;
        token, i := NextToken(buf, i);
      }
      return Some(cur);
    }

    /** Take the next pool entry as the first child of cur. */
    method NewChild(cur: nat, tok: string)
      requires Valid() && rooted && InTree(Abs(), cur) && count < ENTRIES && Look(Abs(), cur, tok) == None
      modifies this, pool
      ensures Valid() && Abs() == AddChild(old(Abs()), cur, tok)
    {
      AddChildInv(Abs(), cur, tok);
      var k := count;
      count := count + 1;
      pool[k] := ZERO;
      pool[k] := pool[k].(name := tok);
      pool[k] := pool[k].(sibling := pool[cur].child);
      pool[cur] := pool[cur].(child := Some(k));
      assert pool[..] == AddChild(old(Abs()), cur, tok).pool;
    }

    /** The token loop of ipc_ns_insert; None when the pool runs out. */
    method WalkTokens(buf: string) returns (node: Option<nat>)
      requires Valid() && rooted
      modifies this, pool
      ensures Valid() && (Abs(), node) == Walk(old(Abs()), 0, Tokens(buf, 0))
    {
      ghost var goal := Walk(Abs(), 0, Tokens(buf, 0));
      var cur: nat := 0;
      var token, i := NextToken(buf, 0);
      while token.Some?
        invariant Valid() && rooted && InTree(Abs(), cur) && i <= |buf|
        invariant Walk(Abs(), cur, if token.Some? then [token.value] + Tokens(buf, i) else []) == goal
        decreases |buf| - i, if token.Some? then 1 else 0
      {
        ghost var rest := Tokens(buf, i);
        assert ([token.value] + rest)[1..] == rest;
        var child := FindChild(cur, token.value);
        if child.Some? {
          cur := child.value;
        } else {
          if count >= ENTRIES {
            return None;
          }
          NewChild(cur, token.value);
          cur := count - 1;
        }
        assert Walk(Abs(), cur, rest) == goal;
        token, i := NextToken(buf, i);
      }
      return Some(cur);
    }

    method InsertName(name: string, handle: nat, owner: nat) returns (ok: bool)
      requires Valid()
      modifies this, pool
      ensures Valid() && (Abs(), ok) == Insert(old(Abs()), name, handle, owner)
    {
      InsertThenFind(Abs(), name, handle, owner);
      RootedInv(Abs());
      if !rooted {
        rooted := true;
        pool[0] := ZERO;
      }
      assert Abs() == Rooted(old(Abs()));
      var buf := if |name| < NAME_LEN then name else name[..NAME_LEN - 1];
      var node := WalkTokens(buf);
      if node.None? {
        return false;
      }
      ghost var walked := Abs();
      pool[node.value] := pool[node.value].(handle := handle);
      pool[node.value] := pool[node.value].(owner := owner);
      assert Abs() == SetHandle(walked, node.value, handle, owner);
      return true;
    }
  }
}
