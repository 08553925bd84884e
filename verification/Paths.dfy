/** Lexical paths: vfs_normalize_path of sageos_build/kernel/fs/vfs.c and what it computes. */
module Paths {
  import opened Bytes

  // ---------------------------------------------------------------- components

  /** The length of the run of characters before the first slash. */
  function Run(s: string): (n: nat)
    ensures n <= |s|
    ensures forall k :: 0 <= k < n ==> s[k] != '/'
    ensures n < |s| ==> s[n] == '/'
  {
    if s == [] || s[0] == '/' then 0 else 1 + Run(s[1..])
  }

  /** The non-empty parts of a path between its slashes. */
  function Components(s: string): (cs: seq<string>)
    decreases |s|
  {
    if s == [] then []
    else if s[0] == '/' then Components(s[1..])
    else [s[..Run(s)]] + Components(s[Run(s)..])
  }

  predicate Proper(c: string)
  {
    c != "" && c != "." && c != ".." && forall k :: 0 <= k < |c| ==> c[k] != '/'
  }

  predicate AllProper(cs: seq<string>) { forall k :: 0 <= k < |cs| ==> Proper(cs[k]) }

  /** Each component behind a slash. */
  function Join(cs: seq<string>): (s: string)
  {
    if cs == [] then "" else Join(cs[..|cs| - 1]) + "/" + cs[|cs| - 1]
  }

  function Render(cs: seq<string>): (s: string) { if cs == [] then "/" else Join(cs) }

  lemma {:induction false} RunConcat(a: string, b: string)
    requires a != [] && a[0] != '/' && (b == [] || b[0] == '/')
    ensures Run(a + b) == Run(a)
    decreases |a|
  {
    assert (a + b)[1..] == a[1..] + b;
    if |a| > 1 && a[1] != '/' {
      RunConcat(a[1..], b);
    } else if |a| == 1 {
      assert a[1..] + b == b;
    }
  }

  /** Components of a path followed by nothing or by a slash and more. */
  lemma {:induction false} ComponentsConcat(a: string, b: string)
    requires b == [] || b[0] == '/'
    ensures Components(a + b) == Components(a) + Components(b)
    decreases |a|
  {
    if a == [] {
      assert a + b == b;
    } else if a[0] == '/' {
      assert (a + b)[1..] == a[1..] + b;
      ComponentsConcat(a[1..], b);
    } else {
      RunConcat(a, b);
      var n := Run(a);
      assert (a + b)[..n] == a[..n] && (a + b)[n..] == a[n..] + b;
      ComponentsConcat(a[n..], b);
    }
  }

  lemma {:induction false} RunOfProper(c: string)
    requires forall k :: 0 <= k < |c| ==> c[k] != '/'
    ensures Run(c) == |c|
  {
    if c != [] {
      RunOfProper(c[1..]);
    }
  }

  lemma ComponentsOfOne(c: string)
    requires Proper(c)
    ensures Components("/" + c) == [c]
  {
    assert ("/" + c)[1..] == c;
    assert Components("/" + c) == Components(c);
    RunOfProper(c);
    assert c[..|c|] == c && c[|c|..] == [];
    assert Components(c) == [c] + Components(c[|c|..]);
  }

  /** Joining proper components and taking them apart again gives them back. */
  lemma {:induction false} ComponentsOfJoin(cs: seq<string>)
    requires AllProper(cs)
    ensures Components(Join(cs)) == cs
  {
    if cs != [] {
      var n := |cs| - 1;
      ComponentsOfJoin(cs[..n]);
      assert Join(cs) == Join(cs[..n]) + ("/" + cs[n]);
      ComponentsConcat(Join(cs[..n]), "/" + cs[n]);
      ComponentsOfOne(cs[n]);
    }
  }

  lemma ComponentsOfRender(cs: seq<string>)
    requires AllProper(cs)
    ensures Components(Render(cs)) == cs
  {
    ComponentsOfJoin(cs);
  }

  lemma {:induction false} ComponentsClean(s: string)
    ensures forall k :: 0 <= k < |Components(s)| ==> Components(s)[k] != "" && '/' !in Components(s)[k]
    decreases |s|
  {
    if s != [] {
      ComponentsClean(if s[0] == '/' then s[1..] else s[Run(s)..]);
    }
  }

  // ---------------------------------------------------------------- the stack meaning

  const DEPTH := 32

  /** One component on the stack: "." does nothing, ".." goes up, a name goes down while there is room. */
  function Push(stack: seq<string>, c: string): (r: seq<string>)
  {
    if c == "." then stack
    else if c == ".." then (if stack == [] then [] else stack[..|stack| - 1])
    else if |stack| < DEPTH then stack + [c]
    else stack
  }

  function Walk(stack: seq<string>, cs: seq<string>): (r: seq<string>)
    decreases |cs|
  {
    if cs == [] then stack else Walk(Push(stack, cs[0]), cs[1..])
  }

  /** The place a path names. */
  function Place(path: string): (r: seq<string>) { Walk([], Components(path)) }

  /** The walk never has to drop a name for lack of room. */
  predicate Shallow(stack: seq<string>, cs: seq<string>)
    decreases |cs|
  {
    cs == [] || ((cs[0] in {".", ".."} || |stack| < DEPTH) && Shallow(Push(stack, cs[0]), cs[1..]))
  }

  lemma {:induction false} WalkConcat(stack: seq<string>, a: seq<string>, b: seq<string>)
    ensures Walk(stack, a + b) == Walk(Walk(stack, a), b)
    decreases |a|
  {
    if a == [] {
      assert a + b == b;
    } else {
      assert (a + b)[0] == a[0] && (a + b)[1..] == a[1..] + b;
      WalkConcat(Push(stack, a[0]), a[1..], b);
    }
  }

  predicate Clean(cs: seq<string>)
  {
    forall k :: 0 <= k < |cs| ==> cs[k] != "" && forall j :: 0 <= j < |cs[k]| ==> cs[k][j] != '/'
  }

  lemma {:induction false} WalkProper(stack: seq<string>, cs: seq<string>)
    requires AllProper(stack) && |stack| <= DEPTH && Clean(cs)
    ensures AllProper(Walk(stack, cs)) && |Walk(stack, cs)| <= DEPTH
    decreases |cs|
  {
    if cs != [] {
      assert Clean(cs[1..]) && cs[0] != "" && forall j :: 0 <= j < |cs[0]| ==> cs[0][j] != '/';
      WalkProper(Push(stack, cs[0]), cs[1..]);
    }
  }

  /** Every place is a list of at most 32 proper names. */
  lemma PlaceProper(path: string)
    ensures AllProper(Place(path)) && |Place(path)| <= DEPTH
  {
    ComponentsClean(path);
    WalkProper([], Components(path));
  }

  /** Walking proper names from a place with room for them just appends them. */
  lemma {:induction false} WalkNames(stack: seq<string>, cs: seq<string>)
    requires AllProper(cs) && |stack| + |cs| <= DEPTH
    ensures Walk(stack, cs) == stack + cs
    decreases |cs|
  {
    if cs != [] {
      assert Proper(cs[0]);
      WalkNames(stack + [cs[0]], cs[1..]);
      assert stack + [cs[0]] + cs[1..] == stack + cs;
    }
  }

  /** The path that names the same place in normal form. */
  function Normal(path: string): (r: string) { Render(Place(path)) }

  lemma PlaceOfNormal(path: string)
    ensures Place(Normal(path)) == Place(path)
  {
    PlaceProper(path);
    ComponentsOfRender(Place(path));
    WalkNames([], Place(path));
    assert [] + Place(path) == Place(path);
  }

  /** Normalising twice is normalising once. */
  lemma NormalIdempotent(path: string)
    ensures Normal(Normal(path)) == Normal(path)
  {
    PlaceOfNormal(path);
  }

  /** A path may be normalised before another is appended to it. */
  lemma NormalCompositional(p: string, q: string)
    ensures Normal(p + "/" + q) == Normal(Normal(p) + "/" + q)
  {
    PlaceOfConcat(p, q);
    PlaceOfConcat(Normal(p), q);
    PlaceOfNormal(p);
  }

  lemma PlaceOfConcat(p: string, q: string)
    ensures Place(p + "/" + q) == Walk(Place(p), Components(q))
  {
    assert p + "/" + q == p + ("/" + q);
    ComponentsConcat(p, "/" + q);
    assert ("/" + q)[1..] == q;
    WalkConcat([], Components(p), Components(q));
  }

  // ---------------------------------------------------------------- unlimited depth

  lemma ComponentsOfName(c: string)
    requires c != "" && '/' !in c
    ensures Components(c) == [c]
  {
    RunOfProper(c);
    assert c[..|c|] == c && c[|c|..] == "";
  }

  /** A name goes down while there is room, "." stays, ".." goes up, and the root is above itself. */
  lemma PlaceLaws(p: string, c: string)
    ensures Place("") == [] && Place("/") == []
    ensures Place(p + "/" + ".") == Place(p)
    ensures Place(p) == [] ==> Place(p + "/" + "..") == []
    ensures Place(p) != [] ==> Place(p + "/" + "..") == Place(p)[..|Place(p)| - 1]
    ensures Proper(c) && |Place(p)| < 32 ==> Place(p + "/" + c) == Place(p) + [c]
    ensures Proper(c) && |Place(p)| >= 32 ==> Place(p + "/" + c) == Place(p)
  {
    assert Components("/") == Components("/"[1..]);
    PlaceOfConcat(p, ".");
    PlaceOfConcat(p, "..");
    ComponentsOfName(".");
    ComponentsOfName("..");
    if Proper(c) {
      PlaceOfConcat(p, c);
      ComponentsOfName(c);
    }
  }

  /** The stack meaning with no limit on depth. */
  function FreePush(stack: seq<string>, c: string): (r: seq<string>)
  {
    if c == "." then stack
    else if c == ".." then (if stack == [] then [] else stack[..|stack| - 1])
    else stack + [c]
  }

  function FreeWalk(stack: seq<string>, cs: seq<string>): (r: seq<string>)
    decreases |cs|
  {
    if cs == [] then stack else FreeWalk(FreePush(stack, cs[0]), cs[1..])
  }

  /** The live depth stays within 32 exactly when it does without the limit, at every point of the walk. */
  lemma {:induction false} ShallowExactly(stack: seq<string>, cs: seq<string>)
    requires |stack| <= 32
    ensures Shallow(stack, cs) <==> forall k :: 0 <= k <= |cs| ==> |FreeWalk(stack, cs[..k])| <= 32
    decreases |cs|
  {
    if cs != [] {
      var next, rest := FreePush(stack, cs[0]), cs[1..];
      forall k | 1 <= k <= |cs| ensures FreeWalk(stack, cs[..k]) == FreeWalk(next, rest[..k - 1]) {
        assert cs[..k][0] == cs[0] && cs[..k][1..] == rest[..k - 1];
      }
      if |next| <= 32 {
        ShallowExactly(next, rest);
        assert Shallow(stack, cs) <==> Shallow(next, rest);
        if forall k :: 0 <= k <= |cs| ==> |FreeWalk(stack, cs[..k])| <= 32 {
          forall k | 0 <= k <= |rest| ensures |FreeWalk(next, rest[..k])| <= 32 {
            assert FreeWalk(stack, cs[..k + 1]) == FreeWalk(next, rest[..k + 1 - 1]);
          }
        }
      } else {
        assert FreeWalk(stack, cs[..1]) == FreeWalk(next, rest[..0]) == next;
      }
    }
  }

  /** A path whose live depth stays within 32 names the place it would name without the limit. */
  lemma {:induction false} ShallowIsFree(stack: seq<string>, cs: seq<string>)
    requires Shallow(stack, cs)
    ensures Walk(stack, cs) == FreeWalk(stack, cs)
    decreases |cs|
  {
    if cs != [] {
      ShallowIsFree(Push(stack, cs[0]), cs[1..]);
    }
  }

  // ---------------------------------------------------------------- vfs_normalize_path

  /** The first n characters of s, or all of them. */
  function Cut(s: string, n: nat): (r: string) { if |s| <= n then s else s[..n] }

  lemma CutAppend(s: string, t: string, n: nat)
    ensures Cut(Cut(s, n) + t, n) == Cut(s + t, n)
  {
    if |s| > n {
      assert (s[..n] + t)[..n] == s[..n];
    }
  }

  /** The component loop: fills parts[0 .. nparts] from position i of the input on. */
  method Collect(input: string, parts: array<string>) returns (nparts: nat)
    requires parts.Length == DEPTH
    modifies parts
    ensures nparts <= DEPTH && parts[..nparts] == Place(input)
  {
    var p := 0;
    nparts := 0;
    assert input[0..] == input && parts[..0] == [];
    while p < |input|
      invariant p <= |input| && nparts <= DEPTH
      invariant Walk(parts[..nparts], Components(input[p..])) == Place(input)
      decreases |input| - p
    {
      if input[p] == '/' {
        assert input[p..][1..] == input[p + 1..];
        p := p + 1;
      } else {
        p, nparts := CollectOne(input, p, parts, nparts);
      }
    }
  }

  /** The end of the component at start. */
  method ComponentEnd(input: string, start: nat) returns (p: nat)
    requires start < |input| && input[start] != '/'
    ensures start < p <= |input| && p - start == Run(input[start..])
  {
    ghost var s := input[start..];
    p := start;
    while p < |input| && input[p] != '/'
      invariant start <= p <= |input| && p - start <= Run(s)
    {
      assert s[p - start] == input[p];
      p := p + 1;
    }
    assert p < |input| ==> s[p - start] == input[p];
  }

  lemma FirstComponent(s: string, c: string, rest: string)
    requires s != "" && s[0] != '/' && c == s[..Run(s)] && rest == s[Run(s)..]
    ensures Components(s) == [c] + Components(rest)
  {
  }

  /** One component: find its end and handle ".", ".." and names. */
  method CollectOne(input: string, start: nat, parts: array<string>, n: nat) returns (p: nat, nparts: nat)
    requires parts.Length == DEPTH && n <= DEPTH && start < |input| && input[start] != '/'
    modifies parts
    ensures start < p <= |input| && nparts <= DEPTH
    ensures Walk(parts[..nparts], Components(input[p..])) == Walk(old(parts[..n]), Components(input[start..]))
  {
    ghost var s, stack := input[start..], parts[..n];
    p := ComponentEnd(input, start);
    var c := input[start..p];
    assert c == s[..Run(s)] && input[p..] == s[Run(s)..];
    FirstComponent(s, c, input[p..]);
    ghost var rest := Components(input[p..]);
    assert ([c] + rest)[1..] == rest;
    nparts := n;
    if |c| == 1 && c[0] == '.' {
      assert c == ".";
    } else if |c| == 2 && c[0] == '.' && c[1] == '.' {
      assert c == "..";
      if nparts > 0 {
        nparts := nparts - 1;
        assert parts[..nparts] == stack[..|stack| - 1];
      }
    } else if nparts < DEPTH {
      parts[nparts] := c;
      nparts := nparts + 1;
      assert parts[..nparts] == stack + [c];
    }
    assert parts[..nparts] == Push(stack, c);
  }

  /** One slash and one component, as far as they fit. */
  method AppendPart(before: string, part: string, size: nat) returns (out: string)
    requires size >= 1 && |before| <= size - 1
    ensures out == Cut(before + "/" + part, size - 1)
  {
    out := before;
    if |out| < size - 1 {
      out := out + "/";
    }
    var j := 0;
    while j < |part| && |out| < size - 1
      invariant j <= |part|
      invariant out == Cut(before + "/" + part[..j], size - 1)
    {
      out := out + [part[j]];
      j := j + 1;
    }
  }

  /** The rebuild loop, which stops copying when the output is full. */
  method Rebuild(parts: seq<string>, size: nat) returns (out: string)
    requires size >= 1
    ensures out == Cut(Join(parts), size - 1)
  {
    out := "";
    for i := 0 to |parts|
      invariant out == Cut(Join(parts[..i]), size - 1)
    {
      CutAppend(Join(parts[..i]), "/" + parts[i], size - 1);
      assert out + "/" + parts[i] == out + ("/" + parts[i]);
      assert parts[..i + 1][..i] == parts[..i];
      assert Join(parts[..i]) + ("/" + parts[i]) == Join(parts[..i + 1]);
      out := AppendPart(out, parts[i], size);
    }
    assert parts[..|parts|] == parts;
  }

  /** vfs_normalize_path into a buffer of `size` bytes: the normal form, cut to what fits. None stands for a
  buffer left as it was, which happens to the root directory without room for it. */
  method Normalize(input: string, size: nat) returns (out: Option<string>, length: nat)
    requires size >= 1 || Place(input) == []
    ensures out.None? <==> Place(input) == [] && size < 2
    ensures out.None? ==> length == 1
    ensures out.Some? ==> out.value == Cut(Normal(input), size - 1) && length == |out.value|
  {
    var parts := new string[DEPTH](_ => "");
    var nparts := Collect(input, parts);
    if nparts == 0 {
      return if size >= 2 then Some("/") else None, 1;
    }
    var s := Rebuild(parts[..nparts], size);
    return Some(s), |s|;
  }
}
