/** Building the initial process stack: the in-place stores of elf_exec in sageos_build/kernel/fs/elf.c. */
module ElfStack {
  import opened Bytes
  import opened Argv

  const STACK_SIZE := 65536

  // ---------------------------------------------------------------- splicing

  /** Memory m with the bytes s stored from index at. */
  function Spliced(m: seq<Byte>, at: nat, s: seq<Byte>): (r: seq<Byte>)
    requires at + |s| <= |m|
    ensures |r| == |m|
    decreases |s|
  {
    if s == [] then m else Spliced(m[at := s[0]], at + 1, s[1..])
  }

  lemma {:induction false} SplicedSlices(m: seq<Byte>, at: nat, s: seq<Byte>)
    requires at + |s| <= |m|
    ensures Spliced(m, at, s) == m[..at] + s + m[at + |s|..]
    decreases |s|
  {
    if s != [] {
      SplicedSlices(m[at := s[0]], at + 1, s[1..]);
    }
  }

  lemma SplicedHas(m: seq<Byte>, at: nat, s: seq<Byte>)
    requires at + |s| <= |m|
    ensures Has(Spliced(m, at, s), at, s)
  {
    SplicedSlices(m, at, s);
    HasSlice(Spliced(m, at, s), at, s);
  }

  lemma SplicedKeeps(m: seq<Byte>, at: nat, s: seq<Byte>, k: nat, t: seq<Byte>)
    requires at + |s| <= |m| && Has(m, k, t) && (k + |t| <= at || at + |s| <= k)
    ensures Has(Spliced(m, at, s), k, t)
  {
    SplicedSlices(m, at, s);
    HasSlice(m, k, t);
    HasSlice(Spliced(m, at, s), k, t);
    assert Spliced(m, at, s)[k..k + |t|] == m[k..k + |t|];
  }

  /** Splicing t just below s is splicing both at once. */
  lemma SplicedBelow(m: seq<Byte>, at: nat, t: seq<Byte>, s: seq<Byte>)
    requires at + |t| + |s| <= |m|
    ensures Spliced(Spliced(m, at + |t|, s), at, t) == Spliced(m, at, t + s)
  {
    SplicedSlices(m, at + |t|, s);
    SplicedSlices(Spliced(m, at + |t|, s), at, t);
    SplicedSlices(m, at, t + s);
  }

  lemma SplicedAbove(m: seq<Byte>, at: nat, t: seq<Byte>, s: seq<Byte>)
    requires at + |t| + |s| <= |m|
    ensures Spliced(Spliced(m, at, t), at + |t|, s) == Spliced(m, at, t + s)
  {
    SplicedSlices(m, at, t);
    SplicedSlices(Spliced(m, at, t), at + |t|, s);
    SplicedSlices(m, at, t + s);
  }

  lemma {:induction false} BlobSuffix(ss: seq<Text>, i: nat)
    requires i <= |ss|
    ensures |Blob(ss[i..])| <= |Blob(ss)|
    decreases i
  {
    if i == 0 {
      assert ss[0..] == ss;
    } else {
      BlobSuffix(ss[1..], i - 1);
      assert ss[1..][i - 1..] == ss[i..];
    }
  }

  /** The suffix from i puts string i in front of the suffix from i + 1. */
  lemma BlobStep(ss: seq<Text>, i: nat)
    requires i < |ss|
    ensures Blob(ss[i..]) == ss[i] + [0] + Blob(ss[i + 1..]) && |Blob(ss[i..])| <= |Blob(ss)|
  {
    BlobSuffix(ss, i);
    assert ss[i..][0] == ss[i] && ss[i..][1..] == ss[i + 1..];
  }

  lemma PointersStep(ss: seq<Text>, i: nat, at: nat)
    requires i < |ss| && at + |Blob(ss[i..])| < WORD
    ensures at + |ss[i]| + 1 + |Blob(ss[i + 1..])| < WORD
    ensures Pointers(ss[i..], at) == [at] + Pointers(ss[i + 1..], at + |ss[i]| + 1)
  {
    BlobStep(ss, i);
    assert ss[i..][0] == ss[i] && ss[i..][1..] == ss[i + 1..];
  }

  lemma {:induction false} PackedSnoc(ws: seq<Word>, w: Word)
    ensures Packed(ws + [w]) == Packed(ws) + Low(w, 8)
  {
    if ws == [] {
      assert ws + [w] == [w];
    } else {
      assert (ws + [w])[1..] == ws[1..] + [w];
      PackedSnoc(ws[1..], w);
      Assoc(Low(ws[0], 8), Packed(ws[1..]), Low(w, 8));
    }
  }

  // ---------------------------------------------------------------- stores

  method StoreBytes(stack: array<Byte>, at: nat, s: seq<Byte>)
    requires at + |s| <= stack.Length
    modifies stack
    ensures stack[..] == Spliced(old(stack[..]), at, s)
  {
    var j := 0;
    ghost var goal := Spliced(stack[..], at, s);
    assert s[0..] == s;
    while j < |s|
      invariant j <= |s| && Spliced(stack[..], at + j, s[j..]) == goal
    {
      assert s[j..][1..] == s[j + 1..];
      ghost var m := stack[..];
      stack[at + j] := s[j];
      assert stack[..] == m[at + j := s[j]];
      j := j + 1;
    }
  }

  /** The strings from i on are stored below top, the lowest at sp, and their addresses recorded. */
  ghost predicate Pushed(base: nat, m0: seq<Byte>, top: nat, ss: seq<Text>,
                         i: nat, sp: nat, m: seq<Byte>, ps: seq<Word>)
  {
    && i <= |ss| && |ps| == |ss| + 1 && top <= |m0| && base + |m0| < WORD
    && |Blob(ss[i..])| <= |Blob(ss)| <= top && sp == top - |Blob(ss[i..])|
    && m == Spliced(m0, sp, Blob(ss[i..]))
    && ps[i..|ss|] + [0] == Pointers(ss[i..], base + sp)
  }

  lemma PointersPushed(ss: seq<Text>, i: nat, at: Word, ps: seq<Word>)
    requires i < |ss| && |ps| == |ss| + 1 && at + |ss[i]| + 1 + |Blob(ss[i + 1..])| < WORD
    requires ps[i + 1..|ss|] + [0] == Pointers(ss[i + 1..], at + |ss[i]| + 1)
    ensures at + |Blob(ss[i..])| < WORD
    ensures ps[i := at][i..|ss|] + [0] == Pointers(ss[i..], at)
  {
    BlobStep(ss, i);
    PointersStep(ss, i, at);
    assert ps[i := at][i..|ss|] == [at] + ps[i + 1..|ss|];
  }

  lemma StoredStep(m: seq<Byte>, low: nat, ss: seq<Text>, i: nat)
    requires i < |ss| && low + |ss[i]| + 1 + |Blob(ss[i + 1..])| <= |m|
    ensures low + |Blob(ss[i..])| <= |m|
    ensures Spliced(Spliced(m, low + |ss[i]| + 1, Blob(ss[i + 1..])), low, ss[i] + [0])
      == Spliced(m, low, Blob(ss[i..]))
  {
    BlobStep(ss, i);
    SplicedBelow(m, low, ss[i] + [0], Blob(ss[i + 1..]));
  }

  lemma PushedStep(base: nat, m0: seq<Byte>, top: nat, ss: seq<Text>,
                   i: nat, sp: nat, m: seq<Byte>, ps: seq<Word>, low: nat, p: Word)
    requires i < |ss| && Pushed(base, m0, top, ss, i + 1, sp, m, ps)
    requires sp == low + |ss[i]| + 1 && p == base + low
    ensures sp <= |m| && Pushed(base, m0, top, ss, i, low, Spliced(m, low, ss[i] + [0]), ps[i := p])
  {
    BlobStep(ss, i);
    PointersPushed(ss, i, p, ps);
    StoredStep(m0, low, ss, i);
  }

  lemma PushedRoom(base: nat, m0: seq<Byte>, top: nat, ss: seq<Text>, i: nat, sp: nat, m: seq<Byte>, ps: seq<Word>)
    requires i < |ss| && Pushed(base, m0, top, ss, i + 1, sp, m, ps)
    ensures |ss[i]| + 1 <= sp <= |m|
  {
    BlobStep(ss, i);
  }

  /** Copies the strings downwards from top, last one first, and records their addresses. */
  method PushStrings(base: nat, stack: array<Byte>, top: nat, ss: seq<Text>, ptrs: array<Word>) returns (sp: nat)
    requires |Blob(ss)| <= top <= stack.Length && base + stack.Length < WORD && ptrs.Length == |ss| + 1
    modifies stack, ptrs
    ensures sp == top - |Blob(ss)|
    ensures stack[..] == Spliced(old(stack[..]), sp, Blob(ss))
    ensures ptrs[..] == Pointers(ss, base + sp)
  {
    sp := top;
    var i := |ss|;
    ghost var m := stack[..];
    while i > 0
      invariant 0 <= i <= |ss| && Pushed(base, m, top, ss, i, sp, stack[..], ptrs[..])
    {
      i := i - 1;
      ghost var ps := ptrs[..];
      PushedRoom(base, m, top, ss, i, sp, stack[..], ps);
      ghost var above := sp;
      sp := sp - (|ss[i]| + 1);
      var p: Word := base + sp;
      PushedStep(base, m, top, ss, i, above, stack[..], ps, sp, p);
      StoreBytes(stack, sp, ss[i] + [0]);
      ptrs[i] := p;
      assert ptrs[..] == ps[i := p];
    }
    ptrs[|ss|] := 0;
    assert ss[0..] == ss;
    assert ptrs[..] == ptrs[0..|ss|] + [0];
  }

  lemma WordsStep(m: seq<Byte>, at: nat, ws: seq<Word>, i: nat)
    requires i < |ws| && at + 8 * |ws| <= |m|
    ensures |Packed(ws[..i])| == 8 * i
    ensures Spliced(m, at, Packed(ws[..i + 1])) == Spliced(Spliced(m, at, Packed(ws[..i])), at + 8 * i, Low(ws[i], 8))
  {
    PackedSnoc(ws[..i], ws[i]);
    assert ws[..i + 1] == ws[..i] + [ws[i]];
    SplicedAbove(m, at, Packed(ws[..i]), Low(ws[i], 8));
  }

  method StoreWords(stack: array<Byte>, at: nat, ptrs: array<Word>)
    requires at + 8 * ptrs.Length <= stack.Length
    modifies stack
    ensures stack[..] == Spliced(old(stack[..]), at, Packed(ptrs[..]))
  {
    var i := 0;
    ghost var m, ws := stack[..], ptrs[..];
    while i < ptrs.Length
      invariant i <= ptrs.Length && ptrs[..] == ws
      invariant stack[..] == Spliced(m, at, Packed(ptrs[..i]))
    {
      WordsStep(m, at, ws, i);
      assert ws[..i] == ptrs[..i] && ws[..i + 1] == ptrs[..i + 1];
      StoreBytes(stack, at + 8 * i, Low(ptrs[i], 8));
      i := i + 1;
    }
    assert ptrs[..ptrs.Length] == ptrs[..];
  }

  // ---------------------------------------------------------------- the frame

  /** Strings stored one below the other both stand. */
  lemma BothStored(m: seq<Byte>, at: nat, a: seq<Byte>, b: seq<Byte>)
    requires at + |a| + |b| <= |m|
    ensures var r := Spliced(Spliced(m, at + |a|, b), at, a);
      Has(r, at, a) && Has(r, at + |a|, b)
  {
    SplicedBelow(m, at, a, b);
    SplicedHas(m, at, a + b);
    HasParts(Spliced(m, at, a + b), at, a, b);
  }

  method CopyStrings(base: nat, stack: array<Byte>, argv: seq<Text>, envp: seq<Text>,
                     argvPtrs: array<Word>, envpPtrs: array<Word>) returns (at: nat)
    requires |Blob(argv)| + |Blob(envp)| <= stack.Length && base + stack.Length < WORD
    requires argvPtrs.Length == |argv| + 1 && envpPtrs.Length == |envp| + 1 && argvPtrs != envpPtrs
    modifies stack, argvPtrs, envpPtrs
    ensures at + |Blob(argv)| + |Blob(envp)| == stack.Length
    ensures Has(stack[..], at, Blob(argv)) && Has(stack[..], at + |Blob(argv)|, Blob(envp))
    ensures argvPtrs[..] == Pointers(argv, base + at)
    ensures envpPtrs[..] == Pointers(envp, base + at + |Blob(argv)|)
  {
    ghost var m := stack[..];
    at := PushStrings(base, stack, stack.Length, envp, envpPtrs);
    at := PushStrings(base, stack, at, argv, argvPtrs);
    BothStored(m, at, Blob(argv), Blob(envp));
  }

  /** Stores the environment pointers, the argument pointers and argc, each below the one before. */
  method StoreFrame(stack: array<Byte>, top: nat, argvPtrs: array<Word>, envpPtrs: array<Word>) returns (sp: nat)
    requires 8 + 8 * argvPtrs.Length + 8 * envpPtrs.Length <= top <= stack.Length
    requires 0 < argvPtrs.Length < WORD
    modifies stack
    ensures sp == top - 8 * envpPtrs.Length - 8 * argvPtrs.Length - 8
    ensures stack[..] == Spliced(old(stack[..]), sp,
                                 Low(argvPtrs.Length - 1, 8) + Packed(argvPtrs[..]) + Packed(envpPtrs[..]))
  {
    ghost var m, a, b, c := stack[..], Low(argvPtrs.Length - 1, 8), Packed(argvPtrs[..]), Packed(envpPtrs[..]);
    sp := top - envpPtrs.Length * 8;
    StoreWords(stack, sp, envpPtrs);
    sp := sp - argvPtrs.Length * 8;
    StoreWords(stack, sp, argvPtrs);
    sp := sp - 8;
    StoreBytes(stack, sp, Low(argvPtrs.Length - 1, 8));
    SplicedBelow(m, sp + 8, b, c);
    SplicedBelow(m, sp, a, b + c);
    Assoc(a, b, c);
  }

  lemma ThreeStand(m: seq<Byte>, sp: nat, s: seq<Byte>, j: nat, t: seq<Byte>, k: nat, u: seq<Byte>)
    requires sp + |s| <= j <= k && k + |u| <= |m| && Has(m, j, t) && Has(m, k, u)
    ensures var r := Spliced(m, sp, s); Has(r, sp, s) && Has(r, j, t) && Has(r, k, u)
  {
    SplicedHas(m, sp, s);
    SplicedKeeps(m, sp, s, j, t);
    SplicedKeeps(m, sp, s, k, u);
  }

  /** Storing the words below the strings completes the frame. */
  lemma FrameStands(m: seq<Byte>, base: nat, sp: nat, argv: seq<Text>, at: nat, envp: seq<Text>, et: nat)
    requires 0 < base <= sp && base + |m| < WORD && |argv| < WORD && sp + WordBytes(argv, envp) <= at
    requires at + |Blob(argv)| == et && et + |Blob(envp)| == base + |m|
    requires Has(m, at - base, Blob(argv)) && Has(m, et - base, Blob(envp))
    ensures ReadArguments(Spliced(m, sp - base, Words(argv, at, envp, et)), base, sp) == Some((argv, envp))
  {
    ThreeStand(m, sp - base, Words(argv, at, envp, et), at - base, Blob(argv), et - base, Blob(envp));
    FrameReadsBack(Spliced(m, sp - base, Words(argv, at, envp, et)), base, sp, argv, at, envp, et);
  }

  /** Rounds the string address down so that the words below it leave the stack pointer aligned. */
  method Align(top: nat, at: nat, argv: seq<Text>, envp: seq<Text>) returns (sp: int)
    requires at == StringsAt(top, argv, envp)
    ensures sp == InitialSp(top, argv, envp) + WordBytes(argv, envp)
    ensures sp <= at && InitialSp(top, argv, envp) % 16 == 0
  {
    sp := at - at % 16;
    if (8 + (|argv| + 1) * 8 + (|envp| + 1) * 8) % 16 != 0 {
      sp := sp - 8;
    }
    SpAligned(top, argv, envp);
  }

  /** Below the strings at addresses at and et, stores the pointer words and leaves memory that reads back. */
  method FinishStack(base: nat, stack: array<Byte>, top: nat, argv: seq<Text>, ghost at: nat, envp: seq<Text>,
                     ghost et: nat, argvPtrs: array<Word>, envpPtrs: array<Word>, ghost goal: nat) returns (sp: nat)
    requires 0 < base <= at <= et && base + stack.Length < WORD && |argv| + 1 < WORD
    requires at + |Blob(argv)| == et && et + |Blob(envp)| == base + stack.Length
    requires base <= goal && goal + WordBytes(argv, envp) == top <= at
    requires Has(stack[..], at - base, Blob(argv)) && Has(stack[..], et - base, Blob(envp))
    requires argvPtrs[..] == Pointers(argv, at) && envpPtrs[..] == Pointers(envp, et)
    modifies stack
    ensures sp == goal
    ensures ReadArguments(stack[..], base, sp) == Some((argv, envp))
  {
    ghost var m := stack[..];
    assert argvPtrs.Length == |argvPtrs[..]| == |argv| + 1;
    assert envpPtrs.Length == |envpPtrs[..]| == |envp| + 1;
    var low := StoreFrame(stack, top - base, argvPtrs, envpPtrs);
    sp := base + low;
    FrameStands(m, base, sp, argv, at, envp, et);
  }

  lemma StringsFit(base: nat, size: nat, argv: seq<Text>, envp: seq<Text>)
    requires base <= InitialSp(base + size, argv, envp)
    ensures |Blob(argv)| + |Blob(envp)| <= size && |argv| < size
  {
    SpAligned(base + size, argv, envp);
  }

  /** The initial stack: 16-byte aligned, and from it a program reads back exactly argv and envp. The stack
      memory stands at address base. */
  method PrepareStack(base: nat, argv: seq<Text>, envp: seq<Text>) returns (stack: array<Byte>, sp: nat)
    requires 0 < base && base + STACK_SIZE < WORD && base <= InitialSp(base + STACK_SIZE, argv, envp)
    ensures stack.Length == STACK_SIZE && base <= sp && sp % 16 == 0
    ensures sp == InitialSp(base + STACK_SIZE, argv, envp)
    ensures ReadArguments(stack[..], base, sp) == Some((argv, envp))
  {
    var argvPtrs, envpPtrs := new Word[|argv| + 1], new Word[|envp| + 1];
    stack := new Byte[STACK_SIZE];
    StringsFit(base, STACK_SIZE, argv, envp);
    var at := CopyStrings(base, stack, argv, envp, argvPtrs, envpPtrs);
    var top := Align(base + STACK_SIZE, base + at, argv, envp);
    ghost var goal := InitialSp(base + STACK_SIZE, argv, envp);
    sp := FinishStack(base, stack, top, argv, base + at, envp, base + at + |Blob(argv)|, argvPtrs, envpPtrs, goal);
  }
}
