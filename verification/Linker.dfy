/** The chunk loop of main in scripts/compile_to_sgvm.py: constant pools are concatenated, the code of each
    chunk is relocated in place to the joint pool and appended without its final RETURN. */
module Linker {
  import opened Bytes
  import opened LinkCode

  /** A constant: the eight bytes of a double, or the bytes of a string. */
  datatype Const = Num(bits: Double) | Str(text: seq<Byte>)

  datatype Chunk = Chunk(consts: seq<Const>, code: seq<Byte>)

  // ---------------------------------------------------------------- the relocation loop

  method RebaseAt(code: array<Byte>, at: nat, base: nat)
    requires at + 2 <= code.Length
    modifies code
    ensures code[..] == Rebase(old(code[..]), at, base)
  {
    var idx := code[at] as int * 256 + code[at + 1] as int;
    var newIdx := idx + base;
    code[at] := newIdx / 256 % 256;
    code[at + 1] := newIdx % 256;
  }

  /** Rewriting inside the instruction at pc is rewriting its first instruction. */
  lemma RebaseInside(c: seq<Byte>, pc: nat, at: nat, base: nat)
    requires pc + at + 2 <= |c|
    ensures Rebase(c, pc + at, base) == c[..pc] + Rebase(c[pc..], at, base)
  {
  }

  lemma RebaseTwice(c: seq<Byte>, pc: nat, base: nat)
    requires pc + 8 <= |c|
    ensures Rebase(Rebase(c, pc + 1, base), pc + 6, base) == c[..pc] + Rebase(Rebase(c[pc..], 1, base), 6, base)
  {
    RebaseInside(c, pc, 1, base);
    RebaseInside(Rebase(c, pc + 1, base), pc, 6, base);
    assert Rebase(c, pc + 1, base)[..pc] == c[..pc];
    assert Rebase(c, pc + 1, base)[pc..] == Rebase(c[pc..], 1, base);
  }

  lemma RebaseFirstTail(s: seq<Byte>, base: nat)
    requires s != [] && Length(s) <= |s|
    ensures RebaseFirst(s, base)[Length(s)..] == s[Length(s)..]
  {
  }

  /** The code when the bytes before pc are done and those from pc on are still to be relocated. */
  function Pending(c: seq<Byte>, pc: nat, base: nat): (r: seq<Byte>)
    requires pc <= |c|
  {
    c[..pc] + Shift(c[pc..], base)
  }

  function NextStart(c: seq<Byte>, pc: nat): (n: nat)
    requires pc < |c|
    ensures pc < n <= |c|
  {
    if pc + Length(c[pc..]) <= |c| then pc + Length(c[pc..]) else |c|
  }

  lemma Splice(pre: seq<Byte>, r: seq<Byte>, n: nat, t: seq<Byte>)
    requires n <= |r|
    ensures (pre + r)[..|pre| + n] + t == pre + (r[..n] + t)
    ensures (pre + r)[|pre| + n..] == r[n..]
  {
  }

  lemma PendingAfter(c: seq<Byte>, pc: nat, r: seq<Byte>, n: nat, base: nat)
    requires pc <= |c| && |r| == |c| - pc && n <= |r| && r[n..] == c[pc + n..]
    ensures Pending(c[..pc] + r, pc + n, base) == c[..pc] + (r[..n] + Shift(c[pc + n..], base))
  {
    Splice(c[..pc], r, n, Shift(c[pc + n..], base));
  }

  lemma RelocateWhole(c: seq<Byte>, pc: nat, base: nat)
    requires pc < |c| && Length(c[pc..]) <= |c| - pc
    ensures Pending(c[..pc] + RebaseFirst(c[pc..], base), NextStart(c, pc), base) == Pending(c, pc, base)
  {
    var s := c[pc..];
    RebaseFirstTail(s, base);
    assert s[Length(s)..] == c[pc + Length(s)..];
    PendingAfter(c, pc, RebaseFirst(s, base), Length(s), base);
  }

  /** One turn of the loop leaves the same code pending. */
  lemma RelocateStep(c: seq<Byte>, pc: nat, base: nat)
    requires pc < |c|
    ensures |c[..pc] + RebaseFirst(c[pc..], base)| == |c|
    ensures Pending(c[..pc] + RebaseFirst(c[pc..], base), NextStart(c, pc), base) == Pending(c, pc, base)
  {
    if Length(c[pc..]) <= |c[pc..]| {
      RelocateWhole(c, pc, base);
    } else {
      Splice(c[..pc], RebaseFirst(c[pc..], base), |c| - pc, []);
    }
  }

  /** The work of one turn of the relocation loop: rewrite the instruction at pc and return where the
      next one starts; an instruction that is cut short ends the loop. */
  method RelocateOne(code: array<Byte>, pc: nat, base: nat) returns (next: nat)
    requires pc < code.Length
    modifies code
    ensures code[..] == old(code[..pc]) + RebaseFirst(old(code[pc..]), base)
    ensures next == NextStart(old(code[..]), pc)
  {
    ghost var c := code[..];
    ghost var s := code[pc..];
    assert c == c[..pc] + s && s == c[pc..];
    assert forall k :: 0 <= k < |s| ==> s[k] == code[pc + k];
    match KindOf(code[pc])
    case Index =>
      if pc + 2 >= code.Length { return code.Length; }
      RebaseInside(c, pc, 1, base);
      RebaseAt(code, pc + 1, base);
      next := pc + 3;
    case Function =>
      if pc + 4 >= code.Length { return code.Length; }
      RebaseInside(c, pc, 1, base);
      RebaseAt(code, pc + 1, base);
      next := pc + 5;
    case Method =>
      if pc + 3 >= code.Length { return code.Length; }
      RebaseInside(c, pc, 1, base);
      RebaseAt(code, pc + 1, base);
      next := pc + 4;
    case Class =>
      if pc + 5 >= code.Length { return code.Length; }
      RebaseInside(c, pc, 1, base);
      RebaseAt(code, pc + 1, base);
      var hasParent := code[pc + 5];
      next := pc + 6;
      if hasParent != 0 {
        if next + 1 >= code.Length { return code.Length; }
        RebaseTwice(c, pc, base);
        RebaseAt(code, next, base);
        next := next + 2;
      }
    case Wide => next := if pc + 3 <= code.Length then pc + 3 else code.Length;
    case Narrow => next := if pc + 2 <= code.Length then pc + 2 else code.Length;
    case Bare => next := pc + 1;
  }

  method Relocate(code: array<Byte>, base: nat)
    modifies code
    ensures code[..] == Shift(old(code[..]), base)
  {
    var pc := 0;
    assert Pending(code[..], pc, base) == Shift(code[..], base);
    while pc < code.Length
      invariant pc <= code.Length
      invariant Pending(code[..], pc, base) == Shift(old(code[..]), base)
    {
      RelocateStep(code[..], pc, base);
      assert code[pc..] == code[..][pc..] && code[..pc] == code[..][..pc];
      pc := RelocateOne(code, pc, base);
    }
    assert code[..pc] == code[..];
  }

  // ---------------------------------------------------------------- linking

  /** The code of a chunk without a final RETURN byte. */
  function Body(code: seq<Byte>): (b: seq<Byte>)
  {
    if code != [] && code[|code| - 1] == RETURN then code[..|code| - 1] else code
  }

  function Pool(chunks: seq<Chunk>): (p: seq<Const>)
  {
    if chunks == [] then [] else Pool(chunks[..|chunks| - 1]) + chunks[|chunks| - 1].consts
  }

  /** The linked code, still without the RETURN that main appends at the end. */
  function Linked(chunks: seq<Chunk>): (code: seq<Byte>)
  {
    if chunks == [] then []
    else
      var n := |chunks| - 1;
      Linked(chunks[..n]) + Shift(Body(chunks[n].code), |Pool(chunks[..n])|)
  }

  method Link(chunks: seq<Chunk>) returns (consts: seq<Const>, code: seq<Byte>)
    ensures consts == Pool(chunks) && code == Linked(chunks) + [RETURN]
  {
    consts, code := [], [];
    for k := 0 to |chunks|
      invariant consts == Pool(chunks[..k]) && code == Linked(chunks[..k])
    {
      var chunk := chunks[k];
      var base := |consts|;
      consts := consts + chunk.consts;
      var body := chunk.code;
      if body != [] && body[|body| - 1] == RETURN {
        body := body[..|body| - 1];
      }
      var buffer := new Byte[|body|](i requires 0 <= i < |body| => body[i]);
      assert buffer[..] == body;
      Relocate(buffer, base);
      code := code + buffer[..];
      assert chunks[..k + 1][..k] == chunks[..k];
    }
    assert chunks[..|chunks|] == chunks;
    code := code + [RETURN];
  }

  // ---------------------------------------------------------------- what linking preserves

  /** An instruction with its constants in place of their indices. */
  datatype Resolved = Resolved(op: Byte, constants: seq<Const>, plain: seq<Byte>)

  function Look(pool: seq<Const>, indices: seq<nat>): (r: seq<Const>)
    requires forall j :: 0 <= j < |indices| ==> indices[j] < |pool|
    ensures |r| == |indices|
    ensures forall j :: 0 <= j < |indices| ==> r[j] == pool[indices[j]]
  {
    seq(|indices|, j requires 0 <= j < |indices| => pool[indices[j]])
  }

  function Resolve(code: seq<Instr>, pool: seq<Const>): (r: seq<Resolved>)
    requires IndicesBelow(code, |pool|)
    ensures |r| == |code|
    ensures forall k :: 0 <= k < |code| ==> r[k] == Resolved(code[k].op, Look(pool, code[k].indices), code[k].plain)
  {
    seq(|code|, k requires 0 <= k < |code| => Resolved(code[k].op, Look(pool, code[k].indices), code[k].plain))
  }

  /** The chunk is a whole number of instructions whose constants are in its pool. */
  predicate ChunkOk(c: Chunk)
  {
    WellFormed(Body(c.code)) && IndicesBelow(Decode(Body(c.code)), |c.consts|)
  }

  /** The instructions of a chunk, constants in place. */
  function Meaning(c: Chunk): (r: seq<Resolved>)
    requires ChunkOk(c)
  {
    Resolve(Decode(Body(c.code)), c.consts)
  }

  /** Chunks that link: each is in order, and the joint pool fits its 16-bit count. */
  predicate Linkable(chunks: seq<Chunk>)
  {
    (forall k :: 0 <= k < |chunks| ==> ChunkOk(chunks[k])) && |Pool(chunks)| < 0x1_0000
  }

  function Meanings(chunks: seq<Chunk>): (r: seq<Resolved>)
    requires Linkable(chunks)
  {
    if chunks == [] then [] else Meanings(chunks[..|chunks| - 1]) + Meaning(chunks[|chunks| - 1])
  }

  lemma {:induction false} RaiseAllAt(code: seq<Instr>, base: nat)
    ensures |RaiseAll(code, base)| == |code|
    ensures forall k :: 0 <= k < |code| ==> RaiseAll(code, base)[k] == Raise(code[k], base)
  {
    if code != [] {
      RaiseAllAt(code[1..], base);
    }
  }

  /** Raised indices find in the joint pool what the original ones find in the chunk's pool. */
  lemma ResolveRaised(code: seq<Instr>, before: seq<Const>, pool: seq<Const>)
    requires IndicesBelow(code, |pool|)
    ensures IndicesBelow(RaiseAll(code, |before|), |before + pool|)
    ensures Resolve(RaiseAll(code, |before|), before + pool) == Resolve(code, pool)
  {
    RaiseAllAt(code, |before|);
    var up := RaiseAll(code, |before|);
    forall k | 0 <= k < |code| ensures Look(before + pool, up[k].indices) == Look(pool, code[k].indices) {
      assert up[k] == Raise(code[k], |before|);
    }
  }

  lemma ResolveConcat(a: seq<Instr>, b: seq<Instr>, pool: seq<Const>, more: seq<Const>)
    requires IndicesBelow(a, |pool|) && IndicesBelow(b, |pool + more|)
    ensures IndicesBelow(a + b, |pool + more|)
    ensures Resolve(a + b, pool + more) == Resolve(a, pool) + Resolve(b, pool + more)
  {
    forall k | 0 <= k < |a| ensures Look(pool + more, a[k].indices) == Look(pool, a[k].indices) {
    }
  }

  /** The linked code ends with the instructions of the last chunk, raised. */
  lemma LinkedLast(chunks: seq<Chunk>)
    requires chunks != [] && Linkable(chunks)
    requires WellFormed(Linked(chunks[..|chunks| - 1]))
    ensures WellFormed(Linked(chunks))
    ensures var n := |chunks| - 1;
      Decode(Linked(chunks)) ==
        Decode(Linked(chunks[..n])) + RaiseAll(Decode(Body(chunks[n].code)), |Pool(chunks[..n])|)
  {
    var n := |chunks| - 1;
    var body, base := Body(chunks[n].code), |Pool(chunks[..n])|;
    ShiftDecodes(body, base, |chunks[n].consts|);
    WellFormedConcat(Linked(chunks[..n]), Shift(body, base));
    DecodeConcat(Linked(chunks[..n]), Shift(body, base));
  }

  /** Linking preserves meaning: with every constant looked up, the linked code is the chunks' code, one
      after the other.  A pool that fits its 16-bit count leaves no index wrapped. */
  lemma {:induction false} LinkPreservesMeaning(chunks: seq<Chunk>)
    requires Linkable(chunks)
    ensures WellFormed(Linked(chunks)) && IndicesBelow(Decode(Linked(chunks)), |Pool(chunks)|)
    ensures Resolve(Decode(Linked(chunks)), Pool(chunks)) == Meanings(chunks)
  {
    if chunks != [] {
      var n := |chunks| - 1;
      var front, last := chunks[..n], chunks[n];
      LinkPreservesMeaning(front);
      LinkedLast(chunks);
      var code := Decode(Body(last.code));
      ResolveRaised(code, Pool(front), last.consts);
      ResolveConcat(Decode(Linked(front)), RaiseAll(code, |Pool(front)|), Pool(front), last.consts);
    }
  }

  // ---------------------------------------------------------------- the final RETURN

  /** The last instruction of the code is a RETURN. */
  predicate EndsInReturn(code: seq<Byte>)
    requires WellFormed(code)
    decreases |code|
  {
    code != [] && if Length(code) == |code| then code[0] == RETURN else EndsInReturn(code[Length(code)..])
  }

  /** Cutting the last byte off a whole instruction leaves nothing, or less than an instruction. */
  lemma CutInstruction(s: seq<Byte>)
    requires s != [] && Length(s) == |s| && s[|s| - 1] == RETURN
    ensures WellFormed(s[..|s| - 1]) <==> s[0] == RETURN
    ensures s[0] == RETURN ==> |s| == 1
  {
    var cut := s[..|s| - 1];
    if |s| > 1 {
      assert cut[0] == s[0] && Length(cut) > |cut|;
    }
  }

  lemma CutBehind(s: seq<Byte>)
    requires s != [] && Length(s) < |s|
    ensures var cut := s[..|s| - 1];
      Length(cut) == Length(s) && First(cut) == First(s) && cut[Length(s)..] == s[Length(s)..][..|s| - Length(s) - 1]
  {
    var cut, n := s[..|s| - 1], Length(s);
    PrefixFirst(s, n);
    assert cut[..n] == s[..n];
    assert Length(cut) == n;
    PrefixFirst(cut, n);
  }

  /** The linker takes off a last byte that looks like RETURN. That leaves whole instructions exactly when the
      byte is one, and then all the instructions but that last one. */
  lemma {:induction false} CutIsClean(code: seq<Byte>)
    requires WellFormed(code) && code != [] && code[|code| - 1] == RETURN
    ensures WellFormed(code[..|code| - 1]) <==> EndsInReturn(code)
    ensures EndsInReturn(code) ==> Decode(code) == Decode(code[..|code| - 1]) + [Instr(RETURN, [], [])]
    decreases |code|
  {
    var n := Length(code);
    if n == |code| {
      CutInstruction(code);
      assert code[n..] == [];
    } else {
      CutBehind(code);
      CutIsClean(code[n..]);
    }
  }

  /** Well-formed code whose last byte, if it looks like a RETURN, is one. */
  predicate CleanEnd(code: seq<Byte>)
    requires WellFormed(code)
  {
    code != [] && code[|code| - 1] == RETURN ==> EndsInReturn(code)
  }

  function WithoutReturn(code: seq<Instr>): (r: seq<Instr>)
  {
    if code != [] && code[|code| - 1] == Instr(RETURN, [], []) then code[..|code| - 1] else code
  }

  lemma FinalReturn(code: seq<Instr>, bound: nat)
    ensures IndicesBelow(code + [Instr(RETURN, [], [])], bound) <==> IndicesBelow(code, bound)
    ensures WithoutReturn(code + [Instr(RETURN, [], [])]) == code
  {
    var all := code + [Instr(RETURN, [], [])];
    if IndicesBelow(all, bound) {
      forall k, j | 0 <= k < |code| && 0 <= j < |code[k].indices| ensures code[k].indices[j] < bound {
        assert all[k] == code[k];
      }
    }
  }

  /** A chunk of whole instructions can be linked exactly when its end is clean and its constants are in its
      pool; its meaning is then that of its own instructions but a final RETURN. */
  lemma ChunkOkExactly(c: Chunk)
    requires WellFormed(c.code)
    ensures ChunkOk(c) <==> CleanEnd(c.code) && IndicesBelow(Decode(c.code), |c.consts|)
    ensures ChunkOk(c) ==> Decode(Body(c.code)) == WithoutReturn(Decode(c.code))
  {
    if c.code != [] && c.code[|c.code| - 1] == RETURN {
      CutChunk(c.code, c.code[..|c.code| - 1], |c.consts|);
    } else {
      NoReturnAtEnd(c.code);
    }
  }

  lemma CutChunk(code: seq<Byte>, body: seq<Byte>, bound: nat)
    requires WellFormed(code) && code != [] && code[|code| - 1] == RETURN && body == code[..|code| - 1]
    ensures WellFormed(body) <==> EndsInReturn(code)
    ensures WellFormed(body) ==> Decode(body) == WithoutReturn(Decode(code))
    ensures WellFormed(body) ==> (IndicesBelow(Decode(body), bound) <==> IndicesBelow(Decode(code), bound))
  {
    CutIsClean(code);
    if EndsInReturn(code) {
      FinalReturn(Decode(body), bound);
    }
  }

  lemma {:induction false} NoReturnAtEnd(code: seq<Byte>)
    requires WellFormed(code) && (code != [] ==> code[|code| - 1] != RETURN)
    ensures WithoutReturn(Decode(code)) == Decode(code)
    decreases |code|
  {
    if code != [] {
      var rest := code[Length(code)..];
      NoReturnAtEnd(rest);
      assert Decode(code) == [First(code)] + Decode(rest);
    }
  }

  /** A chunk of whole instructions, a jump to offset 43, whose operand the linker takes for a RETURN: what is
      left is not an instruction. */
  lemma OperandTakenForReturn()
    ensures WellFormed([34, 0, RETURN]) && !CleanEnd([34, 0, RETURN])
    ensures Body([34, 0, RETURN]) == [34, 0] && !WellFormed([34, 0])
  {
    var code: seq<Byte> := [34, 0, RETURN];
    assert code[3..] == [] && code[..2] == [34, 0];
  }

  // ---------------------------------------------------------------- jumps

  /** A jump names its target by byte offset in the code it is in. */
  predicate IsJump(i: Instr) { i.op in {34, 35} && |i.plain| == 2 }

  function Target(i: Instr): nat
    requires IsJump(i)
  {
    Be16(i.plain[0], i.plain[1])
  }

  /** The instructions of chunk k. */
  function Instrs(chunks: seq<Chunk>, k: nat): (code: seq<Instr>)
    requires Linkable(chunks) && k < |chunks|
  {
    Decode(Body(chunks[k].code))
  }

  lemma PrefixOfPrefix<T>(s: seq<T>, k: nat, n: nat)
    requires k <= n <= |s|
    ensures s[..n][..k] == s[..k]
  {
  }

  lemma LinkableInit(chunks: seq<Chunk>)
    requires Linkable(chunks) && chunks != []
    ensures Linkable(chunks[..|chunks| - 1])
  {
  }

  lemma {:induction false} PoolPrefix(chunks: seq<Chunk>, k: nat)
    requires k <= |chunks|
    ensures |Pool(chunks[..k])| <= |Pool(chunks)|
    decreases |chunks|
  {
    if k < |chunks| {
      PrefixOfPrefix(chunks, k, |chunks| - 1);
      PoolPrefix(chunks[..|chunks| - 1], k);
    } else {
      assert chunks[..k] == chunks;
    }
  }

  lemma LinkablePrefix(chunks: seq<Chunk>, k: nat)
    requires Linkable(chunks) && k <= |chunks|
    ensures Linkable(chunks[..k])
  {
    PoolPrefix(chunks, k);
  }

  function Flat<T>(ps: seq<seq<T>>): (s: seq<T>)
  {
    if ps == [] then [] else Flat(ps[..|ps| - 1]) + ps[|ps| - 1]
  }

  lemma {:induction false} FlatAt<T>(ps: seq<seq<T>>, k: nat) returns (rest: seq<T>)
    requires k < |ps|
    ensures Flat(ps) == Flat(ps[..k]) + ps[k] + rest
  {
    var n := |ps| - 1;
    if k == n {
      rest := [];
    } else {
      PrefixOfPrefix(ps, k, n);
      var part := FlatAt(ps[..n], k);
      rest := part + ps[n];
      Assoc(Flat(ps[..k]) + ps[k], part, ps[n]);
    }
  }

  /** The instructions of chunk k as they read in the linked code. */
  function Piece(chunks: seq<Chunk>, k: nat): (code: seq<Instr>)
    requires Linkable(chunks) && k < |chunks|
  {
    RaiseAll(Instrs(chunks, k), |Pool(chunks[..k])|)
  }

  ghost predicate ArePieces(chunks: seq<Chunk>, ps: seq<seq<Instr>>)
    requires Linkable(chunks)
  {
    |ps| == |chunks| && forall k :: 0 <= k < |chunks| ==> ps[k] == Piece(chunks, k)
  }

  lemma PiecesPrefix(chunks: seq<Chunk>, ps: seq<seq<Instr>>, k: nat)
    requires Linkable(chunks) && ArePieces(chunks, ps) && k <= |chunks|
    ensures Linkable(chunks[..k]) && ArePieces(chunks[..k], ps[..k])
  {
    LinkablePrefix(chunks, k);
    forall i | 0 <= i < k ensures ps[..k][i] == Piece(chunks[..k], i) {
      PrefixOfPrefix(chunks, i, k);
    }
  }

  /** The linked code is the pieces of the chunks, one after the other. */
  lemma {:induction false} LinkedPieces(chunks: seq<Chunk>, ps: seq<seq<Instr>>)
    requires Linkable(chunks) && ArePieces(chunks, ps)
    ensures WellFormed(Linked(chunks)) && Decode(Linked(chunks)) == Flat(ps)
  {
    if chunks != [] {
      var n := |chunks| - 1;
      PiecesPrefix(chunks, ps, n);
      LinkedPieces(chunks[..n], ps[..n]);
      LinkedLast(chunks);
    }
  }

  /** The position in the linked code of the first instruction of chunk k. */
  function Start(chunks: seq<Chunk>, k: nat): nat
    requires Linkable(chunks) && k <= |chunks|
  {
    LinkablePrefix(chunks, k);
    LinkPreservesMeaning(chunks[..k]);
    |Decode(Linked(chunks[..k]))|
  }

  lemma LinkedUpTo(chunks: seq<Chunk>, k: nat) returns (whole: seq<Instr>, first: seq<Instr>, rest: seq<Instr>)
    requires Linkable(chunks) && k < |chunks|
    ensures WellFormed(Linked(chunks)) && whole == Decode(Linked(chunks))
    ensures |first| == Start(chunks, k) && whole == first + Piece(chunks, k) + rest
  {
    var ps := seq(|chunks|, i requires 0 <= i < |chunks| => Piece(chunks, i));
    LinkedPieces(chunks, ps);
    PiecesPrefix(chunks, ps, k);
    LinkedPieces(chunks[..k], ps[..k]);
    rest := FlatAt(ps, k);
    whole, first := Flat(ps), Flat(ps[..k]);
  }

  lemma InTheMiddle<T>(whole: seq<T>, a: seq<T>, b: seq<T>, c: seq<T>, i: nat)
    requires whole == a + b + c && i < |b|
    ensures |a| + i < |whole| && whole[|a| + i] == b[i]
  {
  }

  lemma PieceAt(chunks: seq<Chunk>, k: nat, i: nat)
    requires Linkable(chunks) && k < |chunks| && i < |Instrs(chunks, k)|
    ensures i < |Piece(chunks, k)| && Piece(chunks, k)[i] == Raise(Instrs(chunks, k)[i], |Pool(chunks[..k])|)
  {
    RaiseAllAt(Instrs(chunks, k), |Pool(chunks[..k])|);
  }

  lemma LinkedPlace(chunks: seq<Chunk>, k: nat, i: nat)
    requires Linkable(chunks) && k < |chunks| && i < |Piece(chunks, k)|
    ensures WellFormed(Linked(chunks)) && Start(chunks, k) + i < |Decode(Linked(chunks))|
    ensures Decode(Linked(chunks))[Start(chunks, k) + i] == Piece(chunks, k)[i]
  {
    var whole, first, rest := LinkedUpTo(chunks, k);
    InTheMiddle(whole, first, Piece(chunks, k), rest, i);
  }

  /** How the instruction i of chunk k reads in the linked code. */
  lemma LinkedInstr(chunks: seq<Chunk>, k: nat, i: nat)
    requires Linkable(chunks) && k < |chunks| && i < |Instrs(chunks, k)|
    ensures WellFormed(Linked(chunks)) && Start(chunks, k) + i < |Decode(Linked(chunks))|
    ensures Decode(Linked(chunks))[Start(chunks, k) + i] == Raise(Instrs(chunks, k)[i], |Pool(chunks[..k])|)
  {
    PieceAt(chunks, k, i);
    LinkedPlace(chunks, k, i);
  }

  /** The jump i of chunk k goes, in the linked code, to the place its old target moved to. */
  ghost predicate JumpLands(chunks: seq<Chunk>, k: nat, i: nat)
    requires Linkable(chunks) && WellFormed(Linked(chunks))
    requires k < |chunks| && i < |Instrs(chunks, k)| && IsJump(Instrs(chunks, k)[i])
  {
    LinkedInstr(chunks, k, i);
    Target(Decode(Linked(chunks))[Start(chunks, k) + i]) == Target(Instrs(chunks, k)[i]) + |Linked(chunks[..k])|
  }

  ghost predicate JumpsLand(chunks: seq<Chunk>)
    requires Linkable(chunks) && WellFormed(Linked(chunks))
  {
    forall k, i :: 0 <= k < |chunks| && 0 <= i < |Instrs(chunks, k)| && IsJump(Instrs(chunks, k)[i]) ==>
      JumpLands(chunks, k, i)
  }

  predicate HasJump(chunks: seq<Chunk>, k: nat)
    requires Linkable(chunks) && k < |chunks|
  {
    exists i :: 0 <= i < |Instrs(chunks, k)| && IsJump(Instrs(chunks, k)[i])
  }

  predicate NoCode(chunks: seq<Chunk>)
  {
    chunks == [] || (NoCode(chunks[..|chunks| - 1]) && Body(chunks[|chunks| - 1].code) == [])
  }

  lemma {:induction false} LinkedEmpty(chunks: seq<Chunk>)
    ensures Linked(chunks) == [] <==> NoCode(chunks)
  {
    if chunks != [] {
      LinkedEmpty(chunks[..|chunks| - 1]);
    }
  }

  /** Jump operands are not moved, so jumps survive linking exactly when no chunk with a jump comes after
      a chunk with code. */
  lemma JumpsLandExactly(chunks: seq<Chunk>)
    requires Linkable(chunks) && WellFormed(Linked(chunks))
    ensures JumpsLand(chunks) <==> forall k :: 0 <= k < |chunks| && HasJump(chunks, k) ==> NoCode(chunks[..k])
  {
    forall k, i | 0 <= k < |chunks| && 0 <= i < |Instrs(chunks, k)| && IsJump(Instrs(chunks, k)[i])
      ensures JumpLands(chunks, k, i) <==> NoCode(chunks[..k])
    {
      LinkedInstr(chunks, k, i);
      LinkedEmpty(chunks[..k]);
    }
  }

  const NIL_CHUNK := Chunk([], [1, RETURN])
  const JUMP_CHUNK := Chunk([], [34, 0, 0, RETURN])

  lemma Alone(s: seq<Byte>)
    requires s != [] && Length(s) == |s|
    ensures WellFormed(s) && Decode(s) == [First(s)]
  {
    assert s[|s|..] == [];
  }

  lemma SampleInstrs()
    ensures ChunkOk(NIL_CHUNK) && ChunkOk(JUMP_CHUNK) && Body(NIL_CHUNK.code) != []
    ensures Decode(Body(JUMP_CHUNK.code)) == [Instr(34, [], [0, 0])]
  {
    var nil: seq<Byte>, jump: seq<Byte> := [1], [34, 0, 0];
    assert Body(NIL_CHUNK.code) == nil && Body(JUMP_CHUNK.code) == jump;
    Alone(nil);
    Alone(jump);
    assert jump[1..3] == [0, 0];
  }

  lemma OneChunk(a: Chunk)
    ensures Pool([a]) == a.consts && Linked([a]) == Shift(Body(a.code), 0)
    ensures NoCode([a]) <==> Body(a.code) == []
  {
    assert [a][..0] == [] && Pool([]) == [] && Linked([]) == [];
    assert [] + a.consts == a.consts && [] + Shift(Body(a.code), 0) == Shift(Body(a.code), 0);
  }

  lemma TwoChunks(a: Chunk, b: Chunk)
    ensures Pool([a, b]) == a.consts + b.consts
    ensures Linked([a, b]) == Shift(Body(a.code), 0) + Shift(Body(b.code), |a.consts|)
  {
    assert [a, b][..1] == [a];
    OneChunk(a);
  }

  lemma SampleChunks()
    ensures Linkable([NIL_CHUNK, JUMP_CHUNK])
    ensures HasJump([NIL_CHUNK, JUMP_CHUNK], 1) && !NoCode([NIL_CHUNK])
  {
    SampleInstrs();
    OneChunk(NIL_CHUNK);
    TwoChunks(NIL_CHUNK, JUMP_CHUNK);
    assert IsJump(Instrs([NIL_CHUNK, JUMP_CHUNK], 1)[0]);
  }

  /** Two chunks, the second of which jumps to its own start: the linked jump goes to the first. */
  lemma JumpsCanGoAstray()
    ensures Linkable([NIL_CHUNK, JUMP_CHUNK]) && WellFormed(Linked([NIL_CHUNK, JUMP_CHUNK]))
    ensures !JumpsLand([NIL_CHUNK, JUMP_CHUNK])
  {
    var chunks := [NIL_CHUNK, JUMP_CHUNK];
    SampleChunks();
    LinkPreservesMeaning(chunks);
    JumpsLandExactly(chunks);
    assert chunks[..1] == [NIL_CHUNK];
  }
}
