/** The instructions that sageos_build/sage_lang/core/src/vm/bytecode.c emits, byte by byte, and what linking
    makes of them. */
module Compiled {
  import opened Bytes
  import opened LinkCode
  import opened Linker
  import Machine

  /** An instruction to emit.  The compiler never emits DefineClass: its layout is the linker's. */
  datatype Op =
    | Constant(index: nat)
    | Name(op: Byte, index: nat)
    | DefineFunction(name: nat, body: nat)
    | Dup(distance: Byte)
    | AstStmt(stmt: nat)
    | Jump(op: Byte, target: nat)
    | Collect(op: Byte, count: nat)
    | Call(args: Byte)
    | CallMethod(name: nat, args: Byte)
    | DefineClass(name: nat, methods: nat, parent: Option<nat>)
    | Plain(op: Byte)

  /** The opcodes without an operand, in the order of the enumeration: NIL to POP, GET_INDEX to TRUTHY, PRINT,
      RETURN to POP_ENV, ARRAY_LEN. */
  predicate NoOperand(op: Byte) { 1 <= op <= 4 || 11 <= op <= 33 || op == 41 || 43 <= op <= 45 || op == 47 }

  /** The opcode is one of its constructor's, and every two-byte operand fits. */
  predicate Emittable(o: Op)
  {
    match o
    case Constant(index) => index < 0x1_0000
    case Name(op, index) => (5 <= op <= 7 || 9 <= op <= 10) && index < 0x1_0000
    case DefineFunction(name, body) => name < 0x1_0000 && body < 0x1_0000
    case Dup(distance) => true
    case AstStmt(stmt) => stmt < 0x1_0000
    case Jump(op, target) => 34 <= op <= 35 && target < 0x1_0000
    case Collect(op, count) => 38 <= op <= 40 && count < 0x1_0000
    case Call(args) => true
    case CallMethod(name, args) => name < 0x1_0000
    case DefineClass(name, methods, parent) =>
      name < 0x1_0000 && methods < 0x1_0000 && (parent.Some? ==> parent.value < 0x1_0000)
    case Plain(op) => NoOperand(op)
  }

  /** A two-byte operand, most significant byte first. */
  function U16(n: nat): (r: seq<Byte>)
    requires n < 0x1_0000
    ensures |r| == 2
  {
    [n / 256, n % 256]
  }

  function Emit(o: Op): (s: seq<Byte>)
    requires Emittable(o)
    ensures s != []
  {
    match o
    case Constant(index) => [0] + U16(index)
    case Name(op, index) => [op] + U16(index)
    case DefineFunction(name, body) => [8] + U16(name) + U16(body)
    case Dup(distance) => [46, distance]
    case AstStmt(stmt) => [42] + U16(stmt)
    case Jump(op, target) => [op] + U16(target)
    case Collect(op, count) => [op] + U16(count)
    case Call(args) => [36, args]
    case CallMethod(name, args) => [37] + U16(name) + [args]
    case DefineClass(name, methods, parent) =>
      [52] + U16(name) + U16(methods) + (if parent.Some? then [1] + U16(parent.value) else [0])
    case Plain(op) => [op]
  }

  /** The instruction for a pool that starts base entries later. */
  function Moved(o: Op, base: nat): (r: Op)
  {
    match o
    case Constant(index) => Constant(index + base)
    case Name(op, index) => Name(op, index + base)
    case DefineFunction(name, body) => DefineFunction(name + base, body)
    case AstStmt(stmt) => AstStmt(stmt + base)
    case CallMethod(name, args) => CallMethod(name + base, args)
    case DefineClass(name, methods, parent) =>
      DefineClass(name + base, methods, if parent.Some? then Some(parent.value + base) else None)
    case _ => o
  }

  /** The pool entries that the instruction names. */
  function Named(o: Op): (r: seq<nat>)
  {
    match o
    case Constant(index) => [index]
    case Name(op, index) => [index]
    case DefineFunction(name, body) => [name]
    case AstStmt(stmt) => [stmt]
    case CallMethod(name, args) => [name]
    case DefineClass(name, methods, parent) => [name] + (if parent.Some? then [parent.value] else [])
    case _ => []
  }

  lemma ClassFirst(o: Op, s: seq<Byte>)
    requires Emittable(o) && o.DefineClass? && Emit(o) <= s
    ensures Length(s) == |Emit(o)| && First(s).op == Emit(o)[0] && First(s).indices == Named(o)
  {
  }

  lemma OtherFirst(o: Op, s: seq<Byte>)
    requires Emittable(o) && !o.DefineClass? && Emit(o) <= s
    ensures Length(s) == |Emit(o)| && First(s).op == Emit(o)[0] && First(s).indices == Named(o)
  {
  }

  /** The linker sees an emitted instruction whole, with the pool entries that it names. */
  lemma EmittedFirst(o: Op, rest: seq<Byte>)
    requires Emittable(o)
    ensures var s := Emit(o) + rest;
      Length(s) == |Emit(o)| && First(s).op == Emit(o)[0] && First(s).indices == Named(o)
  {
    if o.DefineClass? {
      ClassFirst(o, Emit(o) + rest);
    } else {
      OtherFirst(o, Emit(o) + rest);
    }
  }

  /** For the linker and for the virtual machine an emitted jump goes where it was emitted to go. */
  lemma EmittedTarget(op: Byte, target: nat)
    requires Emittable(Jump(op, target))
    ensures var s := Emit(Jump(op, target));
      && Target(First(s)) == target
      && Machine.Jumps(Machine.Fetch(s)) && Machine.Destination(Machine.Fetch(s)) == target
  {
    var s := Emit(Jump(op, target));
    assert s[1..3] == U16(target);
  }

  /** Raising an operand stores the raised one. */
  lemma RebaseStores(s: seq<Byte>, at: nat, n: nat, base: nat)
    requires at + 2 <= |s| && n + base < 0x1_0000 && s[at] == n / 256 && s[at + 1] == n % 256
    ensures var r := Rebase(s, at, base); r[at] == (n + base) / 256 && r[at + 1] == (n + base) % 256
  {
    assert Be16(s[at], s[at + 1]) == n;
  }

  lemma RebaseNone(o: Op, s: seq<Byte>, base: nat)
    requires Emittable(o) && Emit(o) <= s && Named(o) == []
    ensures Moved(o, base) == o && RebaseFirst(s, base) == s
  {
    assert s[0] == Emit(o)[0];
  }

  /** An instruction of an opcode and one index. */
  lemma RebaseNamed(o: Op, s: seq<Byte>, base: nat)
    requires Emittable(o) && Emittable(Moved(o, base)) && Emit(o) <= s && (o.Constant? || o.Name? || o.AstStmt?)
    ensures Emit(Moved(o, base)) <= RebaseFirst(s, base)
  {
    RebaseStores(s, 1, Named(o)[0], base);
  }

  /** An instruction with further operands. */
  lemma RebaseWithRest(o: Op, s: seq<Byte>, base: nat)
    requires Emittable(o) && Emittable(Moved(o, base)) && Emit(o) <= s && |Named(o)| == 1
    requires o.DefineFunction? || o.CallMethod? || o.DefineClass?
    ensures Emit(Moved(o, base)) <= RebaseFirst(s, base)
  {
    RebaseStores(s, 1, o.name, base);
  }

  lemma RebaseSubclass(o: Op, s: seq<Byte>, base: nat)
    requires Emittable(o) && Emittable(Moved(o, base)) && Emit(o) <= s && |Named(o)| == 2
    ensures Emit(Moved(o, base)) <= RebaseFirst(s, base)
  {
    RebaseStores(s, 1, o.name, base);
    RebaseStores(Rebase(s, 1, base), 6, o.parent.value, base);
  }

  lemma MovedLength(o: Op, base: nat)
    requires Emittable(o) && Emittable(Moved(o, base))
    ensures |Emit(Moved(o, base))| == |Emit(o)|
  {
  }

  lemma RebasedPrefix(o: Op, s: seq<Byte>, base: nat, before: seq<Byte>, after: seq<Byte>)
    requires Emittable(o) && Emittable(Moved(o, base)) && before == Emit(o) && after == Emit(Moved(o, base))
    requires before <= s
    ensures Length(s) == |before| == |after| && after <= RebaseFirst(s, base)
  {
    EmittedFirst(o, s[|before|..]);
    assert before + s[|before|..] == s;
    MovedLength(o, base);
    if Named(o) == [] {
      RebaseNone(o, s, base);
    } else if |Named(o)| == 2 {
      RebaseSubclass(o, s, base);
    } else if o.Constant? || o.Name? || o.AstStmt? {
      RebaseNamed(o, s, base);
    } else {
      RebaseWithRest(o, s, base);
    }
  }

  lemma ShiftParts(s: seq<Byte>, base: nat, head: seq<Byte>, rest: seq<Byte>)
    requires s != [] && Length(s) == |head| <= |s| && rest == s[|head|..] && head <= RebaseFirst(s, base)
    ensures Shift(s, base) == head + Shift(rest, base)
  {
    assert RebaseFirst(s, base)[..|head|] == head;
  }

  /** Relocating an emitted instruction is emitting the moved one. */
  lemma ShiftOfEmitted(o: Op, rest: seq<Byte>, base: nat, before: seq<Byte>, after: seq<Byte>)
    requires Emittable(o) && Emittable(Moved(o, base)) && before == Emit(o) && after == Emit(Moved(o, base))
    ensures Shift(before + rest, base) == after + Shift(rest, base)
  {
    RebasedPrefix(o, before + rest, base, before, after);
    ShiftParts(before + rest, base, after, rest);
  }

  // ---------------------------------------------------------------- whole chunks

  predicate AllEmittable(os: seq<Op>) { forall k :: 0 <= k < |os| ==> Emittable(os[k]) }

  function EmitAll(os: seq<Op>): (s: seq<Byte>)
    requires AllEmittable(os)
  {
    if os == [] then [] else Emit(os[0]) + EmitAll(os[1..])
  }

  function MovedAll(os: seq<Op>, base: nat): (r: seq<Op>)
    ensures |r| == |os| && forall k :: 0 <= k < |os| ==> r[k] == Moved(os[k], base)
  {
    seq(|os|, k requires 0 <= k < |os| => Moved(os[k], base))
  }

  /** All entries that the instructions name are below bound. */
  predicate NamesBelow(os: seq<Op>, bound: nat)
  {
    forall k, j :: 0 <= k < |os| && 0 <= j < |Named(os[k])| ==> Named(os[k])[j] < bound
  }

  lemma MovedEmittable(o: Op, base: nat, bound: nat)
    requires Emittable(o) && base + bound <= 0x1_0000 && forall j :: 0 <= j < |Named(o)| ==> Named(o)[j] < bound
    ensures Emittable(Moved(o, base))
  {
    if Named(o) != [] {
      assert Named(o)[0] < bound;
    }
    if |Named(o)| == 2 {
      assert Named(o)[1] < bound;
    }
  }

  /** The linker reads emitted code as the instructions it was emitted from. */
  lemma {:induction false} EmittedDecodes(os: seq<Op>)
    requires AllEmittable(os)
    ensures var s := EmitAll(os);
      && WellFormed(s)
      && |Decode(s)| == |os|
      && (forall k :: 0 <= k < |os| ==> Decode(s)[k].op == Emit(os[k])[0] && Decode(s)[k].indices == Named(os[k]))
  {
    if os != [] {
      var s := EmitAll(os);
      EmittedFirst(os[0], EmitAll(os[1..]));
      EmittedDecodes(os[1..]);
      assert s[Length(s)..] == EmitAll(os[1..]);
      forall k | 0 < k < |os| ensures Decode(s)[k].op == Emit(os[k])[0] && Decode(s)[k].indices == Named(os[k]) {
        assert os[k] == os[1..][k - 1];
      }
    }
  }

  /** Relocating emitted code is emitting the moved instructions. */
  lemma {:induction false} ShiftEmits(os: seq<Op>, base: nat)
    requires AllEmittable(os) && AllEmittable(MovedAll(os, base))
    ensures Shift(EmitAll(os), base) == EmitAll(MovedAll(os, base))
  {
    if os != [] {
      var ms := MovedAll(os, base);
      assert ms[1..] == MovedAll(os[1..], base);
      assert ms[0] == Moved(os[0], base);
      ShiftOfEmitted(os[0], EmitAll(os[1..]), base, Emit(os[0]), Emit(ms[0]));
      ShiftEmits(os[1..], base);
    }
  }

  lemma {:induction false} EmitConcat(a: seq<Op>, b: seq<Op>)
    requires AllEmittable(a) && AllEmittable(b)
    ensures AllEmittable(a + b) && EmitAll(a + b) == EmitAll(a) + EmitAll(b)
  {
    if a == [] {
      assert a + b == b;
    } else {
      var s := a + b;
      assert s[0] == a[0] && s[1..] == a[1..] + b;
      EmitConcat(a[1..], b);
      Assoc(Emit(a[0]), EmitAll(a[1..]), EmitAll(b));
    }
  }

  // ---------------------------------------------------------------- linking

  /** Each chunk is emitted from its instructions, with or without a final RETURN, and names only entries of
      its pool. */
  predicate EmittedFrom(chunks: seq<Chunk>, ps: seq<seq<Op>>)
  {
    && |ps| == |chunks|
    && forall k :: 0 <= k < |chunks| ==>
      && AllEmittable(ps[k]) && NamesBelow(ps[k], |chunks[k].consts|)
      && Body(chunks[k].code) == EmitAll(ps[k])
  }

  /** The instructions of all chunks in order, those of each moved behind the pools before it. */
  function Joined(chunks: seq<Chunk>, ps: seq<seq<Op>>): (r: seq<Op>)
    requires |ps| == |chunks|
  {
    if chunks == [] then []
    else
      var n := |chunks| - 1;
      Joined(chunks[..n], ps[..n]) + MovedAll(ps[n], |Pool(chunks[..n])|)
  }

  /** Linking emitted chunks is emitting the joined program. */
  lemma {:induction false} LinkedEmits(chunks: seq<Chunk>, ps: seq<seq<Op>>)
    requires EmittedFrom(chunks, ps) && |Pool(chunks)| <= 0x1_0000
    ensures AllEmittable(Joined(chunks, ps)) && Linked(chunks) == EmitAll(Joined(chunks, ps))
  {
    if chunks != [] {
      var n := |chunks| - 1;
      var base := |Pool(chunks[..n])|;
      LinkedEmits(chunks[..n], ps[..n]);
      var ms := MovedAll(ps[n], base);
      forall k | 0 <= k < |ms| ensures Emittable(ms[k]) {
        MovedEmittable(ps[n][k], base, |chunks[n].consts|);
      }
      ShiftEmits(ps[n], base);
      EmitConcat(Joined(chunks[..n], ps[..n]), ms);
    }
  }

  /** An emitted chunk is one that links. */
  lemma EmittedLinkable(c: Chunk, os: seq<Op>)
    requires AllEmittable(os) && NamesBelow(os, |c.consts|) && Body(c.code) == EmitAll(os)
    ensures ChunkOk(c)
  {
    EmittedDecodes(os);
    var code := Decode(Body(c.code));
    forall k, j | 0 <= k < |code| && 0 <= j < |code[k].indices| ensures code[k].indices[j] < |c.consts| {
      assert code[k].indices == Named(os[k]);
    }
  }
}
