/** How the bytecode machine of sageos_build/kernel/core/sagelang/metal_vm.c reads code, against the table of
    operand widths by which scripts/compile_to_sgvm.py links it. */
module Machine {
  import opened Bytes
  import opened LinkCode
  import opened Linker

  // ---------------------------------------------------------------- the machine's reading

  /** The bytes that the machine takes for an instruction with this opcode. */
  function Width(op: Byte): (n: nat)
    ensures 1 <= n <= 7
  {
    if op in {0, 5, 6, 7, 9, 10, 42, 51, 53} then 3
    else if op in {34, 35, 38, 39, 40, 48, 49, 50} then 3
    else if op in {8, 55} then 5
    else if op == 37 then 4
    else if op == 36 then 2
    else if op == 52 then 7
    else 1
  }

  /** The instruction at the start of s, as the machine reads it: a method call has its argument count first. */
  function Fetch(s: seq<Byte>): (i: Instr)
    requires s != [] && Width(s[0]) <= |s|
  {
    var op := s[0];
    if op in {0, 5, 6, 7, 9, 10, 42, 51, 53} then Instr(op, [Be16(s[1], s[2])], [])
    else if op == 8 then Instr(op, [Be16(s[1], s[2])], s[3..5])
    else if op == 37 then Instr(op, [Be16(s[2], s[3])], s[1..2])
    else Instr(op, [], s[1..Width(op)])
  }

  predicate Readable(s: seq<Byte>)
    decreases |s|
  {
    s == [] || (Width(s[0]) <= |s| && Readable(s[Width(s[0])..]))
  }

  function Program(s: seq<Byte>): (code: seq<Instr>)
    requires Readable(s)
    decreases |s|
  {
    if s == [] then [] else [Fetch(s)] + Program(s[Width(s[0])..])
  }

  // ---------------------------------------------------------------- where the two agree

  /** All opcodes but CALL_METHOD, DUP, BREAK, CONTINUE, LOOP_BACK, IMPORT, CLASS and SETUP_TRY. */
  predicate Agrees(op: Byte) { op !in {37, 46, 48, 49, 50, 51, 52, 55} }

  lemma SameInstruction(s: seq<Byte>)
    requires s != [] && Agrees(s[0])
    ensures Width(s[0]) == Length(s)
    ensures Length(s) <= |s| ==> Fetch(s) == First(s)
  {
  }

  ghost predicate ReadAlike(op: Byte)
  {
    forall s: seq<Byte> {:trigger Length(s)} :: |s| == 8 && s[0] == op ==>
      Width(op) == Length(s) && Fetch(s) == First(s)
  }

  /** The machine and the linker read an instruction alike, whatever its operands, exactly for these opcodes. */
  lemma ReadAlikeExactly(op: Byte)
    ensures ReadAlike(op) <==> Agrees(op)
  {
    if Agrees(op) {
      forall s: seq<Byte> | |s| == 8 && s[0] == op ensures Width(op) == Length(s) && Fetch(s) == First(s) {
        SameInstruction(s);
      }
    } else {
      var s: seq<Byte> := [op, 0, 0, 1, 0, 0, 0, 0];
      assert !(Width(op) == Length(s) && Fetch(s) == First(s));
    }
  }

  /** By how many bytes the machine's next instruction lies behind the linker's. */
  lemma ReadingsPart(s: seq<Byte>)
    requires |s| == 8
    ensures s[0] == 46 <==> Width(s[0]) == Length(s) - 1 && s[0] != 52
    ensures s[0] in {48, 49, 50} <==> Width(s[0]) == Length(s) + 1 && s[0] != 52
    ensures s[0] in {51, 55} <==> Width(s[0]) == Length(s) + 2
    ensures s[0] == 52 ==> Width(s[0]) == if s[5] == 0 then Length(s) + 1 else Length(s) - 1
    ensures s[0] == 37 ==> Width(s[0]) == Length(s) && First(s).indices == [Be16(s[1], s[2])]
    ensures s[0] == 37 ==> Fetch(s).indices == [Be16(s[2], s[3])]
  {
  }

  predicate AllAgree(code: seq<Instr>) { forall k :: 0 <= k < |code| ==> Agrees(code[k].op) }

  lemma {:induction false} SameProgram(s: seq<Byte>)
    requires WellFormed(s) && AllAgree(Decode(s))
    ensures Readable(s) && Program(s) == Decode(s)
    decreases |s|
  {
    if s != [] {
      assert Decode(s)[0] == First(s) && First(s).op == s[0];
      SameInstruction(s);
      assert Decode(s)[1..] == Decode(s[Length(s)..]);
      SameProgram(s[Length(s)..]);
    }
  }

  // ---------------------------------------------------------------- linked code on the machine

  predicate ChunksAgree(chunks: seq<Chunk>)
    requires Linkable(chunks)
  {
    forall k :: 0 <= k < |chunks| ==> AllAgree(Instrs(chunks, k))
  }

  lemma {:induction false} LinkedAgrees(chunks: seq<Chunk>)
    requires Linkable(chunks) && ChunksAgree(chunks)
    ensures WellFormed(Linked(chunks)) && AllAgree(Decode(Linked(chunks)))
  {
    if chunks != [] {
      var n := |chunks| - 1;
      LinkableInit(chunks);
      assert ChunksAgree(chunks[..n]) by {
        forall k | 0 <= k < n ensures AllAgree(Instrs(chunks[..n], k)) {
          assert AllAgree(Instrs(chunks, k));
        }
      }
      LinkedAgrees(chunks[..n]);
      LinkedLast(chunks);
      assert AllAgree(Instrs(chunks, n));
      RaiseAllAt(Instrs(chunks, n), |Pool(chunks[..n])|);
    }
  }

  /** What the machine reads in a chunk, constants in place. */
  function MachineMeaning(c: Chunk): (r: seq<Resolved>)
    requires Readable(Body(c.code)) && IndicesBelow(Program(Body(c.code)), |c.consts|)
  {
    Resolve(Program(Body(c.code)), c.consts)
  }

  /** For chunks of agreed opcodes the machine reads the linked code as the chunks' own instructions, one after
      the other, each constant operand naming the constant it named. */
  lemma MachineReadsLinked(chunks: seq<Chunk>)
    requires Linkable(chunks) && ChunksAgree(chunks)
    ensures forall k :: 0 <= k < |chunks| ==>
      Readable(Body(chunks[k].code)) && IndicesBelow(Program(Body(chunks[k].code)), |chunks[k].consts|)
      && MachineMeaning(chunks[k]) == Meaning(chunks[k])
    ensures Readable(Linked(chunks)) && IndicesBelow(Program(Linked(chunks)), |Pool(chunks)|)
    ensures Resolve(Program(Linked(chunks)), Pool(chunks)) == Meanings(chunks)
  {
    forall k | 0 <= k < |chunks| ensures Readable(Body(chunks[k].code))
      && Program(Body(chunks[k].code)) == Decode(Body(chunks[k].code))
    {
      assert AllAgree(Instrs(chunks, k));
      SameProgram(Body(chunks[k].code));
    }
    LinkedAgrees(chunks);
    SameProgram(Linked(chunks));
    LinkPreservesMeaning(chunks);
  }

  /** The machine takes BREAK and CONTINUE for absolute jumps as well. */
  predicate Jumps(i: Instr) { i.op in {34, 35, 48, 49} && |i.plain| == 2 }

  function Destination(i: Instr): nat
    requires Jumps(i)
  {
    Be16(i.plain[0], i.plain[1])
  }

  predicate ChunksReadable(chunks: seq<Chunk>) { forall k :: 0 <= k < |chunks| ==> Readable(Body(chunks[k].code)) }

  /** The jump i of chunk k goes, in the linked code, to the place its old target moved to. */
  ghost predicate Lands(chunks: seq<Chunk>, k: nat, i: nat)
    requires Linkable(chunks) && k < |chunks| && Readable(Body(chunks[k].code)) && Readable(Linked(chunks))
    requires i < |Program(Body(chunks[k].code))| && Jumps(Program(Body(chunks[k].code))[i])
  {
    var at, code := Start(chunks, k) + i, Program(Linked(chunks));
    && at < |code| && Jumps(code[at])
    && Destination(code[at]) == Destination(Program(Body(chunks[k].code))[i]) + |Linked(chunks[..k])|
  }

  predicate HasMachineJump(c: Chunk, i: int)
    requires Readable(Body(c.code))
  {
    0 <= i < |Program(Body(c.code))| && Jumps(Program(Body(c.code))[i])
  }

  ghost predicate AllLand(chunks: seq<Chunk>)
    requires Linkable(chunks) && ChunksReadable(chunks) && Readable(Linked(chunks))
  {
    forall k, i :: 0 <= k < |chunks| && HasMachineJump(chunks[k], i) ==> Lands(chunks, k, i)
  }

  lemma LandsExactly(chunks: seq<Chunk>, k: nat, i: nat)
    requires Linkable(chunks) && ChunksAgree(chunks) && k < |chunks|
    requires Readable(Body(chunks[k].code)) && Readable(Linked(chunks))
    requires i < |Program(Body(chunks[k].code))| && Jumps(Program(Body(chunks[k].code))[i])
    ensures Lands(chunks, k, i) <==> NoCode(chunks[..k])
    ensures HasJump(chunks, k)
  {
    assert AllAgree(Instrs(chunks, k));
    SameProgram(Body(chunks[k].code));
    LinkedAgrees(chunks);
    SameProgram(Linked(chunks));
    LinkedInstr(chunks, k, i);
    LinkedEmpty(chunks[..k]);
    assert IsJump(Instrs(chunks, k)[i]);
  }

  lemma JumpOf(chunks: seq<Chunk>, k: nat) returns (i: nat)
    requires Linkable(chunks) && ChunksAgree(chunks) && k < |chunks| && HasJump(chunks, k)
    ensures Readable(Body(chunks[k].code)) && HasMachineJump(chunks[k], i)
  {
    i :| 0 <= i < |Instrs(chunks, k)| && IsJump(Instrs(chunks, k)[i]);
    assert AllAgree(Instrs(chunks, k));
    SameProgram(Body(chunks[k].code));
  }

  /** For chunks of agreed opcodes, the machine's jumps all land exactly when no chunk with a jump comes after
      a chunk with code. */
  lemma MachineJumpsLandExactly(chunks: seq<Chunk>)
    requires Linkable(chunks) && ChunksAgree(chunks)
    ensures ChunksReadable(chunks) && Readable(Linked(chunks))
    ensures AllLand(chunks) <==> forall k :: 0 <= k < |chunks| && HasJump(chunks, k) ==> NoCode(chunks[..k])
  {
    MachineReadsLinked(chunks);
    forall k, i | 0 <= k < |chunks| && HasMachineJump(chunks[k], i)
      ensures Lands(chunks, k, i) <==> NoCode(chunks[..k])
      ensures HasJump(chunks, k)
    {
      LandsExactly(chunks, k, i);
    }
    forall k | 0 <= k < |chunks| && HasJump(chunks, k) && !NoCode(chunks[..k]) ensures !AllLand(chunks) {
      var i := JumpOf(chunks, k);
      assert HasMachineJump(chunks[k], i) && !Lands(chunks, k, i);
    }
  }

  // ---------------------------------------------------------------- where they do not

  const ZERO: Double := [0, 0, 0, 0, 0, 0, 0, 0]

  const PLAIN_CHUNK := Chunk([Num(ZERO)], [1, RETURN])
  const IMPORT_CHUNK := Chunk([Str([109])], [51, 0, 0, 4, RETURN])

  lemma IndexShifts()
    ensures Shift([0, 0, 4], 1) == [0, 0, 5]
  {
    var tail: seq<Byte>, up: seq<Byte> := [0, 0, 4], [0, 0, 5];
    assert RebaseFirst(tail, 1) == up;
    assert tail[3..] == [] && up[..3] == up && up + [] == up;
  }

  lemma ImportShifts()
    ensures Shift([51, 0, 0, 4], 1) == [51, 0, 0, 5]
  {
    var body: seq<Byte> := [51, 0, 0, 4];
    IndexShifts();
    assert body[1..] == [0, 0, 4] && body[..1] == [51];
  }

  lemma ImportReads()
    ensures Readable([51, 0, 0, 4]) && Program([51, 0, 0, 4]) == [Instr(51, [0], []), Instr(4, [], [])]
  {
    var body: seq<Byte>, pop: seq<Byte> := [51, 0, 0, 4], [4];
    assert body[3..] == pop && pop[1..] == [];
    assert pop[1..1] == [] && Fetch(pop) == Instr(4, [], []);
  }

  /** The machine reads an import of constant 0 and a POP. Linked behind a chunk with one constant, the import
      still names constant 0, now the other chunk's, and the POP has become a GET_GLOBAL. */
  lemma ImportIsMangled()
    ensures Readable(Body(IMPORT_CHUNK.code))
    ensures Program(Body(IMPORT_CHUNK.code)) == [Instr(51, [0], []), Instr(4, [], [])]
    ensures Linked([PLAIN_CHUNK, IMPORT_CHUNK]) == [1] + [51, 0, 0, 5]
    ensures Pool([PLAIN_CHUNK, IMPORT_CHUNK]) == [Num(ZERO)] + [Str([109])]
    ensures Fetch([51, 0, 0, 5]) == Instr(51, [0], []) && Width(5) == 3
  {
    assert Body(IMPORT_CHUNK.code) == [51, 0, 0, 4];
    assert Body(PLAIN_CHUNK.code) == [1];
    ImportReads();
    ImportShifts();
    TwoChunks(PLAIN_CHUNK, IMPORT_CHUNK);
    assert Shift([1], 0) == [1];
  }
}
