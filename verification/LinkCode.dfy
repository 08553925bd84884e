/** The bytecode that scripts/compile_to_sgvm.py relocates: variable-length instructions whose constant
    operands are big-endian indices into a pool of constants. */
module LinkCode {
  import opened Bytes

  /** How the linker lays out the operands of an opcode. */
  datatype Kind =
    | Index       // constant index (2)
    | Function    // constant index (2), function index (2)
    | Method      // constant index (2), argument count (1)
    | Class       // constant index (2), method count (2), parent flag (1), then the parent's index (2) if set
    | Wide        // two operand bytes that are no constant index
    | Narrow      // one such byte
    | Bare

  const RETURN: Byte := 43

  function KindOf(op: Byte): Kind
  {
    if op in {0, 5, 6, 7, 9, 10, 42, 53} then Index
    else if op == 8 then Function
    else if op == 37 then Method
    else if op == 52 then Class
    else if op in {34, 35, 38, 39, 40, 55} then Wide
    else if op in {36, 46, 48, 49, 50} then Narrow
    else Bare
  }

  /** The length of the instruction that s starts with, as far as s shows it. */
  function Length(s: seq<Byte>): (n: nat)
    requires s != []
    ensures 1 <= n <= 8
  {
    match KindOf(s[0])
    case Index => 3
    case Function => 5
    case Method => 4
    case Class => if |s| > 5 && s[5] != 0 then 8 else 6
    case Wide => 3
    case Narrow => 2
    case Bare => 1
  }

  /** An instruction: its constant indices and its other operand bytes, each in order. */
  datatype Instr = Instr(op: Byte, indices: seq<nat>, plain: seq<Byte>)

  function Be16(hi: Byte, lo: Byte): (n: nat)
    ensures n < 0x1_0000
  {
    hi as int * 256 + lo as int
  }

  function First(s: seq<Byte>): (i: Instr)
    requires s != [] && Length(s) <= |s|
  {
    match KindOf(s[0])
    case Index => Instr(s[0], [Be16(s[1], s[2])], [])
    case Function => Instr(s[0], [Be16(s[1], s[2])], s[3..5])
    case Method => Instr(s[0], [Be16(s[1], s[2])], s[3..4])
    case Class =>
      if s[5] != 0 then Instr(s[0], [Be16(s[1], s[2]), Be16(s[6], s[7])], s[3..6])
      else Instr(s[0], [Be16(s[1], s[2])], s[3..6])
    case Wide => Instr(s[0], [], s[1..3])
    case Narrow => Instr(s[0], [], s[1..2])
    case Bare => Instr(s[0], [], [])
  }

  /** s is a whole number of instructions. */
  predicate WellFormed(s: seq<Byte>)
    decreases |s|
  {
    s == [] || (Length(s) <= |s| && WellFormed(s[Length(s)..]))
  }

  function Decode(s: seq<Byte>): (code: seq<Instr>)
    requires WellFormed(s)
    decreases |s|
  {
    if s == [] then [] else [First(s)] + Decode(s[Length(s)..])
  }

  /** The first instruction of a + b is that of a, when a holds it whole. */
  lemma FirstOfConcat(a: seq<Byte>, b: seq<Byte>)
    requires a != [] && Length(a) <= |a|
    ensures Length(a + b) == Length(a) && First(a + b) == First(a)
  {
    var s := a + b;
    if |a| >= 5 { assert s[3..5] == a[3..5]; }
    if |a| >= 4 { assert s[3..4] == a[3..4]; }
    if |a| >= 6 { assert s[3..6] == a[3..6]; }
    if |a| >= 3 { assert s[1..3] == a[1..3]; }
    if |a| >= 2 { assert s[1..2] == a[1..2]; }
  }

  lemma TailOfConcat(a: seq<Byte>, b: seq<Byte>)
    requires a != [] && Length(a) <= |a|
    ensures Length(a + b) == Length(a) && (a + b)[Length(a)..] == a[Length(a)..] + b
  {
    FirstOfConcat(a, b);
  }

  lemma {:induction false} WellFormedConcat(a: seq<Byte>, b: seq<Byte>)
    requires WellFormed(a) && WellFormed(b)
    ensures WellFormed(a + b)
    decreases |a|
  {
    if a == [] {
      assert a + b == b;
    } else {
      WellFormedConcat(a[Length(a)..], b);
      TailOfConcat(a, b);
    }
  }

  lemma {:induction false} DecodeConcat(a: seq<Byte>, b: seq<Byte>)
    requires WellFormed(a) && WellFormed(b) && WellFormed(a + b)
    ensures Decode(a + b) == Decode(a) + Decode(b)
    decreases |a|
  {
    if a == [] {
      assert a + b == b;
    } else {
      TailOfConcat(a, b);
      FirstOfConcat(a, b);
      DecodeConcat(a[Length(a)..], b);
    }
  }

  // ---------------------------------------------------------------- relocation

  /** s with the index stored at `at` raised by base, in 16 bits. */
  function Rebase(s: seq<Byte>, at: nat, base: nat): (r: seq<Byte>)
    requires at + 2 <= |s|
    ensures |r| == |s|
  {
    var n := Be16(s[at], s[at + 1]) + base;
    s[at := n / 256 % 256][at + 1 := n % 256]
  }

  /** s with the constant indices of its first instruction raised by base.  An instruction that is cut
      short stays as it is, except that a class whose parent index is missing has its name raised. */
  function RebaseFirst(s: seq<Byte>, base: nat): (r: seq<Byte>)
    requires s != []
    ensures |r| == |s|
  {
    match KindOf(s[0])
    case Index => if |s| < 3 then s else Rebase(s, 1, base)
    case Function => if |s| < 5 then s else Rebase(s, 1, base)
    case Method => if |s| < 4 then s else Rebase(s, 1, base)
    case Class =>
      if |s| < 6 then s
      else if s[5] == 0 || |s| < 8 then Rebase(s, 1, base)
      else Rebase(Rebase(s, 1, base), 6, base)
    case Wide => s
    case Narrow => s
    case Bare => s
  }

  /** s with the constant indices of all its instructions raised by base. */
  function Shift(s: seq<Byte>, base: nat): (r: seq<Byte>)
    ensures |r| == |s|
    decreases |s|
  {
    if s == [] then []
    else if |s| < Length(s) then RebaseFirst(s, base)
    else RebaseFirst(s, base)[..Length(s)] + Shift(s[Length(s)..], base)
  }

  function Raise(i: Instr, base: nat): Instr
  {
    i.(indices := seq(|i.indices|, k requires 0 <= k < |i.indices| => i.indices[k] + base))
  }

  predicate IndicesBelow(code: seq<Instr>, bound: nat)
  {
    forall k, j :: 0 <= k < |code| && 0 <= j < |code[k].indices| ==> code[k].indices[j] < bound
  }

  lemma RebaseIndex(s: seq<Byte>, at: nat, base: nat)
    requires at + 2 <= |s| && Be16(s[at], s[at + 1]) + base < 0x1_0000
    ensures var r := Rebase(s, at, base); Be16(r[at], r[at + 1]) == Be16(s[at], s[at + 1]) + base
  {
  }

  /** Raising the first instruction keeps its opcode, length and other operands, and raises its indices. */
  lemma RebaseFirstDecodes(s: seq<Byte>, base: nat)
    requires s != [] && Length(s) <= |s|
    requires forall j :: 0 <= j < |First(s).indices| ==> First(s).indices[j] + base < 0x1_0000
    ensures var r := RebaseFirst(s, base);
      && Length(r) == Length(s)
      && First(r) == Raise(First(s), base)
      && r[Length(s)..] == s[Length(s)..]
  {
    var code, r := First(s).indices, RebaseFirst(s, base);
    if code != [] {
      assert code[0] + base < 0x1_0000;
      RebaseIndex(s, 1, base);
    }
    if |code| == 2 {
      assert code[1] + base < 0x1_0000;
      RebaseIndex(Rebase(s, 1, base), 6, base);
    }
  }

  lemma ShiftHead(s: seq<Byte>, base: nat)
    requires s != [] && Length(s) <= |s|
    requires forall j :: 0 <= j < |First(s).indices| ==> First(s).indices[j] + base < 0x1_0000
    ensures var r := Shift(s, base);
      && Length(r) == Length(s)
      && First(r) == Raise(First(s), base)
      && r[Length(s)..] == Shift(s[Length(s)..], base)
  {
    RebaseFirstDecodes(s, base);
    PrefixFirst(RebaseFirst(s, base), Length(s));
    FirstOfConcat(RebaseFirst(s, base)[..Length(s)], Shift(s[Length(s)..], base));
  }

  lemma PrefixFirst(r: seq<Byte>, n: nat)
    requires r != [] && Length(r) == n <= |r|
    ensures Length(r[..n]) == n && First(r[..n]) == First(r)
  {
    FirstOfConcat(r[..n], r[n..]);
    assert r[..n] + r[n..] == r;
  }

  lemma IndicesTail(s: seq<Byte>, bound: nat)
    requires s != [] && WellFormed(s) && IndicesBelow(Decode(s), bound)
    ensures IndicesBelow([First(s)], bound) && IndicesBelow(Decode(s[Length(s)..]), bound)
  {
    var code := Decode(s);
    assert code[0] == First(s);
    assert forall k :: 0 <= k < |Decode(s[Length(s)..])| ==> Decode(s[Length(s)..])[k] == code[k + 1];
  }

  function RaiseAll(code: seq<Instr>, base: nat): (r: seq<Instr>)
  {
    if code == [] then [] else [Raise(code[0], base)] + RaiseAll(code[1..], base)
  }

  /** The relocated code has the same instructions with every constant index raised by base. */
  lemma {:induction false} ShiftDecodes(s: seq<Byte>, base: nat, bound: nat)
    requires WellFormed(s) && IndicesBelow(Decode(s), bound) && base + bound <= 0x1_0000
    ensures WellFormed(Shift(s, base)) && Decode(Shift(s, base)) == RaiseAll(Decode(s), base)
    decreases |s|
  {
    if s != [] {
      IndicesTail(s, bound);
      assert forall j :: 0 <= j < |First(s).indices| ==> [First(s)][0].indices[j] < bound;
      ShiftHead(s, base);
      ShiftDecodes(s[Length(s)..], base, bound);
    }
  }
}
