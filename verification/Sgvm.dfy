/** The SGVM file that scripts/compile_to_sgvm.py writes: magic and version, the linked pool and code, and
    the functions with their parameter names hashed. */
module Sgvm {
  import opened Bytes
  import opened LinkCode
  import opened Linker

  type Word = w: nat | w < 0x1_0000_0000

  datatype Function = Function(params: seq<seq<Byte>>, consts: seq<Const>, code: seq<Byte>)

  /** What a file stores of a function, and of a program. */
  datatype Stored = Stored(hashes: seq<Word>, consts: seq<Const>, code: seq<Byte>)

  datatype Image = Image(consts: seq<Const>, code: seq<Byte>, functions: seq<Stored>)

  // ---------------------------------------------------------------- hashing

  function XorByte(a: Byte, b: Byte): Byte { (a as bv8 ^ b as bv8) as int }

  /** The hash so far with its low byte replaced, times the prime, in 32 bits. */
  function Spread(h: Word, low: Byte): Word { (h / 256 * 256 + low) * 16777619 % 0x1_0000_0000 }

  /** One turn of the hash; a byte meets only the low byte of the hash so far. */
  function Mix(h: Word, b: Byte): Word { Spread(h, XorByte(h % 256, b)) }

  function Fold(h: Word, data: seq<Byte>): Word
    decreases |data|
  {
    if data == [] then h else Fold(Mix(h, data[0]), data[1..])
  }

  function Hash(name: seq<Byte>): Word { Fold(2166136261, name) }

  /** fnv1a over the bytes of a parameter name. */
  method HashName(data: seq<Byte>) returns (h: Word)
    ensures h == Hash(data)
  {
    h := 2166136261;
    var i := 0;
    while i < |data|
      invariant i <= |data| && Fold(h, data[i..]) == Fold(2166136261, data)
    {
      assert data[i..][0] == data[i] && data[i..][1..] == data[i + 1..];
      h := Mix(h, data[i]);
      i := i + 1;
    }
  }

  lemma FoldStep(h: Word, data: seq<Byte>, i: nat)
    requires i < |data|
    ensures Fold(h, data[i..]) == Fold(Mix(h, data[i]), data[i + 1..])
  {
    assert data[i..][0] == data[i] && data[i..][1..] == data[i + 1..];
  }

  /** hash *= 16777619, after the low byte is replaced. */
  method MachineSpread(h: Word, low: Byte) returns (hash: Word)
    ensures hash == Spread(h, low)
  {
    hash := h - h % 256 + low;
    hash := hash * 16777619 % 0x1_0000_0000;
  }

  /** hash ^= c; hash *= 16777619 */
  method MachineMix(h: Word, c: Byte) returns (hash: Word)
    ensures hash == Mix(h, c)
  {
    var low := XorByte(h % 256, c);
    hash := MachineSpread(h, low);
  }

  /** metal_fnv1a, by which the machine looks names up: the same hash over a C string. */
  method MachineHash(memory: seq<Byte>, s: nat, ghost name: seq<Byte>) returns (hash: Word)
    requires s + |name| < |memory| && memory[s..s + |name|] == name && memory[s + |name|] == 0 && 0 !in name
    ensures hash == Hash(name)
  {
    hash := 2166136261;
    var i := 0;
    while memory[s + i] != 0
      invariant i <= |name| && Fold(hash, name[i..]) == Fold(2166136261, name)
      decreases |name| - i
    {
      var c := memory[s + i];
      assert c == name[i];
      FoldStep(hash, name, i);
      hash := MachineMix(hash, c);
      i := i + 1;
    }
    assert name[|name|..] == [];
  }

  lemma KnownXor()
    ensures XorByte(0xC5, 0x61) == 0xA4
  {
  }

  /** The published values of the hash for the empty string and for "a". */
  lemma KnownHashes()
    ensures Hash([]) == 0x811C9DC5 && Hash([97]) == 0xE40C292C
  {
    var a: seq<Byte> := [97];
    assert a[0] == 97 && a[1..] == [];
    KnownXor();
    assert 2166136261 % 256 == 0xC5;
  }

  // ---------------------------------------------------------------- encoding

  predicate ConstFits(c: Const) { c.Str? ==> |c.text| < 0x1_0000 }

  predicate AllFit(cs: seq<Const>) { forall k :: 0 <= k < |cs| ==> ConstFits(cs[k]) }

  predicate ConstsFit(cs: seq<Const>) { |cs| < 0x1_0000 && AllFit(cs) }

  predicate StoredFits(f: Stored)
  {
    |f.hashes| < 0x1_0000 && ConstsFit(f.consts) && |f.code| < 0x1_0000_0000
  }

  /** Every length fits the field that struct.pack gives it. */
  predicate Fits(p: Image)
  {
    && ConstsFit(p.consts)
    && |p.code| < 0x1_0000_0000
    && |p.functions| < 0x1_0000
    && AllStoredFit(p.functions)
  }

  predicate AllStoredFit(fs: seq<Stored>) { forall k :: 0 <= k < |fs| ==> StoredFits(fs[k]) }

  function EncodeConst(c: Const): seq<Byte>
    requires ConstFits(c)
  {
    match c
    case Num(bits) => [1] + bits
    case Str(text) => [2] + Le16(|text|) + text
  }

  function EncodeEach(cs: seq<Const>): seq<Byte>
    requires AllFit(cs)
  {
    if cs == [] then [] else EncodeConst(cs[0]) + EncodeEach(cs[1..])
  }

  function EncodePool(cs: seq<Const>): seq<Byte>
    requires ConstsFit(cs)
  {
    Le16(|cs|) + EncodeEach(cs)
  }

  function EncodeCode(code: seq<Byte>): seq<Byte>
    requires |code| < 0x1_0000_0000
  {
    Le32(|code|) + code
  }

  function EncodeHashes(hs: seq<Word>): seq<Byte>
  {
    if hs == [] then [] else Le32(hs[0]) + EncodeHashes(hs[1..])
  }

  function EncodeStored(f: Stored): seq<Byte>
    requires StoredFits(f)
  {
    Le16(|f.hashes|) + (EncodeHashes(f.hashes) + (EncodePool(f.consts) + EncodeCode(f.code)))
  }

  function EncodeAll(fs: seq<Stored>): seq<Byte>
    requires AllStoredFit(fs)
  {
    if fs == [] then [] else EncodeStored(fs[0]) + EncodeAll(fs[1..])
  }

  const HEADER: seq<Byte> := [0x53, 0x47, 0x56, 0x4D, 2]

  function Encode(p: Image): seq<Byte>
    requires Fits(p)
  {
    HEADER + (EncodePool(p.consts) + (EncodeCode(p.code) + (Le16(|p.functions|) + EncodeAll(p.functions))))
  }

  // ---------------------------------------------------------------- decoding

  datatype Parsed<T> = Bad | Got(value: T, rest: seq<Byte>)

  function Read16(s: seq<Byte>): Parsed<nat>
  {
    if |s| < 2 then Bad else Got(FromLe16(s[..2]), s[2..])
  }

  function Read32(s: seq<Byte>): (r: Parsed<Word>)
  {
    if |s| < 4 then Bad else Got(FromLe32(s[..4]), s[4..])
  }

  function ReadBytes(s: seq<Byte>, n: nat): Parsed<seq<Byte>>
  {
    if |s| < n then Bad else Got(s[..n], s[n..])
  }

  function ReadConst(s: seq<Byte>): Parsed<Const>
  {
    if s == [] then Bad
    else if s[0] == 1 then (if |s| < 9 then Bad else Got(Num(s[1..9]), s[9..]))
    else if s[0] == 2 then
      match Read16(s[1..])
      case Bad => Bad
      case Got(n, t) => match ReadBytes(t, n) case Bad => Bad case Got(text, u) => Got(Str(text), u)
    else Bad
  }

  function ReadConsts(s: seq<Byte>, n: nat): Parsed<seq<Const>>
    decreases n
  {
    if n == 0 then Got([], s)
    else match ReadConst(s)
         case Bad => Bad
         case Got(c, t) => match ReadConsts(t, n - 1) case Bad => Bad case Got(cs, u) => Got([c] + cs, u)
  }

  function ReadPool(s: seq<Byte>): Parsed<seq<Const>>
  {
    match Read16(s) case Bad => Bad case Got(n, t) => ReadConsts(t, n)
  }

  function ReadCode(s: seq<Byte>): Parsed<seq<Byte>>
  {
    match Read32(s) case Bad => Bad case Got(n, t) => ReadBytes(t, n)
  }

  function ReadHashes(s: seq<Byte>, n: nat): Parsed<seq<Word>>
    decreases n
  {
    if n == 0 then Got([], s)
    else match Read32(s)
         case Bad => Bad
         case Got(h, t) => match ReadHashes(t, n - 1) case Bad => Bad case Got(hs, u) => Got([h] + hs, u)
  }

  function ReadStored(s: seq<Byte>): Parsed<Stored>
  {
    match Read16(s)
    case Bad => Bad
    case Got(n, t) =>
      match ReadHashes(t, n)
      case Bad => Bad
      case Got(hs, u) =>
        match ReadPool(u)
        case Bad => Bad
        case Got(cs, v) => match ReadCode(v) case Bad => Bad case Got(code, w) => Got(Stored(hs, cs, code), w)
  }

  function ReadAll(s: seq<Byte>, n: nat): Parsed<seq<Stored>>
    decreases n
  {
    if n == 0 then Got([], s)
    else match ReadStored(s)
         case Bad => Bad
         case Got(f, t) => match ReadAll(t, n - 1) case Bad => Bad case Got(fs, u) => Got([f] + fs, u)
  }

  function Decoded(s: seq<Byte>): Option<Image>
  {
    if |s| < 5 || s[..5] != HEADER then None
    else match ReadPool(s[5..])
         case Bad => None
         case Got(cs, t) =>
           match ReadCode(t)
           case Bad => None
           case Got(code, u) =>
             match Read16(u)
             case Bad => None
             case Got(n, v) =>
               match ReadAll(v, n)
               case Bad => None
               case Got(fs, w) => if w == [] then Some(Image(cs, code, fs)) else None
  }

  // ---------------------------------------------------------------- round trips

  lemma Read16Back(n: nat, t: seq<Byte>)
    requires n < 0x1_0000
    ensures Read16(Le16(n) + t) == Got(n, t)
  {
    var s := Le16(n) + t;
    assert s[..2] == Le16(n) && s[2..] == t;
    Le16RoundTrip(n);
  }

  lemma Read32Back(n: nat, t: seq<Byte>)
    requires n < 0x1_0000_0000
    ensures Read32(Le32(n) + t) == Got(n, t)
  {
    var s := Le32(n) + t;
    assert s[..4] == Le32(n) && s[4..] == t;
    Le32RoundTrip(n);
  }

  lemma ReadBytesBack(a: seq<Byte>, t: seq<Byte>)
    ensures ReadBytes(a + t, |a|) == Got(a, t)
  {
  }

  lemma ReadConstBack(c: Const, t: seq<Byte>)
    requires ConstFits(c)
    ensures ReadConst(EncodeConst(c) + t) == Got(c, t)
  {
    match c
    case Num(bits) => ReadNumBack(bits, t);
    case Str(text) => ReadStrBack(text, t);
  }

  lemma ReadNumBack(bits: Double, t: seq<Byte>)
    ensures ReadConst(EncodeConst(Num(bits)) + t) == Got(Num(bits), t)
  {
    var s := EncodeConst(Num(bits)) + t;
    assert s[1..9] == bits && s[9..] == t;
  }

  lemma ReadStrBack(text: seq<Byte>, t: seq<Byte>)
    requires |text| < 0x1_0000
    ensures ReadConst(EncodeConst(Str(text)) + t) == Got(Str(text), t)
  {
    var s := EncodeConst(Str(text)) + t;
    assert s[1..] == Le16(|text|) + (text + t);
    Read16Back(|text|, text + t);
    ReadBytesBack(text, t);
  }

  lemma {:induction false} ReadConstsBack(cs: seq<Const>, t: seq<Byte>)
    requires AllFit(cs)
    ensures ReadConsts(EncodeEach(cs) + t, |cs|) == Got(cs, t)
  {
    if cs == [] {
      assert EncodeEach(cs) + t == t;
    } else {
      Assoc(EncodeConst(cs[0]), EncodeEach(cs[1..]), t);
      ReadConstBack(cs[0], EncodeEach(cs[1..]) + t);
      ReadConstsBack(cs[1..], t);
      assert [cs[0]] + cs[1..] == cs;
    }
  }

  lemma ReadPoolBack(cs: seq<Const>, t: seq<Byte>)
    requires ConstsFit(cs)
    ensures ReadPool(EncodePool(cs) + t) == Got(cs, t)
  {
    Assoc(Le16(|cs|), EncodeEach(cs), t);
    Read16Back(|cs|, EncodeEach(cs) + t);
    ReadConstsBack(cs, t);
  }

  lemma ReadCodeBack(code: seq<Byte>, t: seq<Byte>)
    requires |code| < 0x1_0000_0000
    ensures ReadCode(EncodeCode(code) + t) == Got(code, t)
  {
    Assoc(Le32(|code|), code, t);
    Read32Back(|code|, code + t);
    ReadBytesBack(code, t);
  }

  lemma {:induction false} ReadHashesBack(hs: seq<Word>, t: seq<Byte>)
    ensures ReadHashes(EncodeHashes(hs) + t, |hs|) == Got(hs, t)
  {
    if hs == [] {
      assert EncodeHashes(hs) + t == t;
    } else {
      Assoc(Le32(hs[0]), EncodeHashes(hs[1..]), t);
      Read32Back(hs[0], EncodeHashes(hs[1..]) + t);
      ReadHashesBack(hs[1..], t);
      assert [hs[0]] + hs[1..] == hs;
    }
  }

  lemma ReadStoredBack(f: Stored, t: seq<Byte>)
    requires StoredFits(f)
    ensures ReadStored(EncodeStored(f) + t) == Got(f, t)
  {
    var tail := EncodeCode(f.code) + t;
    var mid := EncodePool(f.consts) + tail;
    var all := EncodeHashes(f.hashes) + mid;
    assert EncodeStored(f) + t == Le16(|f.hashes|) + all;
    Read16Back(|f.hashes|, all);
    ReadHashesBack(f.hashes, mid);
    ReadPoolBack(f.consts, tail);
    ReadCodeBack(f.code, t);
  }

  lemma {:induction false} ReadAllBack(fs: seq<Stored>, t: seq<Byte>)
    requires AllStoredFit(fs)
    ensures ReadAll(EncodeAll(fs) + t, |fs|) == Got(fs, t)
  {
    if fs == [] {
      assert EncodeAll(fs) + t == t;
    } else {
      Assoc(EncodeStored(fs[0]), EncodeAll(fs[1..]), t);
      ReadStoredBack(fs[0], EncodeAll(fs[1..]) + t);
      ReadAllBack(fs[1..], t);
      assert [fs[0]] + fs[1..] == fs;
    }
  }

  /** A file determines the pool, the code and the functions it was written from. */
  lemma BlobRoundTrip(p: Image)
    requires Fits(p)
    ensures Decoded(Encode(p)) == Some(p)
  {
    var fs := EncodeAll(p.functions);
    var mid := Le16(|p.functions|) + fs;
    var code := EncodeCode(p.code) + mid;
    var pool := EncodePool(p.consts) + code;
    assert Encode(p) == HEADER + pool;
    assert (HEADER + pool)[..5] == HEADER && (HEADER + pool)[5..] == pool;
    ReadPoolBack(p.consts, code);
    ReadCodeBack(p.code, mid);
    Read16Back(|p.functions|, fs);
    assert fs + [] == fs;
    ReadAllBack(p.functions, []);
  }

  // ---------------------------------------------------------------- writing a file

  /** The file of a program with the one constant "a" and the one instruction RETURN. */
  lemma SampleFile(p: Image)
    requires p == Image([Str([97])], [RETURN], [])
    ensures Fits(p)
    ensures Encode(p) == [0x53, 0x47, 0x56, 0x4D, 2, 1, 0, 2, 1, 0, 97, 1, 0, 0, 0, 43, 0, 0]
  {
    var c: Const := Str([97]);
    assert EncodeEach([c][1..]) == [];
    assert EncodeEach([c]) == [2, 1, 0, 97];
    assert EncodePool([c]) == [1, 0, 2, 1, 0, 97];
    assert EncodeCode([RETURN]) == [1, 0, 0, 0, 43];
    assert EncodeAll([]) == [] && Le16(0) == [0, 0];
  }

  lemma {:induction false} EncodeEachSnoc(cs: seq<Const>, c: Const)
    requires AllFit(cs) && ConstFits(c)
    ensures EncodeEach(cs + [c]) == EncodeEach(cs) + EncodeConst(c)
  {
    if cs == [] {
      assert EncodeEach([c]) == EncodeConst(c) + EncodeEach([c][1..]);
    } else {
      assert (cs + [c])[1..] == cs[1..] + [c];
      EncodeEachSnoc(cs[1..], c);
      Assoc(EncodeConst(cs[0]), EncodeEach(cs[1..]), EncodeConst(c));
    }
  }

  method PackConst(c: Const) returns (r: Option<seq<Byte>>)
    ensures r == if ConstFits(c) then Some(EncodeConst(c)) else None
  {
    match c
    case Num(bits) =>
      r := Some([1] + bits);
    case Str(text) =>
      r := if |text| < 0x1_0000 then Some([2] + Le16(|text|) + text) else None;
  }

  lemma EachStep(consts: seq<Const>, i: nat)
    requires i < |consts| && AllFit(consts[..i]) && ConstFits(consts[i])
    ensures AllFit(consts[..i + 1]) && EncodeEach(consts[..i + 1]) == EncodeEach(consts[..i]) + EncodeConst(consts[i])
  {
    assert consts[..i + 1] == consts[..i] + [consts[i]];
    EncodeEachSnoc(consts[..i], consts[i]);
  }

  method PackEach(consts: seq<Const>) returns (r: Option<seq<Byte>>)
    ensures r == if AllFit(consts) then Some(EncodeEach(consts)) else None
  {
    var res := [];
    for i := 0 to |consts|
      invariant AllFit(consts[..i]) && res == EncodeEach(consts[..i])
    {
      var c := PackConst(consts[i]);
      if c.None? {
        return None;
      }
      EachStep(consts, i);
      res := res + c.value;
    }
    assert consts[..|consts|] == consts;
    r := Some(res);
  }

  /** pack_consts; None stands for the error struct.pack raises on a length that does not fit. */
  method PackConsts(consts: seq<Const>) returns (r: Option<seq<Byte>>)
    ensures r == if ConstsFit(consts) then Some(EncodePool(consts)) else None
  {
    if |consts| >= 0x1_0000 {
      return None;
    }
    var each := PackEach(consts);
    r := if each.None? then None else Some(Le16(|consts|) + each.value);
  }

  function Hashes(names: seq<seq<Byte>>): (hs: seq<Word>)
    ensures |hs| == |names|
  {
    if names == [] then [] else Hashes(names[..|names| - 1]) + [Hash(names[|names| - 1])]
  }

  function Hashed(f: Function): Stored { Stored(Hashes(f.params), f.consts, f.code) }

  function HashedAll(fs: seq<Function>): (r: seq<Stored>)
    ensures |r| == |fs|
  {
    if fs == [] then [] else HashedAll(fs[..|fs| - 1]) + [Hashed(fs[|fs| - 1])]
  }

  lemma {:induction false} EncodeHashesSnoc(hs: seq<Word>, h: Word)
    ensures EncodeHashes(hs + [h]) == EncodeHashes(hs) + Le32(h)
  {
    if hs == [] {
      assert EncodeHashes([h]) == Le32(h) + EncodeHashes([h][1..]);
    } else {
      assert (hs + [h])[1..] == hs[1..] + [h];
      EncodeHashesSnoc(hs[1..], h);
      Assoc(Le32(hs[0]), EncodeHashes(hs[1..]), Le32(h));
    }
  }

  lemma {:induction false} EncodeAllSnoc(fs: seq<Stored>, f: Stored)
    requires AllStoredFit(fs) && StoredFits(f)
    ensures EncodeAll(fs + [f]) == EncodeAll(fs) + EncodeStored(f)
  {
    if fs == [] {
      assert EncodeAll([f]) == EncodeStored(f) + EncodeAll([f][1..]);
    } else {
      assert (fs + [f])[1..] == fs[1..] + [f];
      EncodeAllSnoc(fs[1..], f);
      Assoc(EncodeStored(fs[0]), EncodeAll(fs[1..]), EncodeStored(f));
    }
  }

  method PackHashes(names: seq<seq<Byte>>) returns (r: seq<Byte>)
    ensures r == EncodeHashes(Hashes(names))
  {
    r := [];
    for i := 0 to |names|
      invariant r == EncodeHashes(Hashes(names[..i]))
    {
      var h := HashName(names[i]);
      EncodeHashesSnoc(Hashes(names[..i]), Hash(names[i]));
      assert names[..i + 1][..i] == names[..i];
      r := r + Le32(h as int);
    }
    assert names[..|names|] == names;
  }

  method PackFunction(f: Function) returns (r: Option<seq<Byte>>)
    ensures r == if StoredFits(Hashed(f)) then Some(EncodeStored(Hashed(f))) else None
  {
    if |f.params| >= 0x1_0000 {
      return None;
    }
    var blob := Le16(|f.params|);
    var hashes := PackHashes(f.params);
    var pool := PackConsts(f.consts);
    if pool.None? || |f.code| >= 0x1_0000_0000 {
      return None;
    }
    r := Some(blob + (hashes + (pool.value + (Le32(|f.code|) + f.code))));
  }

  lemma FunctionsStep(fs: seq<Function>, i: nat)
    requires i < |fs| && AllStoredFit(HashedAll(fs[..i])) && StoredFits(Hashed(fs[i]))
    ensures AllStoredFit(HashedAll(fs[..i + 1]))
    ensures EncodeAll(HashedAll(fs[..i + 1])) == EncodeAll(HashedAll(fs[..i])) + EncodeStored(Hashed(fs[i]))
  {
    assert fs[..i + 1][..i] == fs[..i];
    EncodeAllSnoc(HashedAll(fs[..i]), Hashed(fs[i]));
  }

  method PackFunctions(functions: seq<Function>) returns (r: Option<seq<Byte>>)
    ensures r == if AllStoredFit(HashedAll(functions)) then Some(EncodeAll(HashedAll(functions))) else None
  {
    var blob := [];
    for i := 0 to |functions|
      invariant AllStoredFit(HashedAll(functions[..i])) && blob == EncodeAll(HashedAll(functions[..i]))
    {
      var f := PackFunction(functions[i]);
      if f.None? {
        HashedAt(functions, i);
        return None;
      }
      FunctionsStep(functions, i);
      blob := blob + f.value;
    }
    assert functions[..|functions|] == functions;
    r := Some(blob);
  }

  /** The rest of main: link the chunks and lay the file out.  None stands for the error struct.pack raises. */
  method Compile(functions: seq<Function>, chunks: seq<Chunk>) returns (r: Option<seq<Byte>>)
    ensures var p := Image(Pool(chunks), Linked(chunks) + [RETURN], HashedAll(functions));
      r == if Fits(p) then Some(Encode(p)) else None
  {
    var consts, code := Link(chunks);
    var pool := PackConsts(consts);
    if pool.None? || |code| >= 0x1_0000_0000 || |functions| >= 0x1_0000 {
      return None;
    }
    var blob := PackFunctions(functions);
    if blob.None? {
      return None;
    }
    r := Some(HEADER + (pool.value + ((Le32(|code|) + code) + (Le16(|functions|) + blob.value))));
  }

  lemma {:induction false} HashedAt(fs: seq<Function>, k: nat)
    requires k < |fs|
    ensures HashedAll(fs)[k] == Hashed(fs[k])
  {
    if k < |fs| - 1 {
      HashedAt(fs[..|fs| - 1], k);
    }
  }

  /** Reading a compiled file back gives the functions with hashed names, and code that means, constants
      looked up, what the chunks mean one after the other. */
  lemma FileKeepsMeaning(functions: seq<Function>, chunks: seq<Chunk>)
    requires Linkable(chunks) && Fits(Image(Pool(chunks), Linked(chunks) + [RETURN], HashedAll(functions)))
    ensures var read := Decoded(Encode(Image(Pool(chunks), Linked(chunks) + [RETURN], HashedAll(functions))));
      && read.Some?
      && read.value.functions == HashedAll(functions)
      && WellFormed(Body(read.value.code))
      && IndicesBelow(Decode(Body(read.value.code)), |read.value.consts|)
      && Resolve(Decode(Body(read.value.code)), read.value.consts) == Meanings(chunks)
  {
    BlobRoundTrip(Image(Pool(chunks), Linked(chunks) + [RETURN], HashedAll(functions)));
    assert Body(Linked(chunks) + [RETURN]) == Linked(chunks);
    LinkPreservesMeaning(chunks);
  }
}
