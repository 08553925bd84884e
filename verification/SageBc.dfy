/** The SAGEBC1 text that scripts/compile_to_sgvm.py reads, as a list of lines.  A number stays the word it
    is written as; what float() makes of it is not modelled. */
module SageBc {
  import opened Bytes
  import opened Text

  datatype Item = Num(word: string) | Str(text: seq<Byte>)

  datatype Fn = Fn(params: seq<seq<Byte>>, consts: seq<Item>, code: seq<Byte>)

  datatype Piece = Piece(consts: seq<Item>, code: seq<Byte>)

  datatype Program = Program(functions: seq<Fn>, chunks: seq<Piece>)

  type Lines = seq<string>

  const K_PARAM := "param"
  const K_NUMBER := "number"
  const K_STRING := "string"
  const K_CONSTANTS := "constants"
  const K_CODE := "code"
  const K_ENDFUNCTION := "endfunction"
  const K_FUNCTION := "function"
  const K_ENDCHUNK := "endchunk"
  const K_CHUNK := "chunk"
  const K_PARAMS := "params"
  const K_FUNCTIONS := "functions"
  const K_CHUNKS := "chunks"
  const K_SAGEBC1 := "SAGEBC1"

  lemma KeywordsAreWords()
    ensures IsWord(K_PARAM) && IsWord(K_NUMBER) && IsWord(K_STRING) && IsWord(K_CONSTANTS) && IsWord(K_CODE)
    ensures IsWord(K_PARAMS) && IsWord(K_FUNCTIONS) && IsWord(K_CHUNKS)
  {
  }

  /** A parse step: what it found and the lines left, or the error that stops the parser. */
  datatype Parsed<T> = Fail | Got(value: T, rest: Lines)

  // ---------------------------------------------------------------- reading

  /** The values already read, followed by those still to come. */
  function After<T>(done: seq<T>, r: Parsed<seq<T>>): Parsed<seq<T>>
  {
    match r case Fail => Fail case Got(v, rest) => Got(done + v, rest)
  }

  lemma AfterNone<T>(r: Parsed<seq<T>>)
    ensures After([], r) == r
  {
    if r.Got? {
      assert [] + r.value == r.value;
    }
  }

  lemma AfterAfter<T>(a: seq<T>, b: seq<T>, r: Parsed<seq<T>>)
    ensures After(a, After(b, r)) == After(a + b, r)
  {
    if r.Got? {
      assert a + (b + r.value) == a + b + r.value;
    }
  }

  /** Reading n things one after the other, each with one. */
  function Many<T>(one: Lines -> Parsed<T>, ls: Lines, n: int): (r: Parsed<seq<T>>)
    decreases n
  {
    if n <= 0 then Got([], ls)
    else match one(ls)
         case Fail => Fail
         case Got(x, t) => After([x], Many(one, t, n - 1))
  }

  lemma ManyStep<T>(one: Lines -> Parsed<T>, done: seq<T>, ls: Lines, n: int)
    requires n > 0
    ensures match one(ls)
      case Fail => After(done, Many(one, ls, n)) == Fail
      case Got(x, t) => After(done, Many(one, ls, n)) == After(done + [x], Many(one, t, n - 1))
  {
    match one(ls)
    case Fail =>
    case Got(x, t) => AfterAfter(done, [x], Many(one, t, n - 1));
  }

  ghost predicate Shortens<T>(one: Lines -> Parsed<T>)
  {
    forall t: Lines {:trigger one(t)} :: one(t).Got? ==> |one(t).rest| <= |t|
  }

  lemma {:induction false} ManyShortens<T>(one: Lines -> Parsed<T>, ls: Lines, n: int)
    requires Shortens(one)
    ensures Many(one, ls, n).Got? ==> |Many(one, ls, n).rest| <= |ls|
    decreases n
  {
    if n > 0 {
      match one(ls)
      case Fail =>
      case Got(_, t) => ManyShortens(one, t, n - 1);
    }
  }

  predicate Starts(line: string, word: string) { word + [' '] <= line }

  /** int(lines[i].split()[1]) on the next line. */
  function Count(ls: Lines): (r: Parsed<int>)
    ensures r.Got? ==> |r.rest| <= |ls|
  {
    if ls == [] then Fail
    else match SecondWord(ls[0])
         case None => Fail
         case Some(w) => match Int(w) case None => Fail case Some(n) => Got(n, ls[1..])
  }

  /** A line that must start with the word, and its count. */
  function Counted(ls: Lines, word: string): (r: Parsed<int>)
    ensures r.Got? ==> |r.rest| <= |ls|
  {
    if ls == [] || !Starts(ls[0], word) then Fail else Count(ls)
  }

  function Payload(ls: Lines): (r: Parsed<seq<Byte>>)
    ensures r.Got? ==> |r.rest| <= |ls|
  {
    if ls == [] then Fail else match FromHex(ls[0]) case None => Fail case Some(d) => Got(d, ls[1..])
  }

  function Marker(ls: Lines, word: string): (r: Parsed<()>)
    ensures r.Got? ==> |r.rest| <= |ls|
  {
    if ls == [] || ls[0] != word then Fail else Got((), ls[1..])
  }

  /** The length on a param line is checked. */
  function Param(ls: Lines): (r: Parsed<seq<Byte>>)
    ensures r.Got? ==> |r.rest| <= |ls|
  {
    match Counted(ls, K_PARAM)
    case Fail => Fail
    case Got(n, t) => match Payload(t) case Fail => Fail case Got(d, u) => if |d| == n then Got(d, u) else Fail
  }

  function Params(ls: Lines, n: int): (r: Parsed<seq<seq<Byte>>>)
    ensures r.Got? ==> |r.rest| <= |ls|
  {
    ManyShortens(Param, ls, n);
    Many(Param, ls, n)
  }

  /** One constant; a line that is neither a number nor a string is left in place and gives no constant.
      The length on a string line is not checked. */
  function Constant(ls: Lines): (r: Parsed<seq<Item>>)
    ensures r.Got? ==> |r.rest| <= |ls|
  {
    if ls == [] then Fail
    else if Starts(ls[0], K_NUMBER) then
      match SecondWord(ls[0]) case None => Fail case Some(w) => Got([Num(w)], ls[1..])
    else if Starts(ls[0], K_STRING) then
      match Count(ls)
      case Fail => Fail
      case Got(_, t) => match Payload(t) case Fail => Fail case Got(d, u) => Got([Str(d)], u)
    else Got([], ls)
  }

  function Constants(ls: Lines, n: int): (r: Parsed<seq<Item>>)
    ensures r.Got? ==> |r.rest| <= |ls|
    decreases n
  {
    if n <= 0 then Got([], ls)
    else match Constant(ls)
         case Fail => Fail
         case Got(c, t) => After(c, Constants(t, n - 1))
  }

  /** constants, code and end marker; the length on the code line is not checked. */
  function Body(ls: Lines, end: string): (r: Parsed<Piece>)
    ensures r.Got? ==> |r.rest| <= |ls|
  {
    match Counted(ls, K_CONSTANTS)
    case Fail => Fail
    case Got(n, t) =>
      match Constants(t, n)
      case Fail => Fail
      case Got(cs, u) =>
        match Counted(u, K_CODE)
        case Fail => Fail
        case Got(_, v) =>
          match Payload(v)
          case Fail => Fail
          case Got(code, w) => match Marker(w, end) case Fail => Fail case Got(_, x) => Got(Piece(cs, code), x)
  }

  /** A function after its marker: parameters, then the body. */
  function FunctionRest(ls: Lines): (r: Parsed<Fn>)
    ensures r.Got? ==> |r.rest| <= |ls|
  {
    match Count(ls)
    case Fail => Fail
    case Got(n, t) =>
      match Params(t, n)
      case Fail => Fail
      case Got(ps, u) =>
        match Body(u, K_ENDFUNCTION)
        case Fail => Fail
        case Got(b, v) => Got(Fn(ps, b.consts, b.code), v)
  }

  function OneFunction(ls: Lines): (r: Parsed<Fn>)
    ensures r.Got? ==> |r.rest| <= |ls|
  {
    match Marker(ls, K_FUNCTION) case Fail => Fail case Got(_, t) => FunctionRest(t)
  }

  function Functions(ls: Lines, n: int): (r: Parsed<seq<Fn>>)
    ensures r.Got? ==> |r.rest| <= |ls|
  {
    ManyShortens(OneFunction, ls, n);
    Many(OneFunction, ls, n)
  }

  function OneChunk(ls: Lines): (r: Parsed<Piece>)
    ensures r.Got? ==> |r.rest| <= |ls|
  {
    match Marker(ls, K_CHUNK) case Fail => Fail case Got(_, t) => Body(t, K_ENDCHUNK)
  }

  function Chunks(ls: Lines, n: int): (r: Parsed<seq<Piece>>)
    ensures r.Got? ==> |r.rest| <= |ls|
  {
    ManyShortens(OneChunk, ls, n);
    Many(OneChunk, ls, n)
  }

  /** The section loop; a line that starts no section is skipped. */
  function Sections(ls: Lines, p: Program): (r: Option<Program>)
    decreases |ls|
  {
    if ls == [] then Some(p)
    else if Starts(ls[0], K_FUNCTIONS) then
      match Count(ls)
      case Fail => None
      case Got(n, t) =>
        (match Functions(t, n) case Fail => None case Got(fs, u) => Sections(u, p.(functions := p.functions + fs)))
    else if Starts(ls[0], K_CHUNKS) then
      match Count(ls)
      case Fail => None
      case Got(n, t) =>
        (match Chunks(t, n) case Fail => None case Got(cs, u) => Sections(u, p.(chunks := p.chunks + cs)))
    else Sections(ls[1..], p)
  }

  function Parse(ls: Lines): (r: Option<Program>)
  {
    if ls == [] || ls[0] != K_SAGEBC1 then None else Sections(ls[1..], Program([], []))
  }

  // ---------------------------------------------------------------- writing

  function CountLine(word: string, n: nat): string { word + [' '] + Dec(n) }

  function PrintMany<T>(show: T -> Lines, xs: seq<T>): (ls: Lines)
  {
    if xs == [] then [] else show(xs[0]) + PrintMany(show, xs[1..])
  }

  function PrintParam(d: seq<Byte>): Lines { [CountLine(K_PARAM, |d|), Hex(d)] }

  function PrintParams(ps: seq<seq<Byte>>): Lines { PrintMany(PrintParam, ps) }

  function PrintItem(c: Item): Lines
  {
    match c
    case Num(w) => [K_NUMBER + [' '] + w]
    case Str(d) => [CountLine(K_STRING, |d|), Hex(d)]
  }

  function PrintItems(cs: seq<Item>): Lines { PrintMany(PrintItem, cs) }

  function PrintBody(cs: seq<Item>, code: seq<Byte>, end: string): Lines
  {
    [CountLine(K_CONSTANTS, |cs|)] + (PrintItems(cs) + [CountLine(K_CODE, |code|), Hex(code), end])
  }

  function PrintFunction(f: Fn): Lines
  {
    [K_FUNCTION, CountLine(K_PARAMS, |f.params|)] + (PrintParams(f.params) + PrintBody(f.consts, f.code, K_ENDFUNCTION))
  }

  function PrintFunctions(fs: seq<Fn>): Lines { PrintMany(PrintFunction, fs) }

  function PrintChunk(c: Piece): Lines { [K_CHUNK] + PrintBody(c.consts, c.code, K_ENDCHUNK) }

  function PrintChunks(cs: seq<Piece>): Lines { PrintMany(PrintChunk, cs) }

  /** The lines that bytecode_program_write_file prints. */
  function Print(p: Program): Lines
  {
    [K_SAGEBC1, CountLine(K_FUNCTIONS, |p.functions|)] +
    (PrintFunctions(p.functions) + ([CountLine(K_CHUNKS, |p.chunks|)] + PrintChunks(p.chunks)))
  }

  predicate ItemsOk(cs: seq<Item>) { forall k :: 0 <= k < |cs| && cs[k].Num? ==> IsWord(cs[k].word) }

  predicate Printable(p: Program)
  {
    && (forall k :: 0 <= k < |p.functions| ==> ItemsOk(p.functions[k].consts))
    && (forall k :: 0 <= k < |p.chunks| ==> ItemsOk(p.chunks[k].consts))
  }

  // ---------------------------------------------------------------- round trip

  /** one reads back what show prints. */
  ghost predicate Recovers<T>(one: Lines -> Parsed<T>, show: T -> Lines, xs: seq<T>)
  {
    forall k, t: Lines {:trigger show(xs[k]) + t} :: 0 <= k < |xs| ==> one(show(xs[k]) + t) == Got(xs[k], t)
  }

  lemma {:induction false} ManyBack<T>(one: Lines -> Parsed<T>, show: T -> Lines, xs: seq<T>, t: Lines)
    requires Recovers(one, show, xs)
    ensures Many(one, PrintMany(show, xs) + t, |xs|) == Got(xs, t)
  {
    if xs == [] {
      assert PrintMany(show, xs) + t == t;
    } else {
      var rest := PrintMany(show, xs[1..]) + t;
      assert PrintMany(show, xs) + t == show(xs[0]) + rest;
      assert one(show(xs[0]) + rest) == Got(xs[0], rest);
      RecoversTail(one, show, xs);
      ManyBack(one, show, xs[1..], t);
      assert [xs[0]] + xs[1..] == xs;
    }
  }

  lemma RecoversTail<T>(one: Lines -> Parsed<T>, show: T -> Lines, xs: seq<T>)
    requires Recovers(one, show, xs) && xs != []
    ensures Recovers(one, show, xs[1..])
  {
    forall k, t: Lines | 0 <= k < |xs[1..]| ensures one(show(xs[1..][k]) + t) == Got(xs[1..][k], t) {
      assert xs[1..][k] == xs[k + 1];
      assert one(show(xs[k + 1]) + t) == Got(xs[k + 1], t);
    }
  }

  lemma CountBack(word: string, n: nat, t: Lines)
    requires IsWord(word)
    ensures Count([CountLine(word, n)] + t) == Got(n, t)
    ensures Counted([CountLine(word, n)] + t, word) == Got(n, t)
  {
    DecIsWord(n);
    SecondWordOf(word, Dec(n));
    IntOfDec(n);
    assert ([CountLine(word, n)] + t)[1..] == t;
  }

  lemma PayloadBack(d: seq<Byte>, t: Lines)
    ensures Payload([Hex(d)] + t) == Got(d, t)
  {
    HexRoundTrip(d);
    assert ([Hex(d)] + t)[1..] == t;
  }

  lemma SizedBack(word: string, d: seq<Byte>, t: Lines)
    requires IsWord(word)
    ensures Count([CountLine(word, |d|), Hex(d)] + t) == Got(|d|, [Hex(d)] + t)
    ensures Counted([CountLine(word, |d|), Hex(d)] + t, word) == Got(|d|, [Hex(d)] + t)
    ensures Payload([Hex(d)] + t) == Got(d, t)
  {
    assert [CountLine(word, |d|), Hex(d)] + t == [CountLine(word, |d|)] + ([Hex(d)] + t);
    CountBack(word, |d|, [Hex(d)] + t);
    PayloadBack(d, t);
  }

  lemma ParamBack(d: seq<Byte>, t: Lines)
    ensures Param(PrintParam(d) + t) == Got(d, t)
  {
    KeywordsAreWords();
    SizedBack(K_PARAM, d, t);
  }

  lemma ParamsBack(ps: seq<seq<Byte>>, t: Lines)
    ensures Params(PrintParams(ps) + t, |ps|) == Got(ps, t)
  {
    forall k, u: Lines | 0 <= k < |ps| ensures Param(PrintParam(ps[k]) + u) == Got(ps[k], u) {
      ParamBack(ps[k], u);
    }
    ManyBack(Param, PrintParam, ps, t);
  }

  lemma NotNumber(n: nat)
    ensures !Starts(CountLine(K_STRING, n), K_NUMBER) && Starts(CountLine(K_STRING, n), K_STRING)
  {
    assert CountLine(K_STRING, n)[0] == 's' && (K_NUMBER + [' '])[0] == 'n';
  }

  lemma ItemBack(c: Item, t: Lines)
    requires c.Num? ==> IsWord(c.word)
    ensures Constant(PrintItem(c) + t) == Got([c], t)
  {
    KeywordsAreWords();
    match c
    case Num(w) =>
      SecondWordOf(K_NUMBER, w);
      assert (PrintItem(c) + t)[1..] == t;
    case Str(d) =>
      NotNumber(|d|);
      SizedBack(K_STRING, d, t);
  }

  lemma {:induction false} ItemsBack(cs: seq<Item>, t: Lines)
    requires ItemsOk(cs)
    ensures Constants(PrintItems(cs) + t, |cs|) == Got(cs, t)
  {
    if cs == [] {
      assert PrintItems(cs) + t == t;
    } else {
      Assoc(PrintItem(cs[0]), PrintItems(cs[1..]), t);
      ItemBack(cs[0], PrintItems(cs[1..]) + t);
      ItemsBack(cs[1..], t);
      assert [cs[0]] + cs[1..] == cs;
    }
  }

  lemma BodyBack(cs: seq<Item>, code: seq<Byte>, end: string, t: Lines)
    requires ItemsOk(cs)
    ensures Body(PrintBody(cs, code, end) + t, end) == Got(Piece(cs, code), t)
  {
    KeywordsAreWords();
    var last := [end] + t;
    var tail := [CountLine(K_CODE, |code|)] + ([Hex(code)] + last);
    assert PrintBody(cs, code, end) + t == [CountLine(K_CONSTANTS, |cs|)] + (PrintItems(cs) + tail);
    CountBack(K_CONSTANTS, |cs|, PrintItems(cs) + tail);
    ItemsBack(cs, tail);
    CountBack(K_CODE, |code|, [Hex(code)] + last);
    PayloadBack(code, last);
    assert last[1..] == t;
  }

  lemma FunctionRestBack(f: Fn, t: Lines)
    requires ItemsOk(f.consts)
    ensures var body := PrintBody(f.consts, f.code, K_ENDFUNCTION);
      FunctionRest([CountLine(K_PARAMS, |f.params|)] + (PrintParams(f.params) + (body + t))) == Got(f, t)
  {
    var body := PrintBody(f.consts, f.code, K_ENDFUNCTION) + t;
    KeywordsAreWords();
    CountBack(K_PARAMS, |f.params|, PrintParams(f.params) + body);
    ParamsBack(f.params, body);
    BodyBack(f.consts, f.code, K_ENDFUNCTION, t);
  }

  lemma FunctionBack(f: Fn, t: Lines)
    requires ItemsOk(f.consts)
    ensures OneFunction(PrintFunction(f) + t) == Got(f, t)
  {
    var body := PrintBody(f.consts, f.code, K_ENDFUNCTION) + t;
    var rest := [CountLine(K_PARAMS, |f.params|)] + (PrintParams(f.params) + body);
    assert PrintFunction(f) + t == [K_FUNCTION] + rest;
    assert ([K_FUNCTION] + rest)[1..] == rest;
    FunctionRestBack(f, t);
  }

  lemma FunctionsBack(fs: seq<Fn>, t: Lines)
    requires forall k :: 0 <= k < |fs| ==> ItemsOk(fs[k].consts)
    ensures Functions(PrintFunctions(fs) + t, |fs|) == Got(fs, t)
  {
    forall k, u: Lines | 0 <= k < |fs| ensures OneFunction(PrintFunction(fs[k]) + u) == Got(fs[k], u) {
      FunctionBack(fs[k], u);
    }
    ManyBack(OneFunction, PrintFunction, fs, t);
  }

  lemma ChunkBack(c: Piece, t: Lines)
    requires ItemsOk(c.consts)
    ensures OneChunk(PrintChunk(c) + t) == Got(c, t)
  {
    var body := PrintBody(c.consts, c.code, K_ENDCHUNK) + t;
    assert PrintChunk(c) + t == [K_CHUNK] + body;
    assert ([K_CHUNK] + body)[1..] == body;
    BodyBack(c.consts, c.code, K_ENDCHUNK, t);
  }

  lemma ChunksBack(cs: seq<Piece>, t: Lines)
    requires forall k :: 0 <= k < |cs| ==> ItemsOk(cs[k].consts)
    ensures Chunks(PrintChunks(cs) + t, |cs|) == Got(cs, t)
  {
    forall k, u: Lines | 0 <= k < |cs| ensures OneChunk(PrintChunk(cs[k]) + u) == Got(cs[k], u) {
      ChunkBack(cs[k], u);
    }
    ManyBack(OneChunk, PrintChunk, cs, t);
  }

  lemma SectionHeads(n: nat)
    ensures Starts(CountLine(K_FUNCTIONS, n), K_FUNCTIONS)
    ensures Starts(CountLine(K_CHUNKS, n), K_CHUNKS) && !Starts(CountLine(K_CHUNKS, n), K_FUNCTIONS)
  {
    assert CountLine(K_CHUNKS, n)[0] == 'c' && (K_FUNCTIONS + [' '])[0] == 'f';
  }

  lemma ChunkSection(cs: seq<Piece>, p: Program)
    requires forall k :: 0 <= k < |cs| ==> ItemsOk(cs[k].consts)
    ensures Sections([CountLine(K_CHUNKS, |cs|)] + PrintChunks(cs), p) == Some(p.(chunks := p.chunks + cs))
  {
    KeywordsAreWords();
    SectionHeads(|cs|);
    CountBack(K_CHUNKS, |cs|, PrintChunks(cs));
    ChunksBack(cs, []);
    assert PrintChunks(cs) + [] == PrintChunks(cs);
  }

  lemma FunctionSection(fs: seq<Fn>, t: Lines, p: Program)
    requires forall k :: 0 <= k < |fs| ==> ItemsOk(fs[k].consts)
    ensures Sections([CountLine(K_FUNCTIONS, |fs|)] + (PrintFunctions(fs) + t), p)
      == Sections(t, p.(functions := p.functions + fs))
  {
    KeywordsAreWords();
    SectionHeads(|fs|);
    CountBack(K_FUNCTIONS, |fs|, PrintFunctions(fs) + t);
    FunctionsBack(fs, t);
  }

  lemma SampleLines()
    ensures CountLine(K_FUNCTIONS, 0) == "functions 0" && CountLine(K_CHUNKS, 1) == "chunks 1"
    ensures CountLine(K_CONSTANTS, 1) == "constants 1" && CountLine(K_CODE, 4) == "code 4"
    ensures Hex([0, 0, 0, 43]) == "0000002b"
  {
    assert Dec(0) == "0" && Dec(1) == "1" && Dec(4) == "4";
    var code: seq<Byte> := [0, 0, 0, 43];
    assert code[1..] == [0, 0, 43] && code[1..][1..] == [0, 43] && code[1..][1..][1..] == [43];
    assert Hex([43]) == "2b" && Hex([0, 43]) == "002b" && Hex([0, 0, 43]) == "00002b";
  }

  lemma PrintOne<T>(show: T -> Lines, x: T)
    ensures PrintMany(show, [x]) == show(x)
  {
    assert [x][1..] == [];
    assert show(x) + [] == show(x);
  }

  /** The text of a program with one chunk, whose one constant is the number 1. */
  lemma SampleText(p: Program)
    requires p == Program([], [Piece([Num("1")], [0, 0, 0, 43])])
    ensures Print(p) == ["SAGEBC1", "functions 0", "chunks 1", "chunk", "constants 1", "number 1", "code 4",
                         "0000002b", "endchunk"]
  {
    SampleLines();
    PrintOne(PrintItem, Num("1"));
    assert K_NUMBER + [' '] + "1" == "number 1";
    PrintOne(PrintChunk, p.chunks[0]);
  }

  /** The parser recovers every program from the text it is printed as. */
  lemma TextRoundTrip(p: Program)
    requires Printable(p)
    ensures Parse(Print(p)) == Some(p)
  {
    var tail := [CountLine(K_CHUNKS, |p.chunks|)] + PrintChunks(p.chunks);
    var rest := [CountLine(K_FUNCTIONS, |p.functions|)] + (PrintFunctions(p.functions) + tail);
    assert Print(p) == [K_SAGEBC1] + rest;
    assert ([K_SAGEBC1] + rest)[1..] == rest;
    FunctionSection(p.functions, tail, Program([], []));
    assert [] + p.functions == p.functions && [] + p.chunks == p.chunks;
    ChunkSection(p.chunks, Program(p.functions, []));
  }

  // ---------------------------------------------------------------- the parser's loops

  /** one reads a parameter. */
  ghost predicate ReadsParam(one: Lines -> Parsed<seq<Byte>>)
  {
    forall t: Lines {:trigger Param(t)} :: one(t) == Param(t)
  }

  method ReadNextParam(t: Lines, ghost one: Lines -> Parsed<seq<Byte>>) returns (p: Parsed<seq<Byte>>)
    requires ReadsParam(one)
    ensures p == one(t)
  {
    p := Param(t);
  }

  /** The loop, for which one stands for the reading of a parameter. */
  method ReadParamsTo(ls: Lines, n: int, ghost one: Lines -> Parsed<seq<Byte>>) returns (r: Parsed<seq<seq<Byte>>>)
    requires ReadsParam(one)
    ensures r == Many(one, ls, n)
  {
    var ps, t, left := [], ls, n;
    ghost var goal := Many(one, ls, n);
    AfterNone(goal);
    while left > 0
      invariant After(ps, Many(one, t, left)) == goal
    {
      ManyStep(one, ps, t, left);
      var p := ReadNextParam(t, one);
      if p.Fail? { return Fail; }
      ps, t, left := ps + [p.value], p.rest, left - 1;
    }
    assert ps + [] == ps;
    r := Got(ps, t);
  }

  method ReadParams(ls: Lines, n: int) returns (r: Parsed<seq<seq<Byte>>>)
    ensures r == Params(ls, n)
  {
    r := ReadParamsTo(ls, n, Param);
  }

  method ReadConstants(ls: Lines, n: int) returns (r: Parsed<seq<Item>>)
    ensures r == Constants(ls, n)
  {
    var cs, t, left := [], ls, n;
    ghost var goal := Constants(ls, n);
    AfterNone(goal);
    while left > 0
      invariant After(cs, Constants(t, left)) == goal
    {
      match Constant(t)
      case Fail => return Fail;
      case Got(c, u) =>
        AfterAfter(cs, c, Constants(u, left - 1));
        cs, t, left := cs + c, u, left - 1;
    }
    assert cs + [] == cs;
    r := Got(cs, t);
  }

  method ReadBody(ls: Lines, end: string) returns (r: Parsed<Piece>)
    ensures r == Body(ls, end)
  {
    var n := Counted(ls, K_CONSTANTS);
    if n.Fail? { return Fail; }
    var cs := ReadConstants(n.rest, n.value);
    if cs.Fail? { return Fail; }
    var len := Counted(cs.rest, K_CODE);
    if len.Fail? { return Fail; }
    var code := Payload(len.rest);
    if code.Fail? { return Fail; }
    var mark := Marker(code.rest, end);
    if mark.Fail? { return Fail; }
    r := Got(Piece(cs.value, code.value), mark.rest);
  }

  method ReadFunction(ls: Lines) returns (r: Parsed<Fn>)
    ensures r == OneFunction(ls)
  {
    var mark := Marker(ls, K_FUNCTION);
    if mark.Fail? { return Fail; }
    var n := Count(mark.rest);
    if n.Fail? { return Fail; }
    var ps := ReadParams(n.rest, n.value);
    if ps.Fail? { return Fail; }
    var body := ReadBody(ps.rest, K_ENDFUNCTION);
    if body.Fail? { return Fail; }
    r := Got(Fn(ps.value, body.value.consts, body.value.code), body.rest);
  }

  /** one reads a function. */
  ghost predicate ReadsFunction(one: Lines -> Parsed<Fn>)
  {
    forall t: Lines {:trigger OneFunction(t)} :: one(t) == OneFunction(t)
  }

  method ReadNextFunction(t: Lines, ghost one: Lines -> Parsed<Fn>) returns (f: Parsed<Fn>)
    requires ReadsFunction(one)
    ensures f == one(t)
  {
    f := ReadFunction(t);
  }

  /** The loop, for which one stands for the reading of a function. */
  method ReadFunctionsTo(ls: Lines, n: int, ghost one: Lines -> Parsed<Fn>) returns (r: Parsed<seq<Fn>>)
    requires ReadsFunction(one)
    ensures r == Many(one, ls, n)
  {
    var fs, t, left := [], ls, n;
    ghost var goal := Many(one, ls, n);
    AfterNone(goal);
    while left > 0
      invariant After(fs, Many(one, t, left)) == goal
    {
      ManyStep(one, fs, t, left);
      var f := ReadNextFunction(t, one);
      if f.Fail? { return Fail; }
      fs, t, left := fs + [f.value], f.rest, left - 1;
    }
    assert fs + [] == fs;
    r := Got(fs, t);
  }

  method ReadFunctions(ls: Lines, n: int) returns (r: Parsed<seq<Fn>>)
    ensures r == Functions(ls, n)
  {
    r := ReadFunctionsTo(ls, n, OneFunction);
  }

  method ReadChunk(ls: Lines) returns (r: Parsed<Piece>)
    ensures r == OneChunk(ls)
  {
    var mark := Marker(ls, K_CHUNK);
    if mark.Fail? { return Fail; }
    r := ReadBody(mark.rest, K_ENDCHUNK);
  }

  /** one reads a chunk. */
  ghost predicate ReadsChunk(one: Lines -> Parsed<Piece>)
  {
    forall t: Lines {:trigger OneChunk(t)} :: one(t) == OneChunk(t)
  }

  method ReadNextChunk(t: Lines, ghost one: Lines -> Parsed<Piece>) returns (c: Parsed<Piece>)
    requires ReadsChunk(one)
    ensures c == one(t)
  {
    c := ReadChunk(t);
  }

  /** The loop, for which one stands for the reading of a chunk. */
  method ReadChunksTo(ls: Lines, n: int, ghost one: Lines -> Parsed<Piece>) returns (r: Parsed<seq<Piece>>)
    requires ReadsChunk(one)
    ensures r == Many(one, ls, n)
  {
    var cs, t, left := [], ls, n;
    ghost var goal := Many(one, ls, n);
    AfterNone(goal);
    while left > 0
      invariant After(cs, Many(one, t, left)) == goal
    {
      ManyStep(one, cs, t, left);
      var c := ReadNextChunk(t, one);
      if c.Fail? { return Fail; }
      cs, t, left := cs + [c.value], c.rest, left - 1;
    }
    assert cs + [] == cs;
    r := Got(cs, t);
  }

  method ReadChunks(ls: Lines, n: int) returns (r: Parsed<seq<Piece>>)
    ensures r == Chunks(ls, n)
  {
    r := ReadChunksTo(ls, n, OneChunk);
  }

  /** parse_sagebc; None stands for the exception it raises. */
  method ParseFile(lines: Lines) returns (r: Option<Program>)
    ensures r == Parse(lines)
  {
    if lines == [] || lines[0] != K_SAGEBC1 { return None; }
    var p, ls := Program([], []), lines[1..];
    while ls != []
      invariant Sections(ls, p) == Parse(lines)
      decreases |ls|
    {
      if Starts(ls[0], K_FUNCTIONS) {
        var n := Count(ls);
        if n.Fail? { return None; }
        var fs := ReadFunctions(n.rest, n.value);
        if fs.Fail? { return None; }
        p, ls := p.(functions := p.functions + fs.value), fs.rest;
      } else if Starts(ls[0], K_CHUNKS) {
        var n := Count(ls);
        if n.Fail? { return None; }
        var cs := ReadChunks(n.rest, n.value);
        if cs.Fail? { return None; }
        p, ls := p.(chunks := p.chunks + cs.value), cs.rest;
      } else {
        ls := ls[1..];
      }
    }
    r := Some(p);
  }
}
