/** Properties of objects in linked code: GET_PROPERTY and SET_PROPERTY of
    sageos_build/kernel/core/sagelang/metal_vm.c take the constant index of the property's name for the key, and
    linking changes that index. */
module PropertyKeys {
  import opened Bytes
  import opened LinkCode
  import opened Linker
  import opened Machine
  import Sgvm

  // ---------------------------------------------------------------- dictionaries

  /** A value of the machine; all that matters here is which one is nil. */
  datatype Value = Nil | Other(tag: nat, bits: nat)

  datatype Entry = Entry(key: nat, value: Value)

  const MAX_ENTRIES := 64

  /** The position of a key, or the number of entries. */
  function Find(d: seq<Entry>, key: nat): (i: nat)
    ensures i <= |d| && (i < |d| ==> d[i].key == key)
    ensures forall k :: 0 <= k < i ==> d[k].key != key
  {
    if d == [] || d[0].key == key then 0 else 1 + Find(d[1..], key)
  }

  /** metal_dict_get */
  function Get(d: seq<Entry>, key: nat): (r: Value)
  {
    if Find(d, key) < |d| then d[Find(d, key)].value else Nil
  }

  /** metal_dict_set; a full dictionary takes no new key. */
  function Set(d: seq<Entry>, key: nat, value: Value): (r: seq<Entry>)
  {
    if Find(d, key) < |d| then d[Find(d, key) := Entry(key, value)]
    else if |d| < MAX_ENTRIES then d + [Entry(key, value)]
    else d
  }

  lemma FindIs(d: seq<Entry>, key: nat, i: nat)
    requires i <= |d| && (i < |d| ==> d[i].key == key) && forall k :: 0 <= k < i ==> d[k].key != key
    ensures Find(d, key) == i
  {
  }

  /** The dictionary has the key or room for it. */
  predicate Takes(d: seq<Entry>, key: nat) { Find(d, key) < |d| || |d| < MAX_ENTRIES }

  lemma TakesExactly(d: seq<Entry>, key: nat)
    ensures Takes(d, key) <==> |d| < 64 || exists i :: 0 <= i < |d| && d[i].key == key
  {
  }

  /** A dictionary gives what was set last under a key if it took it, and under other keys what it gave before. */
  lemma GetAfterSet(d: seq<Entry>, key: nat, value: Value, other: nat)
    ensures Get(Set(d, key, value), other) == if other == key && Takes(d, key) then value else Get(d, other)
  {
    var u := Set(d, key, value);
    if !Takes(d, key) {
      assert u == d;
    } else if Find(d, key) < |d| || other != key {
      FindIs(u, other, if Find(d, other) < |d| || Find(d, key) < |d| then Find(d, other) else |u|);
    } else {
      FindIs(u, other, |d|);
    }
  }

  function Zip(ks: seq<nat>, vs: seq<Value>): (d: seq<Entry>)
    requires |ks| == |vs|
    ensures |d| == |ks| && forall i :: 0 <= i < |ks| ==> d[i] == Entry(ks[i], vs[i])
  {
    seq(|ks|, i requires 0 <= i < |ks| => Entry(ks[i], vs[i]))
  }

  class Dict {
    const keys: array<nat>
    const values: array<Value>
    var count: nat

    ghost predicate Valid()
      reads this
    {
      keys.Length == MAX_ENTRIES && values.Length == MAX_ENTRIES && count <= MAX_ENTRIES
    }

    ghost function Abs(): (d: seq<Entry>)
      reads this, keys, values
      requires Valid()
    {
      Zip(keys[..count], values[..count])
    }

    constructor ()
      ensures Valid() && fresh(keys) && fresh(values) && Abs() == []
    {
      keys, values, count := new nat[MAX_ENTRIES](_ => 0), new Value[MAX_ENTRIES](_ => Nil), 0;
    }

    method Lookup(key: nat) returns (i: nat)
      requires Valid()
      ensures i == Find(Abs(), key)
    {
      i := 0;
      while i < count && keys[i] != key
        invariant i <= count && forall k :: 0 <= k < i ==> keys[k] != key
      {
        i := i + 1;
      }
      FindIs(Abs(), key, i);
    }

    method DictSet(key: nat, value: Value)
      requires Valid()
      modifies this, keys, values
      ensures Valid() && Abs() == Set(old(Abs()), key, value)
    {
      var i := Lookup(key);
      if i < count {
        values[i] := value;
        assert Abs() == old(Abs())[i := Entry(key, value)];
      } else if count < MAX_ENTRIES {
        keys[count] := key;
        values[count] := value;
        count := count + 1;
        assert Abs() == old(Abs()) + [Entry(key, value)];
      }
    }

    method DictGet(key: nat) returns (r: Value)
      requires Valid()
      ensures r == Get(Abs(), key)
    {
      var i := Lookup(key);
      r := if i < count then values[i] else Nil;
    }
  }

  // ---------------------------------------------------------------- the key of a property

  /** GET_PROPERTY or SET_PROPERTY. */
  predicate OnProperty(i: Instr) { i.op in {9, 10} && |i.indices| == 1 }

  /** Instruction i of chunk k reads or sets a property. */
  predicate PropertyAt(chunks: seq<Chunk>, k: int, i: int)
    requires Linkable(chunks)
  {
    && 0 <= k < |chunks| && 0 <= i < |Instrs(chunks, k)|
    && OnProperty(Instrs(chunks, k)[i])
  }

  function NameIndex(chunks: seq<Chunk>, k: nat, i: nat): (n: nat)
    requires Linkable(chunks) && PropertyAt(chunks, k, i)
    ensures n < |chunks[k].consts|
  {
    assert ChunkOk(chunks[k]);
    Instrs(chunks, k)[i].indices[0]
  }

  /** The property's name in the source of the chunk. */
  function Name(chunks: seq<Chunk>, k: nat, i: nat): (c: Const)
    requires Linkable(chunks) && PropertyAt(chunks, k, i)
  {
    chunks[k].consts[NameIndex(chunks, k, i)]
  }

  lemma RaiseOne(i: Instr, base: nat)
    requires |i.indices| == 1
    ensures Raise(i, base).op == i.op && Raise(i, base).indices == [base + i.indices[0]]
  {
  }

  /** The instruction as the machine reads it in the linked code. */
  lemma LinkedReads(chunks: seq<Chunk>, k: nat, i: nat)
    requires Linkable(chunks) && ChunksAgree(chunks) && k < |chunks| && i < |Instrs(chunks, k)|
    ensures Readable(Linked(chunks)) && Start(chunks, k) + i < |Program(Linked(chunks))|
    ensures Program(Linked(chunks))[Start(chunks, k) + i] == Raise(Instrs(chunks, k)[i], |Pool(chunks[..k])|)
  {
    LinkedAgrees(chunks);
    SameProgram(Linked(chunks));
    LinkedInstr(chunks, k, i);
  }

  /** The instruction that the machine finds in the linked code for instruction i of chunk k. */
  ghost function LinkedAt(chunks: seq<Chunk>, k: nat, i: nat): (r: Instr)
    requires Linkable(chunks) && ChunksAgree(chunks) && k < |chunks| && i < |Instrs(chunks, k)|
    ensures r == Raise(Instrs(chunks, k)[i], |Pool(chunks[..k])|)
  {
    LinkedReads(chunks, k, i);
    Program(Linked(chunks))[Start(chunks, k) + i]
  }

  /** The key by which the machine reads or sets the property in the linked code. */
  ghost function Key(chunks: seq<Chunk>, k: nat, i: nat): (key: nat)
    requires Linkable(chunks) && ChunksAgree(chunks) && PropertyAt(chunks, k, i)
    ensures key == |Pool(chunks[..k])| + NameIndex(chunks, k, i)
  {
    RaiseOne(Instrs(chunks, k)[i], |Pool(chunks[..k])|);
    LinkedAt(chunks, k, i).indices[0]
  }

  lemma {:induction false} PoolsInOrder(chunks: seq<Chunk>, k: nat, l: nat)
    requires k < l <= |chunks|
    ensures |Pool(chunks[..k])| + |chunks[k].consts| <= |Pool(chunks[..l])|
    decreases l
  {
    assert chunks[..l][..l - 1] == chunks[..l - 1];
    if k < l - 1 {
      PoolsInOrder(chunks, k, l - 1);
    }
  }

  lemma LaterKeyIsLarger(chunks: seq<Chunk>, k: nat, i: nat, l: nat, j: nat)
    requires Linkable(chunks) && ChunksAgree(chunks) && PropertyAt(chunks, k, i) && PropertyAt(chunks, l, j) && k < l
    ensures Key(chunks, k, i) < Key(chunks, l, j)
  {
    PoolsInOrder(chunks, k, l);
  }

  /** Two property instructions use one key exactly when they stand in one chunk and name one constant of it. */
  lemma SameKeyExactly(chunks: seq<Chunk>, k: nat, i: nat, l: nat, j: nat)
    requires Linkable(chunks) && ChunksAgree(chunks) && PropertyAt(chunks, k, i) && PropertyAt(chunks, l, j)
    ensures Key(chunks, k, i) == Key(chunks, l, j) <==> k == l && NameIndex(chunks, k, i) == NameIndex(chunks, l, j)
  {
    if k < l {
      LaterKeyIsLarger(chunks, k, i, l, j);
    } else if l < k {
      LaterKeyIsLarger(chunks, l, j, k, i);
    }
  }

  ghost predicate KeysFollowNames(chunks: seq<Chunk>)
    requires Linkable(chunks) && ChunksAgree(chunks)
  {
    forall k, i, l, j :: PropertyAt(chunks, k, i) && PropertyAt(chunks, l, j) ==>
      (Key(chunks, k, i) == Key(chunks, l, j) <==> Name(chunks, k, i) == Name(chunks, l, j))
  }

  /** No property name is used from two places of the chunks' pools. */
  ghost predicate NamesOnce(chunks: seq<Chunk>)
    requires Linkable(chunks)
  {
    forall k, i, l, j :: PropertyAt(chunks, k, i) && PropertyAt(chunks, l, j) ==>
      (Name(chunks, k, i) == Name(chunks, l, j) ==> k == l && NameIndex(chunks, k, i) == NameIndex(chunks, l, j))
  }

  /** In linked code properties go by their names exactly when no name is used from two chunks, nor twice from
      the pool of one. */
  lemma PropertiesByNameExactly(chunks: seq<Chunk>)
    requires Linkable(chunks) && ChunksAgree(chunks)
    ensures KeysFollowNames(chunks) <==> NamesOnce(chunks)
  {
    forall k, i, l, j | PropertyAt(chunks, k, i) && PropertyAt(chunks, l, j)
      ensures Key(chunks, k, i) == Key(chunks, l, j)
        <==> k == l && NameIndex(chunks, k, i) == NameIndex(chunks, l, j)
    {
      SameKeyExactly(chunks, k, i, l, j);
    }
  }

  /** What instruction j of chunk l reads after instruction i of chunk k has set the property of an object. */
  lemma ReadAfterSet(chunks: seq<Chunk>, k: nat, i: nat, l: nat, j: nat, obj: seq<Entry>, value: Value)
    requires Linkable(chunks) && ChunksAgree(chunks) && PropertyAt(chunks, k, i) && PropertyAt(chunks, l, j)
    ensures Get(Set(obj, Key(chunks, k, i), value), Key(chunks, l, j))
      == if k == l && NameIndex(chunks, k, i) == NameIndex(chunks, l, j) && Takes(obj, Key(chunks, k, i)) then value
         else Get(obj, Key(chunks, l, j))
  {
    SameKeyExactly(chunks, k, i, l, j);
    GetAfterSet(obj, Key(chunks, k, i), value, Key(chunks, l, j));
  }

  // ---------------------------------------------------------------- the properties of a whole file

  /** The parsed program that becomes a file: the chunks are linked, the functions stored as they are. */
  datatype File = File(chunks: seq<Chunk>, functions: seq<Sgvm.Function>)

  /** Where a property instruction stands. */
  datatype Site = InChunk(k: nat, i: nat) | InFunction(f: nat, i: nat)

  predicate FunctionOk(f: Sgvm.Function) { Readable(f.code) && IndicesBelow(Program(f.code), |f.consts|) }

  predicate FileOk(p: File)
  {
    && Linkable(p.chunks) && ChunksAgree(p.chunks)
    && forall f :: 0 <= f < |p.functions| ==> FunctionOk(p.functions[f])
  }

  /** Instruction i of the function, as the machine reads it, reads or sets a property. */
  predicate FunctionPropertyAt(f: Sgvm.Function, i: nat)
    requires FunctionOk(f)
  {
    i < |Program(f.code)| && OnProperty(Program(f.code)[i])
  }

  predicate IsSite(p: File, s: Site)
    requires FileOk(p)
  {
    match s
    case InChunk(k, i) => PropertyAt(p.chunks, k, i)
    case InFunction(f, i) => f < |p.functions| && FunctionPropertyAt(p.functions[f], i)
  }

  function FunctionIndex(f: Sgvm.Function, i: nat): (n: nat)
    requires FunctionOk(f) && FunctionPropertyAt(f, i)
    ensures n < |f.consts|
  {
    Program(f.code)[i].indices[0]
  }

  /** The property's name in the source. */
  function SiteName(p: File, s: Site): (c: Const)
    requires FileOk(p) && IsSite(p, s)
  {
    match s
    case InChunk(k, i) => Name(p.chunks, k, i)
    case InFunction(f, i) => p.functions[f].consts[FunctionIndex(p.functions[f], i)]
  }

  /** The key by which the machine reads or sets the property, from the linked code or the code that the file
      stores for the function. */
  ghost function SiteKey(p: File, s: Site): (key: nat)
    requires FileOk(p) && IsSite(p, s)
  {
    match s
    case InChunk(k, i) => Key(p.chunks, k, i)
    case InFunction(f, i) => Program(Sgvm.Hashed(p.functions[f]).code)[i].indices[0]
  }

  /** The place of the name: its position in the linked pool, or in the function's own. */
  function Place(p: File, s: Site): (n: nat)
    requires FileOk(p) && IsSite(p, s)
  {
    match s
    case InChunk(k, i) => |Pool(p.chunks[..k])| + NameIndex(p.chunks, k, i)
    case InFunction(f, i) => FunctionIndex(p.functions[f], i)
  }

  lemma KeyIsPlace(p: File, s: Site)
    requires FileOk(p) && IsSite(p, s)
    ensures SiteKey(p, s) == Place(p, s)
  {
  }

  ghost predicate FileKeysFollowNames(p: File)
    requires FileOk(p)
  {
    forall a, b :: IsSite(p, a) && IsSite(p, b) ==>
      (SiteKey(p, a) == SiteKey(p, b) <==> SiteName(p, a) == SiteName(p, b))
  }

  /** No property name is used from two places. */
  ghost predicate OnePlaceEach(p: File)
    requires FileOk(p)
  {
    forall a, b :: IsSite(p, a) && IsSite(p, b) ==>
      (SiteName(p, a) == SiteName(p, b) ==> Place(p, a) == Place(p, b))
  }

  /** No function uses a place for one name that anyone uses for another. */
  ghost predicate NoClash(p: File)
    requires FileOk(p)
  {
    forall a, b :: IsSite(p, a) && IsSite(p, b) && a.InFunction? ==>
      (Place(p, a) == Place(p, b) ==> SiteName(p, a) == SiteName(p, b))
  }

  lemma SamePlaceSameName(p: File, a: Site, b: Site)
    requires FileOk(p) && IsSite(p, a) && IsSite(p, b) && NoClash(p) && Place(p, a) == Place(p, b)
    ensures SiteName(p, a) == SiteName(p, b)
  {
    if a.InChunk? && b.InChunk? {
      SameKeyExactly(p.chunks, a.k, a.i, b.k, b.i);
    }
  }

  /** In a compiled file, functions included, properties go by their names exactly when no name is used from two
      places, counting the linked pool and the functions' own pools together, and no place of a function's pool
      names one property there and another elsewhere. */
  lemma FilePropertiesByNameExactly(p: File)
    requires FileOk(p)
    ensures FileKeysFollowNames(p) <==> OnePlaceEach(p) && NoClash(p)
  {
    forall a, b | IsSite(p, a) && IsSite(p, b)
      ensures SiteKey(p, a) == SiteKey(p, b) <==> Place(p, a) == Place(p, b)
    {
      KeyIsPlace(p, a);
      KeyIsPlace(p, b);
    }
    if OnePlaceEach(p) && NoClash(p) {
      forall a, b | IsSite(p, a) && IsSite(p, b)
        ensures SiteKey(p, a) == SiteKey(p, b) <==> SiteName(p, a) == SiteName(p, b)
      {
        if Place(p, a) == Place(p, b) {
          SamePlaceSameName(p, a, b);
        }
      }
    }
  }

  // ---------------------------------------------------------------- a property that gets lost

  const X: Const := Str([120])
  const SET_CHUNK := Chunk([X], [10, 0, 0, RETURN])
  const GET_CHUNK := Chunk([X], [9, 0, 0, RETURN])

  lemma SampleProperties()
    ensures ChunkOk(SET_CHUNK) && Decode(Body(SET_CHUNK.code)) == [Instr(10, [0], [])]
    ensures ChunkOk(GET_CHUNK) && Decode(Body(GET_CHUNK.code)) == [Instr(9, [0], [])]
  {
    var put: seq<Byte>, get: seq<Byte> := [10, 0, 0], [9, 0, 0];
    assert Body(SET_CHUNK.code) == put && Body(GET_CHUNK.code) == get;
    Linker.Alone(put);
    Linker.Alone(get);
  }

  /** Two chunks of one instruction each, which sets or reads the property x. */
  ghost predicate OnX(chunks: seq<Chunk>)
  {
    && |chunks| == 2
    && forall k :: 0 <= k < 2 ==>
      && ChunkOk(chunks[k]) && chunks[k].consts == [X]
      && exists op :: op in {9, 10} && Decode(Body(chunks[k].code)) == [Instr(op, [0], [])]
  }

  lemma OnXLinks(chunks: seq<Chunk>)
    requires OnX(chunks)
    ensures Linkable(chunks)
  {
    assert chunks == [chunks[0], chunks[1]];
    TwoChunks(chunks[0], chunks[1]);
  }

  lemma OnXProperties(chunks: seq<Chunk>, k: nat)
    requires OnX(chunks) && Linkable(chunks) && k < 2
    ensures AllAgree(Instrs(chunks, k)) && PropertyAt(chunks, k, 0) && Name(chunks, k, 0) == X
  {
  }

  lemma LostOnX(chunks: seq<Chunk>, value: Value)
    requires OnX(chunks)
    ensures Linkable(chunks) && ChunksAgree(chunks) && PropertyAt(chunks, 0, 0) && PropertyAt(chunks, 1, 0)
    ensures Name(chunks, 0, 0) == Name(chunks, 1, 0) == X
    ensures Get(Set([], Key(chunks, 0, 0), value), Key(chunks, 1, 0)) == Nil
  {
    OnXLinks(chunks);
    OnXProperties(chunks, 0);
    OnXProperties(chunks, 1);
    ReadAfterSet(chunks, 0, 0, 1, 0, [], value);
  }

  /** One chunk sets the property x of an empty object, the next one reads the property x of it and gets nil. */
  lemma PropertyLost(chunks: seq<Chunk>, value: Value)
    requires chunks == [SET_CHUNK, GET_CHUNK]
    ensures Linkable(chunks) && ChunksAgree(chunks) && PropertyAt(chunks, 0, 0) && PropertyAt(chunks, 1, 0)
    ensures Name(chunks, 0, 0) == Name(chunks, 1, 0) == X
    ensures Get(Set([], Key(chunks, 0, 0), value), Key(chunks, 1, 0)) == Nil
  {
    SampleProperties();
    assert OnX(chunks);
    LostOnX(chunks, value);
  }

  // ---------------------------------------------------------------- two properties that are one

  const Y: Const := Str([121])

  /** One chunk that reads the property y, and one function that sets the property x. */
  const READ_Y := Chunk([Y], [9, 0, 0, RETURN])
  const SET_X := Sgvm.Function([], [X], [10, 0, 0])

  lemma ReadYOk()
    ensures Linkable([READ_Y]) && Instrs([READ_Y], 0) == [Instr(9, [0], [])]
  {
    var get: seq<Byte> := [9, 0, 0];
    assert Body(READ_Y.code) == get;
    Linker.Alone(get);
    OneChunk(READ_Y);
  }

  lemma SetXOk()
    ensures FunctionOk(SET_X) && Program(SET_X.code) == [Instr(10, [0], [])]
  {
    var put: seq<Byte> := [10, 0, 0];
    assert put[3..] == [];
  }

  /** A chunk with one instruction, which reads y, and a function with one, which sets x, each the only name of its
      pool. */
  ghost predicate OneEach(p: File)
  {
    && |p.chunks| == 1 && Linkable(p.chunks) && p.chunks[0].consts == [Y]
    && Instrs(p.chunks, 0) == [Instr(9, [0], [])]
    && |p.functions| == 1 && FunctionOk(p.functions[0]) && p.functions[0].consts == [X]
    && Program(p.functions[0].code) == [Instr(10, [0], [])]
  }

  lemma OneEachOk(p: File)
    requires OneEach(p)
    ensures FileOk(p) && IsSite(p, InChunk(0, 0)) && IsSite(p, InFunction(0, 0))
    ensures SiteName(p, InFunction(0, 0)) == X && SiteName(p, InChunk(0, 0)) == Y
    ensures Place(p, InFunction(0, 0)) == 0 && Place(p, InChunk(0, 0)) == 0
  {
    assert AllAgree(Instrs(p.chunks, 0));
    assert p.chunks[..0] == [];
  }

  lemma OneEachSites(p: File, s: Site)
    requires OneEach(p) && FileOk(p) && IsSite(p, s)
    ensures s == InChunk(0, 0) || s == InFunction(0, 0)
  {
  }

  lemma OneEachPlaces(p: File)
    requires OneEach(p) && FileOk(p)
    ensures OnePlaceEach(p)
  {
    OneEachOk(p);
    forall a, b | IsSite(p, a) && IsSite(p, b)
      ensures SiteName(p, a) == SiteName(p, b) ==> Place(p, a) == Place(p, b)
    {
      OneEachSites(p, a);
      OneEachSites(p, b);
    }
  }

  /** Each name has one place, and yet, when the function has set x, the chunk reads it as y. */
  lemma PropertiesClash(p: File, value: Value)
    requires p == File([READ_Y], [SET_X])
    ensures FileOk(p) && IsSite(p, InChunk(0, 0)) && IsSite(p, InFunction(0, 0)) && OnePlaceEach(p)
    ensures SiteName(p, InFunction(0, 0)) == X && SiteName(p, InChunk(0, 0)) == Y
    ensures Get(Set([], SiteKey(p, InFunction(0, 0)), value), SiteKey(p, InChunk(0, 0))) == value
  {
    ReadYOk();
    SetXOk();
    assert OneEach(p);
    ClashOnEach(p, value);
  }

  lemma ClashOnEach(p: File, value: Value)
    requires OneEach(p)
    ensures FileOk(p) && IsSite(p, InChunk(0, 0)) && IsSite(p, InFunction(0, 0)) && OnePlaceEach(p)
    ensures SiteName(p, InFunction(0, 0)) == X && SiteName(p, InChunk(0, 0)) == Y
    ensures Get(Set([], SiteKey(p, InFunction(0, 0)), value), SiteKey(p, InChunk(0, 0))) == value
  {
    OneEachOk(p);
    OneEachPlaces(p);
    KeyIsPlace(p, InChunk(0, 0));
    KeyIsPlace(p, InFunction(0, 0));
    GetAfterSet([], 0, value, 0);
  }
}
