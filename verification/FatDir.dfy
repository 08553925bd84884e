/** Lookup in and listing of a FAT directory: the loops of fat32_find_entry_in_cluster and fat32_readdir in
    sageos_build/kernel/fs/fat32.c, over the clusters of the directory's chain. */
module FatDir {
  import opened Bytes
  import opened FatTable
  import opened FatDisk
  import opened FatChain
  import opened FatVolume
  import opened LongNames

  // ---------------------------------------------------------------- entries on disk

  function Chop(v: seq<Byte>): (es: seq<Raw>)
  {
    if |v| < 32 then [] else [v[..32]] + Chop(v[32..])
  }

  lemma {:induction false} ChopConcat(a: seq<Byte>, b: seq<Byte>)
    requires |a| % 32 == 0
    ensures Chop(a + b) == Chop(a) + Chop(b)
  {
    if |a| == 0 {
      assert a + b == b;
    } else {
      ChopConcat(a[32..], b);
      assert (a + b)[32..] == a[32..] + b;
      assert (a + b)[..32] == a[..32];
    }
  }

  ghost predicate OnDisk(d: Disk, ls: seq<nat>) { forall p :: 0 <= p < |ls| ==> ls[p] < |d| }

  /** The entries of the p-th and later sectors of a directory. */
  ghost function SectorEntries(d: Disk, ls: seq<nat>, p: nat): (es: seq<Raw>)
    requires OnDisk(d, ls) && p <= |ls|
    decreases |ls| - p
  {
    if p == |ls| then [] else Chop(d[ls[p]]) + SectorEntries(d, ls, p + 1)
  }

  /** The entries of a directory are its bytes cut into 32-byte pieces. */
  ghost function DirEntries(g: Geometry, d: Disk, ch: seq<nat>): (es: seq<Raw>)
    requires Sound(g, |d|) && IsChain(FatOf(g, d), ch)
  {
    Chop(Contents(g, d, ch))
  }

  lemma {:induction false} SectorsAreBytes(d: Disk, ls: seq<nat>, p: nat)
    requires ValidLbas(|d|, ls) && p <= |ls|
    ensures SectorEntries(d, ls, p) == Chop(View(d, ls)[p * 512..])
    decreases |ls| - p
  {
    var v := View(d, ls);
    if p < |ls| {
      SectorsAreBytes(d, ls, p + 1);
      ViewSector(d, ls, p);
      assert v[p * 512..] == v[p * 512..p * 512 + 512] + v[p * 512 + 512..];
      ChopConcat(d[ls[p]], v[p * 512 + 512..]);
    }
  }

  /** The entries of sectors k to n of the cluster at lba, and then more. */
  ghost function ClusterEntries(d: Disk, lba: nat, k: nat, n: nat, more: seq<Raw>): (es: seq<Raw>)
    requires k <= n && lba + n <= |d|
    decreases n - k
  {
    if k == n then more else Chop(d[lba + k]) + ClusterEntries(d, lba, k + 1, n, more)
  }

  /** The entries of the i-th and later clusters of a chain. */
  ghost function ChainEntries(g: Geometry, d: Disk, ch: seq<nat>, i: nat): (es: seq<Raw>)
    requires Sound(g, |d|) && Clusters(g, ch) && i <= |ch|
    decreases |ch| - i
  {
    if i == |ch| then []
    else
      ClusterInRange(g, |d|, ch[i]);
      ClusterEntries(d, ClusterLba(g, ch[i]), 0, g.spc, ChainEntries(g, d, ch, i + 1))
  }

  lemma {:induction false} ClusterOfSectors(d: Disk, ls: seq<nat>, p: nat, lba: nat, k: nat, n: nat, more: seq<Raw>)
    requires OnDisk(d, ls) && k <= n && p + n <= |ls| && lba + n <= |d|
    requires ls[p..p + n] == Run(lba, n) && more == SectorEntries(d, ls, p + n)
    ensures ClusterEntries(d, lba, k, n, more) == SectorEntries(d, ls, p + k)
    decreases n - k
  {
    if k < n {
      assert ls[p + k] == ls[p..p + n][k] == lba + k;
      ClusterOfSectors(d, ls, p, lba, k + 1, n, more);
      assert SectorEntries(d, ls, p + k) == Chop(d[lba + k]) + SectorEntries(d, ls, p + k + 1);
    }
  }

  /** ls lists the sectors of the clusters of ch, cluster by cluster. */
  ghost predicate ListsClusters(g: Geometry, ch: seq<nat>, ls: seq<nat>)
    requires Clusters(g, ch)
  {
    && |ls| == Times(|ch|, g.spc)
    && forall i {:trigger ch[i]} :: 0 <= i < |ch| ==> HasCluster(g, ls, ch[i], Times(i, g.spc))
  }

  ghost predicate HasCluster(g: Geometry, ls: seq<nat>, c: nat, p: nat)
    requires c >= 2
  {
    p + g.spc <= |ls| && ls[p..p + g.spc] == Run(ClusterLba(g, c), g.spc)
  }

  lemma ChainUnfolds(g: Geometry, d: Disk, ch: seq<nat>, ls: seq<nat>, i: nat, p: nat)
    requires Sound(g, |d|) && Clusters(g, ch) && OnDisk(d, ls) && i < |ch| && ListsClusters(g, ch, ls)
    requires p == Times(i, g.spc) && p + g.spc <= |ls|
    requires ChainEntries(g, d, ch, i + 1) == SectorEntries(d, ls, p + g.spc)
    ensures ChainEntries(g, d, ch, i) == SectorEntries(d, ls, p)
  {
    ClusterInRange(g, |d|, ch[i]);
    assert HasCluster(g, ls, ch[i], p);
    ClusterOfSectors(d, ls, p, ClusterLba(g, ch[i]), 0, g.spc, ChainEntries(g, d, ch, i + 1));
  }

  lemma {:induction false} ChainOfSectors(g: Geometry, d: Disk, ch: seq<nat>, ls: seq<nat>, i: nat, p: nat)
    requires Sound(g, |d|) && Clusters(g, ch) && OnDisk(d, ls) && i <= |ch| && ListsClusters(g, ch, ls)
    requires p == Times(i, g.spc)
    ensures p <= |ls| && ChainEntries(g, d, ch, i) == SectorEntries(d, ls, p)
    decreases |ch| - i
  {
    if i < |ch| {
      ChainOfSectors(g, d, ch, ls, i + 1, p + g.spc);
      ChainUnfolds(g, d, ch, ls, i, p);
    }
  }

  lemma LbasListClusters(g: Geometry, ch: seq<nat>)
    requires Clusters(g, ch)
    ensures ListsClusters(g, ch, Lbas(g, ch))
  {
    forall i | 0 <= i < |ch| ensures HasCluster(g, Lbas(g, ch), ch[i], Times(i, g.spc)) {
      LbasRun(g, ch, i);
    }
  }

  /** Reading cluster by cluster, sector by sector, meets exactly the pieces of the directory's bytes. */
  lemma ChainEntriesAreBytes(g: Geometry, d: Disk, ch: seq<nat>)
    requires Sound(g, |d|) && IsChain(FatOf(g, d), ch)
    ensures Clusters(g, ch) && ChainEntries(g, d, ch, 0) == DirEntries(g, d, ch)
  {
    ChainLbas(g, d, ch);
    LbasListClusters(g, ch);
    ChainOfSectors(g, d, ch, Lbas(g, ch), 0, 0);
    SectorsAreBytes(d, Lbas(g, ch), 0);
    assert View(d, Lbas(g, ch))[0..] == View(d, Lbas(g, ch));
  }

  // ---------------------------------------------------------------- one entry

  lemma CharsAt(e: Raw, k: nat)
    requires k < 13
    ensures Chars(e)[k] == if k < 5 then e[1 + 2 * k] else if k < 11 then e[14 + 2 * (k - 5)] else e[28 + 2 * (k - 11)]
  {
  }

  /** One of the three loops that copy the low bytes of a group of characters. */
  method CopyChars(lfnName: array<Byte>, at: nat, e: Raw, from: nat, count: nat)
    requires at + count <= lfnName.Length && from + 2 * count <= 33
    modifies lfnName
    ensures forall x :: 0 <= x < lfnName.Length ==>
      lfnName[x] == if at <= x < at + count then e[from + 2 * (x - at)] else old(lfnName[x])
  {
    var k := 0;
    while k < count
      invariant 0 <= k <= count
      invariant forall x :: 0 <= x < lfnName.Length ==>
        lfnName[x] == if at <= x < at + k then e[from + 2 * (x - at)] else old(lfnName[x])
    {
      lfnName[at + k] := e[from + 2 * k];
      k := k + 1;
    }
  }

  method StorePart(lfnName: array<Byte>, e: Raw)
    requires lfnName.Length == 256 && 0 < e[0] % 32 < 20
    modifies lfnName
    ensures lfnName[..] == Store(old(lfnName[..]), e)
  {
    var order := e[0] % 32;
    var base := (order - 1) * 13;
    CopyChars(lfnName, base, e, 1, 5);
    CopyChars(lfnName, base + 5, e, 14, 6);
    CopyChars(lfnName, base + 11, e, 28, 2);
    forall x | 0 <= x < 256 ensures lfnName[x] == Overwrite(old(lfnName[..]), base, Chars(e))[x] {
      if base <= x < base + 13 {
        CharsAt(e, x - base);
      }
    }
    if e[0] / 64 % 2 == 1 {
      lfnName[order * 13] := 0;
    }
  }

  method AssembledLength(lfnName: array<Byte>) returns (len: nat)
    requires lfnName.Length == 256
    ensures len == Length(lfnName[..], 0)
  {
    len := 0;
    while len < 255 && lfnName[len] != 0 && lfnName[len] != 0xFF
      invariant len <= 255 && Length(lfnName[..], len) == Length(lfnName[..], 0)
    {
      len := len + 1;
    }
  }

  lemma UpToStep(f: seq<Byte>, k: nat, p: Byte)
    requires k < |f| && f[k] != p
    ensures UpTo(f[k..], p) == [f[k]] + UpTo(f[k + 1..], p)
  {
    assert f[k..][0] == f[k] && f[k..][1..] == f[k + 1..];
  }

  /** The characters of a short-name field up to its padding. */
  method Field(f: seq<Byte>) returns (s: seq<Byte>)
    ensures s == UpTo(f, SPACE)
  {
    s := [];
    var k := 0;
    while k < |f| && f[k] != SPACE
      invariant k <= |f| && s + UpTo(f[k..], SPACE) == UpTo(f, SPACE)
    {
      UpToStep(f, k, SPACE);
      Assoc(s, [f[k]], UpTo(f[k + 1..], SPACE));
      s := s + [f[k]];
      k := k + 1;
    }
    assert UpTo(f[k..], SPACE) == [] && s + [] == s;
  }

  method EntryName(e: Raw) returns (n: seq<Byte>)
    ensures n == ShortName(e)
  {
    n := Field(e[..8]);
    if e[8] != SPACE {
      var ext := Field(e[8..11]);
      n := n + [DOT] + ext;
    }
    n := UpTo(n, 0);
  }

  datatype Action = End | Skip | Named(name: seq<Byte>, long: bool)

  predicate Matches(ev: Event, a: Action, s: Scan)
  {
    match ev
    case Stop => a == End
    case Quiet(next) => a == Skip && s == next
    case Show(name, long, next) => a == Named(name, long) && s == next
  }

  /** The body of both entry loops, up to what they do with a name. */
  method ScanEntry(lfnName: array<Byte>, active: bool, e: Raw) returns (a: Action, nowActive: bool)
    requires lfnName.Length == 256 && PartsFit([e])
    modifies lfnName
    ensures Matches(Step(Scan(old(lfnName[..]), active), e), a, Scan(lfnName[..], nowActive))
  {
    nowActive := active;
    if e[0] == 0 {
      return End, active;
    }
    if e[0] == FREE {
      return Skip, false;
    }
    if e[11] == LONG_NAME {
      var order := e[0] % 32;
      if 0 < order <= 20 {
        StorePart(lfnName, e);
        nowActive := true;
      }
      return Skip, nowActive;
    }
    if active {
      var len := AssembledLength(lfnName);
      lfnName[len] := 0;
      a := Named(lfnName[..len], true);
    } else {
      var n := EntryName(e);
      a := Named(n, false);
    }
    nowActive := false;
  }

  /** streq: equal C strings, letter case aside. */
  method Streq(a: seq<Byte>, b: seq<Byte>) returns (r: bool)
    requires 0 !in a && 0 !in b
    ensures r <==> Upper(a) == Upper(b)
  {
    var i := 0;
    while i < |a| && i < |b|
      invariant i <= |a| && i <= |b|
      invariant forall k :: 0 <= k < i ==> UpperChar(a[k]) == UpperChar(b[k])
    {
      if UpperChar(a[i]) != UpperChar(b[i]) {
        assert Upper(a)[i] != Upper(b)[i];
        return false;
      }
      i := i + 1;
    }
    var ca, cb := if i < |a| then a[i] else 0, if i < |b| then b[i] else 0;
    r := UpperChar(ca) == UpperChar(cb);
    assert |Upper(a)| == |a| && |Upper(b)| == |b|;
  }

  // ---------------------------------------------------------------- lookup

  /** The entries from offset on are the one at offset and those behind it. */
  lemma ChopStep(v: seq<Byte>, offset: nat, tail: seq<Raw>)
    requires offset + 32 <= |v|
    ensures Chop(v[offset..]) + tail == [v[offset..offset + 32]] + (Chop(v[offset + 32..]) + tail)
  {
    var rest := v[offset..];
    assert rest[..32] == v[offset..offset + 32] && rest[32..] == v[offset + 32..];
    Assoc([rest[..32]], Chop(rest[32..]), tail);
  }

  /** A lookup that still has es before it comes out as goal. */
  predicate Heading(s: Scan, es: seq<Raw>, wanted: seq<Byte>, goal: Option<Raw>)
    decreases |es|
  {
    if es == [] then goal == None
    else
      match Step(s, es[0])
      case Stop => goal == None
      case Quiet(next) => PartsFit([es[0]]) && Heading(next, es[1..], wanted, goal)
      case Show(name, _, next) =>
        if Upper(name) == Upper(wanted) then goal == Some(es[0]) else Heading(next, es[1..], wanted, goal)
  }

  lemma {:induction false} LookupHeads(s: Scan, es: seq<Raw>, wanted: seq<Byte>)
    requires PartsFit(es)
    ensures Heading(s, es, wanted, FirstMatch(Seen(s, es), wanted))
    decreases |es|
  {
    if es != [] && !Step(s, es[0]).Stop? {
      LookupHeads(Step(s, es[0]).next, es[1..], wanted);
    }
  }

  lemma HeadingStep(s: Scan, e: Raw, es: seq<Raw>, wanted: seq<Byte>, goal: Option<Raw>)
    requires Heading(s, [e] + es, wanted, goal)
    ensures PartsFit([e])
    ensures Step(s, e).Stop? ==> goal == None
    ensures Step(s, e).Quiet? ==> Heading(Step(s, e).next, es, wanted, goal)
    ensures Step(s, e).Show? ==>
      if Upper(Step(s, e).name) == Upper(wanted) then goal == Some(e) else Heading(Step(s, e).next, es, wanted, goal)
  {
    assert ([e] + es)[0] == e && ([e] + es)[1..] == es;
  }

  method FindAtEntry(lfnName: array<Byte>, active0: bool, e: Raw, wanted: seq<Byte>,
                     ghost rest: seq<Raw>, ghost goal: Option<Raw>)
    returns (active: bool, done: bool, hit: Option<Raw>)
    requires lfnName.Length == 256 && 0 !in wanted && Heading(Scan(lfnName[..], active0), [e] + rest, wanted, goal)
    modifies lfnName
    ensures if done then hit == goal else Heading(Scan(lfnName[..], active), rest, wanted, goal)
  {
    HeadingStep(Scan(lfnName[..], active0), e, rest, wanted, goal);
    var a;
    a, active := ScanEntry(lfnName, active0, e);
    match a {
      case End => done, hit := true, None;
      case Skip => done, hit := false, None;
      case Named(name, _) =>
        done := Streq(name, wanted);
        hit := if done then Some(e) else None;
    }
  }

  method FindInSector(lfnName: array<Byte>, active0: bool, sector: Sector, wanted: seq<Byte>,
                      ghost tail: seq<Raw>, ghost goal: Option<Raw>)
    returns (active: bool, done: bool, hit: Option<Raw>)
    requires lfnName.Length == 256 && 0 !in wanted
    requires Heading(Scan(lfnName[..], active0), Chop(sector) + tail, wanted, goal)
    modifies lfnName
    ensures if done then hit == goal else Heading(Scan(lfnName[..], active), tail, wanted, goal)
  {
    active, done, hit := active0, false, None;
    var offset := 0;
    ghost var k, rest := 0, Chop(sector) + tail;
    assert sector[0..] == sector;
    while offset < 512 && !done
      invariant 0 <= k <= 16 && offset == 32 * k && rest == Chop(sector[offset..]) + tail
      invariant if done then hit == goal else Heading(Scan(lfnName[..], active), rest, wanted, goal)
      decreases 16 - k, !done
    {
      ChopStep(sector, offset, tail);
      rest := Chop(sector[offset + 32..]) + tail;
      active, done, hit := FindAtEntry(lfnName, active, sector[offset..offset + 32], wanted, rest, goal);
      offset, k := offset + 32, k + 1;
    }
    assert k == 16 ==> rest == tail;
  }

  method FindInCluster(vol: Volume, lba: nat, lfnName: array<Byte>, active0: bool, wanted: seq<Byte>,
                       ghost d: Disk, ghost tail: seq<Raw>, ghost goal: Option<Raw>)
    returns (active: bool, done: bool, hit: Option<Raw>)
    requires lfnName.Length == 256 && 0 !in wanted && vol.disk[..] == d && lba + vol.geo.spc <= |d|
    requires Heading(Scan(lfnName[..], active0), ClusterEntries(d, lba, 0, vol.geo.spc, tail), wanted, goal)
    modifies lfnName
    ensures if done then hit == goal else Heading(Scan(lfnName[..], active), tail, wanted, goal)
  {
    active, done, hit := active0, false, None;
    ghost var rest := ClusterEntries(d, lba, 0, vol.geo.spc, tail);
    var sectorIdx := 0;
    while sectorIdx < vol.geo.spc && !done
      invariant sectorIdx <= vol.geo.spc && rest == ClusterEntries(d, lba, sectorIdx, vol.geo.spc, tail)
      invariant if done then hit == goal else Heading(Scan(lfnName[..], active), rest, wanted, goal)
    {
      var sector := vol.disk[lba + sectorIdx];
      assert sector == d[lba + sectorIdx];
      rest := ClusterEntries(d, lba, sectorIdx + 1, vol.geo.spc, tail);
      active, done, hit := FindInSector(lfnName, active, sector, wanted, rest, goal);
      sectorIdx := sectorIdx + 1;
    }
  }

  method FindInChain(vol: Volume, first: nat, lfnName: array<Byte>, wanted: seq<Byte>,
                     ghost d: Disk, ghost ch: seq<nat>, ghost goal: Option<Raw>)
    returns (hit: Option<Raw>)
    requires vol.Valid() && vol.disk[..] == d && IsChain(FatOf(vol.geo, d), ch) && ch[0] == first
    requires lfnName.Length == 256 && 0 !in wanted && Clusters(vol.geo, ch)
    requires Heading(Scan(lfnName[..], false), ChainEntries(vol.geo, d, ch, 0), wanted, goal)
    modifies lfnName
    ensures hit == goal
  {
    var cluster, active, done := first, false, false;
    hit := None;
    ghost var i, rest := 0, ChainEntries(vol.geo, d, ch, 0);
    while !EndOfChain(cluster) && !done
      invariant i <= |ch| && rest == ChainEntries(vol.geo, d, ch, i)
      invariant if i < |ch| then cluster == ch[i] else EndOfChain(cluster)
      invariant if done then hit == goal else Heading(Scan(lfnName[..], active), rest, wanted, goal)
      decreases |ch| - i
    {
      ClusterInRange(vol.geo, |d|, cluster);
      assert vol.disk[..] == d;
      rest := ChainEntries(vol.geo, d, ch, i + 1);
      active, done, hit := FindInCluster(vol, ClusterLba(vol.geo, cluster), lfnName, active, wanted, d, rest, goal);
      assert vol.disk[..] == d;
      ChainNext(FatOf(vol.geo, d), ch, i);
      cluster := vol.ReadFatEntry(cluster);
      i := i + 1;
    }
    if !done {
      hit := None;
    }
  }

  /** fat32_find_entry_in_cluster, in a name buffer that holds whatever its memory held. */
  method FindEntry(vol: Volume, first: nat, wanted: seq<Byte>, lfnName: array<Byte>, ghost ch: seq<nat>)
    returns (hit: Option<Raw>)
    requires vol.Valid() && IsChain(FatOf(vol.geo, vol.disk[..]), ch) && ch[0] == first && 0 !in wanted
    requires lfnName.Length == 256 && PartsFit(DirEntries(vol.geo, vol.disk[..], ch))
    modifies lfnName
    ensures hit == FirstMatch(Seen(Scan(old(lfnName[..]), false), DirEntries(vol.geo, old(vol.disk[..]), ch)), wanted)
  {
    ghost var d, s := vol.disk[..], Scan(lfnName[..], false);
    ghost var es := DirEntries(vol.geo, d, ch);
    ChainEntriesAreBytes(vol.geo, d, ch);
    LookupHeads(s, es, wanted);
    hit := FindInChain(vol, first, lfnName, wanted, d, ch, FirstMatch(Seen(s, es), wanted));
  }

  /** Over a well-formed directory the buffer does not matter: the result is the first entry whose encoded
      name matches. */
  method FindEncoded(vol: Volume, first: nat, wanted: seq<Byte>, ghost ch: seq<nat>, ghost items: seq<Item>)
    returns (hit: Option<Raw>)
    requires vol.Valid() && IsChain(FatOf(vol.geo, vol.disk[..]), ch) && ch[0] == first && 0 !in wanted
    requires Encodes(DirEntries(vol.geo, vol.disk[..], ch), items)
    ensures hit == FirstMatch(Shown(items), wanted)
  {
    ghost var d := vol.disk[..];
    ghost var es := DirEntries(vol.geo, d, ch);
    EncodedPartsFit(es, items);
    var lfnName := new Byte[256];
    NamesReassembled(Scan(lfnName[..], false), es, items);
    assert vol.disk[..] == d;
    hit := FindEntry(vol, first, wanted, lfnName, ch);
  }

  // ---------------------------------------------------------------- listing

  /** A VfsDirEntry. */
  datatype Info = Info(name: seq<Byte>, isDir: bool, size: nat)

  function InfoOf(d: Dirent): (i: Info)
  {
    Info(ListedName(d), d.raw[11] / 16 % 2 == 1, FromLe32(d.raw[28..32]))
  }

  /** What fat32_readdir stores for at most max shown entries. */
  function Infos(ds: seq<Dirent>, max: nat): (r: seq<Info>)
  {
    if ds == [] || max == 0 then [] else [InfoOf(ds[0])] + Infos(ds[1..], max - 1)
  }

  /** A listing that holds out and still has es before it comes out as goal. */
  predicate Listing(s: Scan, es: seq<Raw>, out: seq<Info>, max: nat, goal: seq<Info>)
    decreases |es|
  {
    if |out| >= max || es == [] then out == goal
    else
      match Step(s, es[0])
      case Stop => out == goal
      case Quiet(next) => PartsFit([es[0]]) && Listing(next, es[1..], out, max, goal)
      case Show(name, long, next) =>
        Listing(next, es[1..], out + [InfoOf(Dirent(name, long, es[0]))], max, goal)
  }

  lemma {:induction false} ListingHeads(s: Scan, es: seq<Raw>, out: seq<Info>, max: nat)
    requires PartsFit(es) && |out| <= max
    ensures Listing(s, es, out, max, out + Infos(Seen(s, es), max - |out|))
    decreases |es|
  {
    var goal := out + Infos(Seen(s, es), max - |out|);
    if |out| == max || es == [] || Step(s, es[0]).Stop? {
      assert goal == out;
    } else if Step(s, es[0]).Quiet? {
      ListingHeads(Step(s, es[0]).next, es[1..], out, max);
    } else {
      var ev := Step(s, es[0]);
      var info := InfoOf(Dirent(ev.name, ev.long, es[0]));
      ListingHeads(ev.next, es[1..], out + [info], max);
      var ds := Seen(s, es);
      assert ds[1..] == Seen(ev.next, es[1..]);
      assert goal == (out + [info]) + Infos(ds[1..], max - |out| - 1);
    }
  }

  lemma EmptyPlus(x: seq<Info>)
    ensures [] + x == x
  {
  }

  lemma ListingStarts(s: Scan, es: seq<Raw>, max: nat)
    requires PartsFit(es)
    ensures Listing(s, es, [], max, Infos(Seen(s, es), max))
  {
    ListingHeads(s, es, [], max);
    EmptyPlus(Infos(Seen(s, es), max));
  }

  lemma ListingStep(s: Scan, e: Raw, es: seq<Raw>, out: seq<Info>, max: nat, goal: seq<Info>)
    requires |out| < max && Listing(s, [e] + es, out, max, goal)
    ensures PartsFit([e])
    ensures Step(s, e).Stop? ==> out == goal
    ensures Step(s, e).Quiet? ==> Listing(Step(s, e).next, es, out, max, goal)
    ensures Step(s, e).Show? ==>
      Listing(Step(s, e).next, es, out + [InfoOf(Dirent(Step(s, e).name, Step(s, e).long, e))], max, goal)
  {
    assert ([e] + es)[0] == e && ([e] + es)[1..] == es;
  }

  /** fat32_entry_to_name: the short name in lower case. */
  method LowerName(n: seq<Byte>) returns (r: seq<Byte>)
    ensures r == Lower(n)
  {
    r := [];
    while |r| < |n|
      invariant |r| <= |n| && r == Lower(n)[..|r|]
    {
      r := r + [LowerChar(n[|r|])];
    }
  }

  method MakeInfo(name: seq<Byte>, long: bool, e: Raw) returns (i: Info)
    ensures i == InfoOf(Dirent(name, long, e))
  {
    var n := name;
    if !long {
      n := LowerName(name);
    } else if |name| >= NAME_MAX {
      n := name[..NAME_MAX - 1];
    }
    i := Info(n, e[11] / 16 % 2 == 1, FromLe32(e[28..32]));
  }

  method ListAtEntry(lfnName: array<Byte>, active0: bool, e: Raw, out0: seq<Info>, max: nat,
                     ghost rest: seq<Raw>, ghost goal: seq<Info>)
    returns (active: bool, done: bool, out: seq<Info>)
    requires lfnName.Length == 256 && |out0| < max && Listing(Scan(lfnName[..], active0), [e] + rest, out0, max, goal)
    modifies lfnName
    ensures if done then out == goal else |out| <= max && Listing(Scan(lfnName[..], active), rest, out, max, goal)
  {
    ListingStep(Scan(lfnName[..], active0), e, rest, out0, max, goal);
    var a;
    a, active := ScanEntry(lfnName, active0, e);
    out, done := out0, a.End?;
    if a.Named? {
      var info := MakeInfo(a.name, a.long, e);
      out := out + [info];
    }
  }

  method ListInSector(lfnName: array<Byte>, active0: bool, sector: Sector, out0: seq<Info>, max: nat,
                      ghost tail: seq<Raw>, ghost goal: seq<Info>)
    returns (active: bool, done: bool, out: seq<Info>)
    requires lfnName.Length == 256 && |out0| <= max
    requires Listing(Scan(lfnName[..], active0), Chop(sector) + tail, out0, max, goal)
    modifies lfnName
    ensures if done then out == goal else |out| <= max && Listing(Scan(lfnName[..], active), tail, out, max, goal)
  {
    active, done, out := active0, false, out0;
    var offset := 0;
    ghost var k, rest := 0, Chop(sector) + tail;
    assert sector[0..] == sector;
    while offset < 512 && |out| < max && !done
      invariant 0 <= k <= 16 && offset == 32 * k && rest == Chop(sector[offset..]) + tail
      invariant if done then out == goal else |out| <= max && Listing(Scan(lfnName[..], active), rest, out, max, goal)
      decreases 16 - k, !done
    {
      ChopStep(sector, offset, tail);
      rest := Chop(sector[offset + 32..]) + tail;
      active, done, out := ListAtEntry(lfnName, active, sector[offset..offset + 32], out, max, rest, goal);
      offset, k := offset + 32, k + 1;
    }
    assert k == 16 ==> rest == tail;
  }

  method ListSector(vol: Volume, lba: nat, k: nat, lfnName: array<Byte>, active0: bool, out0: seq<Info>, max: nat,
                    ghost d: Disk, ghost tail: seq<Raw>, ghost goal: seq<Info>)
    returns (active: bool, done: bool, out: seq<Info>)
    requires lfnName.Length == 256 && |out0| <= max && vol.disk[..] == d && k < vol.geo.spc && lba + vol.geo.spc <= |d|
    requires Listing(Scan(lfnName[..], active0), ClusterEntries(d, lba, k, vol.geo.spc, tail), out0, max, goal)
    modifies lfnName
    ensures done ==> out == goal
    ensures !done ==> |out| <= max
    ensures !done ==>
      Listing(Scan(lfnName[..], active), ClusterEntries(d, lba, k + 1, vol.geo.spc, tail), out, max, goal)
  {
    var sector := vol.disk[lba + k];
    assert sector == d[lba + k];
    ghost var rest := ClusterEntries(d, lba, k + 1, vol.geo.spc, tail);
    active, done, out := ListInSector(lfnName, active0, sector, out0, max, rest, goal);
  }

  method ListInCluster(vol: Volume, lba: nat, lfnName: array<Byte>, active0: bool, out0: seq<Info>, max: nat,
                       ghost d: Disk, ghost tail: seq<Raw>, ghost goal: seq<Info>)
    returns (active: bool, done: bool, out: seq<Info>)
    requires lfnName.Length == 256 && |out0| <= max && vol.disk[..] == d && lba + vol.geo.spc <= |d|
    requires Listing(Scan(lfnName[..], active0), ClusterEntries(d, lba, 0, vol.geo.spc, tail), out0, max, goal)
    modifies lfnName
    ensures if done then out == goal else |out| <= max && Listing(Scan(lfnName[..], active), tail, out, max, goal)
  {
    active, done, out := active0, false, out0;
    ghost var rest := ClusterEntries(d, lba, 0, vol.geo.spc, tail);
    var sectorIdx := 0;
    while sectorIdx < vol.geo.spc && !done
      invariant sectorIdx <= vol.geo.spc && rest == ClusterEntries(d, lba, sectorIdx, vol.geo.spc, tail)
      invariant done ==> out == goal
      invariant !done ==> |out| <= max && Listing(Scan(lfnName[..], active), rest, out, max, goal)
    {
      assert vol.disk[..] == d;
      active, done, out := ListSector(vol, lba, sectorIdx, lfnName, active, out, max, d, tail, goal);
      sectorIdx := sectorIdx + 1;
      rest := ClusterEntries(d, lba, sectorIdx, vol.geo.spc, tail);
    }
  }

  method ListInChain(vol: Volume, first: nat, lfnName: array<Byte>, max: nat,
                     ghost d: Disk, ghost ch: seq<nat>, ghost goal: seq<Info>)
    returns (out: seq<Info>)
    requires vol.Valid() && vol.disk[..] == d && IsChain(FatOf(vol.geo, d), ch) && ch[0] == first
    requires lfnName.Length == 256 && Clusters(vol.geo, ch)
    requires Listing(Scan(lfnName[..], false), ChainEntries(vol.geo, d, ch, 0), [], max, goal)
    modifies lfnName
    ensures out == goal
  {
    var cluster, active, done := first, false, false;
    out := [];
    ghost var i, rest := 0, ChainEntries(vol.geo, d, ch, 0);
    while !EndOfChain(cluster) && |out| < max && !done
      invariant i <= |ch| && rest == ChainEntries(vol.geo, d, ch, i)
      invariant if i < |ch| then cluster == ch[i] else EndOfChain(cluster)
      invariant if done then out == goal else |out| <= max && Listing(Scan(lfnName[..], active), rest, out, max, goal)
      decreases |ch| - i
    {
      ClusterInRange(vol.geo, |d|, cluster);
      assert vol.disk[..] == d;
      rest := ChainEntries(vol.geo, d, ch, i + 1);
      active, done, out := ListInCluster(vol, ClusterLba(vol.geo, cluster), lfnName, active, out, max, d, rest, goal);
      assert vol.disk[..] == d;
      ChainNext(FatOf(vol.geo, d), ch, i);
      cluster := vol.ReadFatEntry(cluster);
      i := i + 1;
    }
  }

  /** fat32_readdir below the path level, in a name buffer that holds whatever its memory held. */
  method ListDirectory(vol: Volume, first: nat, max: nat, lfnName: array<Byte>, ghost ch: seq<nat>)
    returns (out: seq<Info>)
    requires vol.Valid() && IsChain(FatOf(vol.geo, vol.disk[..]), ch) && ch[0] == first
    requires lfnName.Length == 256 && PartsFit(DirEntries(vol.geo, vol.disk[..], ch))
    modifies lfnName
    ensures out == Infos(Seen(Scan(old(lfnName[..]), false), DirEntries(vol.geo, old(vol.disk[..]), ch)), max)
  {
    ghost var d, s := vol.disk[..], Scan(lfnName[..], false);
    ghost var es := DirEntries(vol.geo, d, ch);
    ChainEntriesAreBytes(vol.geo, d, ch);
    ListingStarts(s, es, max);
    out := ListInChain(vol, first, lfnName, max, d, ch, Infos(Seen(s, es), max));
  }

  /** Over a well-formed directory the listing is that of the encoded names. */
  method ListEncoded(vol: Volume, first: nat, max: nat, ghost ch: seq<nat>, ghost items: seq<Item>)
    returns (out: seq<Info>)
    requires vol.Valid() && IsChain(FatOf(vol.geo, vol.disk[..]), ch) && ch[0] == first
    requires Encodes(DirEntries(vol.geo, vol.disk[..], ch), items)
    ensures out == Infos(Shown(items), max)
  {
    ghost var d := vol.disk[..];
    ghost var es := DirEntries(vol.geo, d, ch);
    EncodedPartsFit(es, items);
    var lfnName := new Byte[256];
    NamesReassembled(Scan(lfnName[..], false), es, items);
    assert vol.disk[..] == d;
    out := ListDirectory(vol, first, max, lfnName, ch);
  }

  // ---------------------------------------------------------------- both together

  lemma {:induction false} InfoAt(ds: seq<Dirent>, max: nat, i: nat)
    requires i < |Infos(ds, max)|
    ensures i < |ds| && Infos(ds, max)[i] == InfoOf(ds[i])
    decreases i
  {
    if i > 0 {
      InfoAt(ds[1..], max - 1, i - 1);
    }
  }

  /** Listing and lookup agree: each listed entry is the next encoded one, and looking up its name, if it
      was not cut, finds that entry or the first one before it whose name differs only in letter case. */
  lemma ListedEntryFound(items: seq<Item>, max: nat, i: nat)
    requires i < |Infos(Shown(items), max)|
    ensures i < |Shown(items)| && Infos(Shown(items), max)[i] == InfoOf(Shown(items)[i])
    ensures !Shown(items)[i].long || |Shown(items)[i].name| < NAME_MAX ==>
      exists j :: 0 <= j <= i && FirstOf(Shown(items), j, Shown(items)[i].name)
        && FirstMatch(Shown(items), Infos(Shown(items), max)[i].name) == Some(Shown(items)[j].raw)
  {
    var ds := Shown(items);
    InfoAt(ds, max, i);
    if !ds[i].long || |ds[i].name| < NAME_MAX {
      ListedNameFound(ds, i);
    }
  }
}
