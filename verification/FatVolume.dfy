/** fat32_read and fat32_write below the path level: a file is its first cluster, its chain and its
    recorded size.  The disk is changed in place, sector by sector, as the source does. */
module FatVolume {
  import opened Bytes
  import opened FatTable
  import opened FatDisk
  import opened FatChain

  datatype WriteResult = NoSpace | Written(count: nat, fileSize: nat)

  /** The bytes that n clusters hold. */
  ghost function Capacity(g: Geometry, n: nat): nat { Times(n, g.spc) * 512 }

  /** They are the bytes of a chain of n clusters, 512 in each of their sectors. */
  lemma CapacityIsBytes(g: Geometry, d: Disk, ch: seq<nat>)
    requires Sound(g, |d|) && IsChain(FatOf(g, d), ch)
    ensures Capacity(g, |ch|) == |Contents(g, d, ch)| == |ch| * g.spc * 512
  {
    TimesIsProduct(|ch|, g.spc);
  }

  /** The state of the data phase before the p-th sector of the chain: the first `written` bytes are
      stored, and the next byte goes to position p * 512 + skip. */
  ghost predicate Storing(d0: Disk, d: Disk, ls: seq<nat>, p: nat, off: nat, data: seq<Byte>, skip: nat, written: nat)
    requires ValidLbas(|d0|, ls)
  {
    && |d| == |d0|
    && written <= |data|
    && off + |data| <= |ls| * 512
    && p <= |ls|
    && (forall l :: 0 <= l < |d0| && l !in ls ==> d[l] == d0[l])
    && View(d, ls) == Overwrite(View(d0, ls), off, data[..written])
    && (written < |data| ==> p * 512 + skip == off + written)
  }

  /** Storing bytes in sector p overwrites them in the view. */
  lemma StoreInView(d: Disk, ls: seq<nat>, p: nat, skip: nat, more: seq<Byte>)
    requires ValidLbas(|d|, ls) && p < |ls| && skip + |more| <= 512
    ensures View(d[ls[p] := Overwrite(d[ls[p]], skip, more)], ls) == Overwrite(View(d, ls), p * 512 + skip, more)
  {
    ViewSector(d, ls, p);
    ViewAfterWrite(d, ls, p, Overwrite(d[ls[p]], skip, more));
    OverwriteBlock(View(d, ls), p * 512, skip, more);
  }

  /** Storing sector p with n more bytes overwrites n more bytes of the view. */
  lemma StoreView(d0: Disk, d: Disk, ls: seq<nat>, p: nat, off: nat, done: seq<Byte>, skip: nat, more: seq<Byte>)
    requires |d| == |d0| && ValidLbas(|d0|, ls) && p < |ls|
    requires off + |done| + |more| <= |ls| * 512
    requires skip + |more| <= 512 && p * 512 + skip == off + |done|
    requires View(d, ls) == Overwrite(View(d0, ls), off, done)
    ensures View(d[ls[p] := Overwrite(d[ls[p]], skip, more)], ls) == Overwrite(View(d0, ls), off, done + more)
  {
    StoreInView(d, ls, p, skip, more);
    OverwriteExtend(View(d0, ls), off, done, more);
  }

  lemma StoreStep(d0: Disk, d: Disk, e: Disk, ls: seq<nat>, p: nat, off: nat, data: seq<Byte>, skip: nat,
                  written: nat, n: nat)
    requires ValidLbas(|d0|, ls) && Storing(d0, d, ls, p, off, data, skip, written)
    requires written < |data| && p < |ls| && skip < 512
    requires n == if 512 - skip < |data| - written then 512 - skip else |data| - written
    requires e == d[ls[p] := Overwrite(d[ls[p]], skip, data[written..written + n])]
    ensures Storing(d0, e, ls, p + 1, off, data, 0, written + n)
  {
    StoreView(d0, d, ls, p, off, data[..written], skip, data[written..written + n]);
    assert data[..written] + data[written..written + n] == data[..written + n];
  }

  lemma StoringStarts(d: Disk, ls: seq<nat>, off: nat, data: seq<Byte>)
    requires ValidLbas(|d|, ls) && off + |data| <= |ls| * 512
    ensures Storing(d, d, ls, 0, off, data, off, 0)
  {
    assert Overwrite(View(d, ls), off, []) == View(d, ls);
  }

  /** The bytes of v from a up to b, as far as v reaches. */
  function Slice(v: seq<Byte>, a: nat, b: nat): (r: seq<Byte>)
  {
    if a >= Min(b, |v|) then [] else v[a..Min(b, |v|)]
  }

  lemma SliceEmpty(v: seq<Byte>, a: nat, b: nat)
    requires b <= a
    ensures Slice(v, a, b) == []
  {
  }

  /** The state of the copy loop of fat32_read before the p-th sector of a file with bytes v: out holds
      the bytes of v from off on. */
  ghost predicate Reading(v: seq<Byte>, p: nat, off: nat, size: nat, out: seq<Byte>, skip: nat)
  {
    && |out| <= size
    && p * 512 <= |v|
    && (out != [] ==> skip == 0 && off + |out| <= |v| && out == v[off..off + |out|])
    && (|out| < size ==> p * 512 + skip == off + |out|)
  }

  lemma BlockSlice(v: seq<Byte>, a: nat, skip: nat, n: nat)
    requires a + 512 <= |v| && skip + n <= 512
    ensures v[a..a + 512][skip..skip + n] == v[a + skip..a + skip + n]
  {
    var block, part := v[a..a + 512], v[a..a + 512][skip..skip + n];
    forall i | 0 <= i < n ensures part[i] == v[a + skip + i] {
      assert part[i] == block[skip + i];
    }
  }

  lemma ReadStep(v: seq<Byte>, p: nat, off: nat, size: nat, out: seq<Byte>, skip: nat, n: nat)
    requires Reading(v, p, off, size, out, skip)
    requires |out| < size && p * 512 + 512 <= |v| && skip < 512
    requires n == if 512 - skip < size - |out| then 512 - skip else size - |out|
    ensures Reading(v, p + 1, off, size, out + v[p * 512..p * 512 + 512][skip..skip + n], 0)
  {
    var e := off + |out|;
    BlockSlice(v, p * 512, skip, n);
    assert out != [] ==> v[off..e] + v[e..e + n] == v[off..e + n];
  }

  lemma ReadDone(v: seq<Byte>, p: nat, off: nat, size: nat, out: seq<Byte>, skip: nat)
    requires Reading(v, p, off, size, out, skip)
    requires |out| == size || p * 512 == |v|
    ensures out == Slice(v, off, off + size)
  {
  }

  function Min(a: int, b: int): int { if a < b then a else b }

  /** How many of n clusters of the given size lie wholly before the offset. */
  function Skipped(size: nat, offset: nat, n: nat): (k: nat)
    ensures k <= n
    decreases n
  {
    if n == 0 || offset < size then 0 else 1 + Skipped(size, offset - size, n - 1)
  }

  /** Changing only sectors of a chain leaves the FAT alone. */
  lemma ChainFrame(g: Geometry, d: Disk, d': Disk, ch: seq<nat>)
    requires Sound(g, |d|) && IsChain(FatOf(g, d), ch) && |d'| == |d| && Clusters(g, ch)
    requires forall l :: 0 <= l < |d| && l !in Lbas(g, ch) ==> d'[l] == d[l]
    ensures FatOf(g, d') == FatOf(g, d)
  {
    ChainLbas(g, d, ch);
    FatFrame(g, d, d');
  }

  lemma StoreDone(g: Geometry, d0: Disk, d: Disk, ch: seq<nat>, p: nat, off: nat, data: seq<Byte>,
                  skip: nat, written: nat)
    requires Sound(g, |d0|) && IsChain(FatOf(g, d0), ch) && Clusters(g, ch) && ValidLbas(|d0|, Lbas(g, ch))
    requires Storing(d0, d, Lbas(g, ch), p, off, data, skip, written)
    requires written == |data| || p == |Lbas(g, ch)|
    ensures written == |data| && Stored(g, d0, d, ch, off, data)
  {
    ChainFrame(g, d0, d, ch);
    assert data[..written] == data;
  }

  /** The k-th sector of a run of sectors in the list is a 512-byte slice of the view. */
  lemma SectorOfRun(d: Disk, ls: seq<nat>, p: nat, lba: nat, n: nat, k: nat)
    requires ValidLbas(|d|, ls) && k < n && p + n <= |ls| && ls[p..p + n] == Run(lba, n)
    ensures lba + k < |d| && View(d, ls)[(p + k) * 512..(p + k) * 512 + 512] == d[lba + k]
  {
    assert ls[p + k] == ls[p..p + n][k] == lba + k;
    ViewSector(d, ls, p + k);
  }

  class Volume {
    const geo: Geometry
    const disk: array<Sector>

    constructor (geo: Geometry, disk: array<Sector>)
      requires Sound(geo, disk.Length)
      ensures Valid() && this.geo == geo && this.disk == disk
    {
      this.geo := geo;
      this.disk := disk;
    }

    ghost predicate Valid() { Sound(geo, disk.Length) }

    method ReadFatEntry(c: nat) returns (e: nat)
      requires Valid() && c < Slots(geo)
      ensures e == Next(FatOf(geo, disk[..]), c)
    {
      FatBeforeData(geo, disk.Length);
      SlotOffset(c);
      WordsAt(geo, disk[..], Slots(geo), c);
      var fatOffset := c * 4;
      var lba := geo.partitionLba + geo.reserved + fatOffset / 512;
      var index := fatOffset % 512;
      var sector := disk[lba];
      e := Low(FromLe32(sector[index..index + 4]));
    }

    method WriteFatEntry(c: nat, v: nat)
      requires Valid() && c < Slots(geo)
      modifies disk
      ensures FatOf(geo, disk[..]) == SetNext(FatOf(geo, old(disk[..])), c, v)
      ensures forall l :: 0 <= l < disk.Length && !InFat(geo, l) ==> disk[l] == old(disk[l])
    {
      FatBeforeData(geo, disk.Length);
      SlotOffset(c);
      WordsAt(geo, disk[..], Slots(geo), c);
      var fatOffset := c * 4;
      var lba := geo.partitionLba + geo.reserved + fatOffset / 512;
      var index := fatOffset % 512;
      var sector := disk[lba];
      var entry := Merge(FromLe32(sector[index..index + 4]), v);
      PutRawFat(geo, disk[..], c, entry);
      disk[lba] := sector[..index] + Le32(entry) + sector[index + 4..];
      assert disk[..] == PutRaw(geo, old(disk[..]), c, entry);
    }

    /** The lowest free cluster, or 0 when none is left. */
    method FindFreeCluster() returns (r: nat)
      requires Valid()
      ensures r == 0 ==> FreeClusters(FatOf(geo, disk[..])) == {}
      ensures r != 0 ==> r in FreeClusters(FatOf(geo, disk[..]))
      ensures forall c :: 2 <= c < r ==> c !in FreeClusters(FatOf(geo, disk[..]))
    {
      var cluster := 2;
      while cluster < geo.fatSize * 512 / 4
        invariant cluster >= 2
        invariant forall c :: 2 <= c < cluster ==> c !in FreeClusters(FatOf(geo, disk[..]))
      {
        var e := ReadFatEntry(cluster);
        if e == 0 {
          return cluster;
        }
        cluster := cluster + 1;
      }
      return 0;
    }

    /** One turn of the expansion loop of fat32_write: step to the next cluster, linking a free one
        behind the last; 0 when the FAT is full. */
    method StepOrLink(current: nat, ghost d0: Disk, ghost ch: seq<nat>, ghost ext: seq<nat>, ghost i: nat)
      returns (next: nat, ghost ext': seq<nat>)
      requires Valid() && |d0| == disk.Length && |ch| > 0 && Grown(geo, d0, disk[..], ch, ext)
      requires i < |ch + ext| && current == (ch + ext)[i]
      modifies disk
      ensures Grown(geo, d0, disk[..], ch, ext')
      ensures next == 0 ==> ext' == ext && i == |ch| + |ext| - 1 && FreeClusters(FatOf(geo, disk[..])) == {}
      ensures next != 0 ==> i + 1 < |ch| + |ext'| && next == (ch + ext')[i + 1]
      ensures ext' != ext ==> i + 1 == |ch| + |ext'| - 1
    {
      ChainNext(FatOf(geo, disk[..]), ch + ext, i);
      assert InRange(FatOf(geo, disk[..]), (ch + ext)[i]);
      next := ReadFatEntry(current);
      ext' := ext;
      if EndOfChain(next) {
        next := FindFreeCluster();
        if next != 0 {
          ExtendStep(FatOf(geo, d0), FatOf(geo, disk[..]), ch, ext, next);
          WriteFatEntry(current, next);
          WriteFatEntry(next, 0x0FFF_FFFF);
          ext' := ext + [next];
        }
      }
    }

    /** The expansion loop of fat32_write: walk the chain until it can hold `end` bytes, linking free
        clusters behind the last one.  Stops early when the FAT is full, keeping what it linked. */
    method ExtendChain(first: nat, end: nat, ghost ch: seq<nat>) returns (ok: bool, ghost ext: seq<nat>)
      requires Valid() && IsChain(FatOf(geo, disk[..]), ch) && ch[0] == first
      modifies disk
      ensures Grown(geo, old(disk[..]), disk[..], ch, ext)
      ensures ok ==> end <= Capacity(geo, |ch| + |ext|)
      ensures !ok ==> end > Capacity(geo, |ch| + |ext|) && FreeClusters(FatOf(geo, disk[..])) == {}
      ensures ext != [] ==> Capacity(geo, |ch| + |ext| - 1) < end
    {
      var clusterBytes := geo.spc * 512;
      var current := first;
      var writeEnd := end;
      ghost var i, d0 := 0, disk[..];
      ext := [];
      assert ch + ext == ch;
      while writeEnd > clusterBytes
        invariant i < |ch| + |ext| && current == (ch + ext)[i]
        invariant 0 <= writeEnd && end == Capacity(geo, i) + writeEnd
        invariant Grown(geo, d0, disk[..], ch, ext)
        invariant ext != [] ==> i == |ch| + |ext| - 1 && writeEnd > 0
      {
        current, ext := StepOrLink(current, d0, ch, ext, i);
        if current == 0 {
          return false, ext;
        }
        writeEnd := writeEnd - clusterBytes;
        i := i + 1;
      }
      TimesMonotone(i + 1, |ch| + |ext|, geo.spc);
      return true, ext;
    }

    /** One sector of the data loop, the p-th of the chain. */
    method WriteSector(lba: nat, sector: array<Byte>, offset: nat, data: seq<Byte>, skip: nat, written0: nat,
                       ghost d0: Disk, ghost ls: seq<nat>, ghost p: nat)
      returns (written: nat)
      requires ValidLbas(|d0|, ls) && p < |ls| && ls[p] == lba < disk.Length && sector.Length == 512
      requires skip < 512 && written0 < |data| && Storing(d0, disk[..], ls, p, offset, data, skip, written0)
      modifies disk, sector
      ensures Storing(d0, disk[..], ls, p + 1, offset, data, 0, written)
    {
      ghost var d := disk[..];
      written := StoreSector(lba, sector, skip, data, written0);
      StoreStep(d0, d, disk[..], ls, p, offset, data, skip, written0, written - written0);
    }

    /** The data loop of fat32_write within one cluster: skip whole sectors, then read-modify-write. */
    method WriteCluster(cluster: nat, offset: nat, data: seq<Byte>, skip0: nat, written0: nat,
                        ghost d0: Disk, ghost ls: seq<nat>, ghost p0: nat)
      returns (skip: nat, written: nat)
      requires Valid() && 2 <= cluster < Slots(geo)
      requires ValidLbas(|d0|, ls) && Storing(d0, disk[..], ls, p0, offset, data, skip0, written0)
      requires p0 + geo.spc <= |ls|
      requires ls[p0..p0 + geo.spc] == Run(ClusterLba(geo, cluster), geo.spc)
      modifies disk
      ensures Storing(d0, disk[..], ls, p0 + geo.spc, offset, data, skip, written)
    {
      skip, written := skip0, written0;
      var lba := ClusterLba(geo, cluster);
      ClusterInRange(geo, disk.Length, cluster);
      var sector := new Byte[512];
      var sectorIdx := 0;
      while sectorIdx < geo.spc && written < |data|
        invariant sectorIdx <= geo.spc
        invariant Storing(d0, disk[..], ls, p0 + sectorIdx, offset, data, skip, written)
      {
        if skip >= 512 {
          skip := skip - 512;
        } else {
          assert ls[p0 + sectorIdx] == ls[p0..p0 + geo.spc][sectorIdx] == lba + sectorIdx;
          written := WriteSector(lba + sectorIdx, sector, offset, data, skip, written, d0, ls, p0 + sectorIdx);
          skip := 0;
        }
        sectorIdx := sectorIdx + 1;
      }
    }

    /** One sector of the data loop.  A sector that is wholly overwritten is not read first. */
    method StoreSector(lba: nat, sector: array<Byte>, sectorOffset: nat, data: seq<Byte>, written0: nat)
      returns (written: nat)
      requires lba < disk.Length && sector.Length == 512 && sectorOffset < 512 && written0 < |data|
      modifies disk, sector
      ensures written == written0 + Min(512 - sectorOffset, |data| - written0)
      ensures disk[..] == old(disk[..])[lba := Overwrite(old(disk[lba]), sectorOffset, data[written0..written])]
    {
      written := written0;
      if sectorOffset != 0 || |data| - written < 512 {
        forall k | 0 <= k < 512 { sector[k] := disk[lba][k]; }
      }
      var toCopy := 512 - sectorOffset;
      if toCopy > |data| - written {
        toCopy := |data| - written;
      }
      written := CopyIn(sector, sectorOffset, data, written, toCopy);
      assert sector[..] == Overwrite(old(disk[lba]), sectorOffset, data[written0..written]);
      disk[lba] := sector[..];
    }

    static method CopyIn(sector: array<Byte>, at: nat, data: seq<Byte>, written0: nat, toCopy: nat)
      returns (written: nat)
      requires at + toCopy <= sector.Length && written0 + toCopy <= |data|
      modifies sector
      ensures written == written0 + toCopy
      ensures sector[..] == Overwrite(old(sector[..]), at, data[written0..written])
    {
      written := written0;
      var i := 0;
      while i < toCopy
        invariant 0 <= i <= toCopy && written == written0 + i
        invariant forall k :: 0 <= k < sector.Length ==>
                    sector[k] == if at <= k < at + i then data[written0 + (k - at)] else old(sector[k])
      {
        sector[at + i] := data[written];
        written := written + 1;
        i := i + 1;
      }
    }

    /** One turn of the data loop: store into the i-th cluster and step along the chain. */
    method WriteTurn(current: nat, offset: nat, data: seq<Byte>, skip0: nat, written0: nat,
                     ghost d0: Disk, ghost ch: seq<nat>, ghost i: nat)
      returns (skip: nat, written: nat, next: nat)
      requires Valid() && |d0| == disk.Length && IsChain(FatOf(geo, d0), ch) && i < |ch| && current == ch[i]
      requires Clusters(geo, ch) && ValidLbas(|d0|, Lbas(geo, ch))
      requires Storing(d0, disk[..], Lbas(geo, ch), Times(i, geo.spc), offset, data, skip0, written0)
      modifies disk
      ensures Storing(d0, disk[..], Lbas(geo, ch), Times(i + 1, geo.spc), offset, data, skip, written)
      ensures if i + 1 < |ch| then next == ch[i + 1] && !EndOfChain(next) else EndOfChain(next)
    {
      LbasRun(geo, ch, i);
      skip, written := WriteCluster(current, offset, data, skip0, written0, d0, Lbas(geo, ch), Times(i, geo.spc));
      ChainFrame(geo, d0, disk[..], ch);
      ChainNext(FatOf(geo, d0), ch, i);
      next := ReadFatEntry(current);
    }

    /** The data loop of fat32_write, over a chain that can hold the data. */
    method WriteData(first: nat, offset: nat, data: seq<Byte>, ghost ch: seq<nat>) returns (written: nat)
      requires Valid() && IsChain(FatOf(geo, disk[..]), ch) && ch[0] == first
      requires offset + |data| <= Capacity(geo, |ch|)
      modifies disk
      ensures written == |data|
      ensures Stored(geo, old(disk[..]), disk[..], ch, offset, data)
    {
      ghost var d0 := disk[..];
      ChainLbas(geo, d0, ch);
      ghost var ls := Lbas(geo, ch);
      var current := first;
      var skip := offset;
      written := 0;
      ghost var i := 0;
      StoringStarts(d0, ls, offset, data);
      while written < |data| && !EndOfChain(current)
        invariant 0 <= i <= |ch|
        invariant if i < |ch| then current == ch[i] else EndOfChain(current)
        invariant Storing(d0, disk[..], ls, Times(i, geo.spc), offset, data, skip, written)
        decreases |ch| - i
      {
        skip, written, current := WriteTurn(current, offset, data, skip, written, d0, ch, i);
        i := i + 1;
      }
      StoreDone(geo, d0, disk[..], ch, Times(i, geo.spc), offset, data, skip, written);
    }

    /** The copy loop of fat32_read within one cluster. */
    method ReadCluster(cluster: nat, offset: nat, size: nat, skip0: nat, out0: seq<Byte>,
                       ghost ls: seq<nat>, ghost p0: nat)
      returns (skip: nat, out: seq<Byte>)
      requires Valid() && 2 <= cluster < Slots(geo)
      requires ValidLbas(disk.Length, ls) && Reading(View(disk[..], ls), p0, offset, size, out0, skip0)
      requires p0 + geo.spc <= |ls|
      requires ls[p0..p0 + geo.spc] == Run(ClusterLba(geo, cluster), geo.spc)
      ensures Reading(View(disk[..], ls), p0 + geo.spc, offset, size, out, skip)
    {
      skip, out := skip0, out0;
      var lba := ClusterLba(geo, cluster);
      ghost var v := View(disk[..], ls);
      var sectorIdx := 0;
      while sectorIdx < geo.spc && |out| < size
        invariant sectorIdx <= geo.spc
        invariant Reading(v, p0 + sectorIdx, offset, size, out, skip)
      {
        SectorOfRun(disk[..], ls, p0, lba, geo.spc, sectorIdx);
        skip, out := ReadSector(disk[lba + sectorIdx], offset, size, skip, out, v, p0 + sectorIdx);
        sectorIdx := sectorIdx + 1;
      }
    }

    /** One sector of the copy loop. */
    static method ReadSector(sector: Sector, offset: nat, size: nat, skip0: nat, out0: seq<Byte>,
                             ghost v: seq<Byte>, ghost p: nat)
      returns (skip: nat, out: seq<Byte>)
      requires |out0| < size && Reading(v, p, offset, size, out0, skip0)
      requires p * 512 + 512 <= |v| && v[p * 512..p * 512 + 512] == sector
      ensures Reading(v, p + 1, offset, size, out, skip)
    {
      if skip0 >= 512 {
        return skip0 - 512, out0;
      }
      var sectorOffset := skip0;
      var toCopy := 512 - sectorOffset;
      if toCopy > size - |out0| {
        toCopy := size - |out0|;
      }
      out := out0;
      var i := 0;
      while i < toCopy
        invariant 0 <= i <= toCopy
        invariant out == out0 + sector[sectorOffset..sectorOffset + i]
      {
        out := out + [sector[sectorOffset + i]];
        i := i + 1;
      }
      ReadStep(v, p, offset, size, out0, skip0, toCopy);
      skip := 0;
    }

    /** The skip loop of fat32_read: the cluster that holds the offset and what is left of the offset there,
        or an end mark when the chain is too short. */
    method SkipClusters(first: nat, offset: nat, ghost ch: seq<nat>) returns (cluster: nat, skip: nat)
      requires Valid() && IsChain(FatOf(geo, disk[..]), ch) && ch[0] == first
      ensures var i := Skipped(geo.spc * 512, offset, |ch|);
        && (if i < |ch| then cluster == ch[i] && skip < geo.spc * 512 else EndOfChain(cluster))
        && Times(i, geo.spc) * 512 + skip == offset
    {
      var clusterBytes := geo.spc * 512;
      cluster := first;
      skip := offset;
      ghost var i := 0;
      while skip >= clusterBytes && !EndOfChain(cluster)
        invariant i <= |ch|
        invariant if i < |ch| then cluster == ch[i] else EndOfChain(cluster)
        invariant Times(i, geo.spc) * 512 + skip == offset
        invariant i + Skipped(clusterBytes, skip, |ch| - i) == Skipped(clusterBytes, offset, |ch|)
        decreases |ch| - i
      {
        ChainNext(FatOf(geo, disk[..]), ch, i);
        cluster := ReadFatEntry(cluster);
        skip := skip - clusterBytes;
        i := i + 1;
      }
    }

    /** The copy loop of fat32_read from the i0-th cluster on. */
    method ReadChain(cluster0: nat, offset: nat, size: nat, skip0: nat, ghost ch: seq<nat>, ghost i0: nat)
      returns (out: seq<Byte>)
      requires Valid() && IsChain(FatOf(geo, disk[..]), ch) && i0 <= |ch|
      requires if i0 < |ch| then cluster0 == ch[i0] else EndOfChain(cluster0)
      requires Times(i0, geo.spc) * 512 + skip0 == offset
      ensures out == Slice(Contents(geo, disk[..], ch), offset, offset + size)
    {
      ChainLbas(geo, disk[..], ch);
      TimesMonotone(i0, |ch|, geo.spc);
      ghost var v := View(disk[..], Lbas(geo, ch));
      var cluster, skip := cluster0, skip0;
      ghost var i := i0;
      out := [];
      while |out| < size && !EndOfChain(cluster)
        invariant i <= |ch|
        invariant if i < |ch| then cluster == ch[i] else EndOfChain(cluster)
        invariant Reading(v, Times(i, geo.spc), offset, size, out, skip)
        decreases |ch| - i
      {
        skip, out, cluster := ReadTurn(cluster, offset, size, skip, out, ch, i);
        i := i + 1;
      }
      ReadDone(v, Times(i, geo.spc), offset, size, out, skip);
    }

    /** One turn of the copy loop: copy from the i-th cluster and step along the chain. */
    method ReadTurn(current: nat, offset: nat, size: nat, skip0: nat, out0: seq<Byte>, ghost ch: seq<nat>, ghost i: nat)
      returns (skip: nat, out: seq<Byte>, next: nat)
      requires Valid() && IsChain(FatOf(geo, disk[..]), ch) && i < |ch| && current == ch[i]
      requires Clusters(geo, ch) && ValidLbas(disk.Length, Lbas(geo, ch))
      requires Reading(View(disk[..], Lbas(geo, ch)), Times(i, geo.spc), offset, size, out0, skip0)
      ensures Reading(View(disk[..], Lbas(geo, ch)), Times(i + 1, geo.spc), offset, size, out, skip)
      ensures if i + 1 < |ch| then next == ch[i + 1] && !EndOfChain(next) else EndOfChain(next)
    {
      LbasRun(geo, ch, i);
      skip, out := ReadCluster(current, offset, size, skip0, out0, Lbas(geo, ch), Times(i, geo.spc));
      ChainNext(FatOf(geo, disk[..]), ch, i);
      next := ReadFatEntry(current);
    }

    /** fat32_read below the path level: the slice of the file from offset, cut at the recorded size
        and at the end of the chain. */
    method Read(first: nat, fileSize: nat, offset: nat, size: nat, ghost ch: seq<nat>) returns (out: seq<Byte>)
      requires Valid() && IsChain(FatOf(geo, disk[..]), ch) && ch[0] == first
      ensures out == Slice(Contents(geo, disk[..], ch), offset, Min(offset + size, fileSize))
    {
      ghost var end := Min(offset + size, fileSize);
      if offset >= fileSize {
        SliceEmpty(Contents(geo, disk[..], ch), offset, end);
        return [];
      }
      var available := fileSize - offset;
      var wanted := if size > available then available else size;
      assert offset + wanted == end;
      var cluster, skip := SkipClusters(first, offset, ch);
      ghost var i := Skipped(geo.spc * 512, offset, |ch|);
      out := ReadChain(cluster, offset, wanted, skip, ch, i);
    }

    /** fat32_write below the path level.  It runs out of space exactly when the chain and all free
        clusters together cannot hold the bytes up to the end of the write. */
    method Write(first: nat, fileSize: nat, offset: nat, data: seq<Byte>, ghost ch: seq<nat>)
      returns (r: WriteResult, ghost ext: seq<nat>, ghost mid: Disk)
      requires Valid() && IsChain(FatOf(geo, disk[..]), ch) && ch[0] == first
      requires offset + |data| < 0x1_0000_0000_0000_0000
      modifies disk
      ensures r.NoSpace? <==> Capacity(geo, |ch| + |FreeClusters(FatOf(geo, old(disk[..])))|) < offset + |data|
      ensures Grown(geo, old(disk[..]), mid, ch, ext)
      ensures ext != [] ==> Capacity(geo, |ch| + |ext| - 1) < offset + |data|
      ensures r.NoSpace? ==> disk[..] == mid
      ensures r.Written? ==> Stored(geo, mid, disk[..], ch + ext, offset, data)
      ensures r.Written? ==> r.count == |data|
      ensures r.Written? ==>
        r.fileSize == if offset + |data| > fileSize then (offset + |data|) % 0x1_0000_0000 else fileSize
    {
      ghost var t := FatOf(geo, disk[..]);
      var ok;
      ok, ext := ExtendChain(first, offset + |data|, ch);
      mid := disk[..];
      ExtensionFits(t, FatOf(geo, mid), ch, ext);
      TimesMonotone(|ch| + |ext|, |ch| + |FreeClusters(t)|, geo.spc);
      if !ok {
        return NoSpace, ext, mid;
      }
      var written := WriteData(first, offset, data, ch + ext);
      var size := fileSize;
      if offset + |data| > fileSize {
        size := (offset + |data|) % 0x1_0000_0000;
      }
      r := Written(written, size);
    }
  }

  /** Every write, finished or stopped for lack of space (the case d' == mid), keeps the files of the
      volume disjoint chains and changes the bytes of no other file. */
  lemma WriteKeepsFiles(g: Geometry, d: Disk, mid: Disk, d': Disk, files: seq<seq<nat>>, k: nat, ext: seq<nat>,
                        off: nat, data: seq<Byte>, j: nat)
    requires Sound(g, |d|) && Files(FatOf(g, d), files) && k < |files| && j < |files| && j != k
    requires Grown(g, d, mid, files[k], ext)
    requires d' == mid || Stored(g, mid, d', files[k] + ext, off, data)
    ensures Files(FatOf(g, d'), files[k := files[k] + ext])
    ensures IsChain(FatOf(g, d'), files[j]) && Contents(g, d', files[j]) == Contents(g, d, files[j])
  {
    var t, u := FatOf(g, d), FatOf(g, mid);
    ExtendedKeepsFiles(t, u, files, k, ext);
    ExtendedFrame(t, u, files[k], ext, files[j]);
    GrownKeepsBytes(g, d, mid, files[k], ext, files[j]);
    if d' != mid {
      StoredKeepsBytes(g, mid, d', files[k] + ext, off, data, files[j]);
    }
  }

  /** After a finished write the clusters of the file hold the data at the offset, and every other byte they had
      is kept. What fat32_read gives of it depends on the recorded size, too. */
  lemma ReadAfterWrite(g: Geometry, d: Disk, mid: Disk, d': Disk, ch: seq<nat>, ext: seq<nat>,
                       off: nat, data: seq<Byte>)
    requires Sound(g, |d|) && IsChain(FatOf(g, d), ch) && Grown(g, d, mid, ch, ext)
    requires Stored(g, mid, d', ch + ext, off, data)
    ensures var before, after := Contents(g, d, ch), Contents(g, d', ch + ext);
      && Slice(after, off, off + |data|) == data
      && |before| <= |after|
      && forall k :: 0 <= k < |before| && !(off <= k < off + |data|) ==> after[k] == before[k]
  {
    GrownKeepsPrefix(g, d, mid, ch, ext);
  }
}
