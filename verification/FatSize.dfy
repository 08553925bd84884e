/** The file size that fat32_write of sageos_build/kernel/fs/fat32.c records in 32 bits, and what fat32_read, which
    stops at it, gives back of what was written. */
module FatSize {
  import opened Bytes
  import opened FatTable
  import opened FatDisk
  import opened FatChain
  import opened FatVolume
  import opened FatRun

  const LIMIT := 0x1_0000_0000

  /** The size in the directory entry after a finished write of n bytes at off. */
  function NewSize(size: nat, off: nat, n: nat): (r: nat) { if off + n > size then (off + n) % LIMIT else size }

  // ---------------------------------------------------------------- one write

  lemma CutSlice(v: seq<Byte>, off: nat, data: seq<Byte>, end: nat)
    requires Slice(v, off, off + |data|) == data && end <= off + |data|
    ensures Slice(v, off, end) == data <==> data == [] || end == off + |data|
  {
  }

  /** Reading the range of a finished write, as far as the recorded size lets it, gives back the data exactly when
      there was none or the write ended below 2^32. */
  lemma ReadBackExactly(g: Geometry, d: Disk, mid: Disk, d': Disk, ch: seq<nat>, ext: seq<nat>,
                        off: nat, data: seq<Byte>, size: nat)
    requires Sound(g, |d|) && IsChain(FatOf(g, d), ch) && Grown(g, d, mid, ch, ext) && size < LIMIT
    requires Stored(g, mid, d', ch + ext, off, data)
    ensures Slice(Contents(g, d', ch + ext), off, Min(off + |data|, NewSize(size, off, |data|))) == data
      <==> data == [] || off + |data| < LIMIT
  {
    ReadAfterWrite(g, d, mid, d', ch, ext, off, data);
    CutSlice(Contents(g, d', ch + ext), off, data, Min(off + |data|, NewSize(size, off, |data|)));
  }

  /** fat32_write and then fat32_read of the same range: a write that finished reads back exactly when it was empty
      or ended below 2^32. */
  method WriteThenRead(vol: Volume, first: nat, fileSize: nat, offset: nat, data: seq<Byte>, ghost ch: seq<nat>)
    returns (r: WriteResult, out: seq<Byte>)
    requires vol.Valid() && IsChain(FatOf(vol.geo, vol.disk[..]), ch) && ch[0] == first
    requires fileSize < LIMIT && offset + |data| < 0x1_0000_0000_0000_0000
    modifies vol.disk
    ensures r.NoSpace? <==>
      Capacity(vol.geo, |ch| + |FreeClusters(FatOf(vol.geo, old(vol.disk[..])))|) < offset + |data|
    ensures r.Written? ==> r == Written(|data|, NewSize(fileSize, offset, |data|))
    ensures r.Written? ==> (out == data <==> data == [] || offset + |data| < LIMIT)
    ensures r.Written? && NewSize(fileSize, offset, |data|) <= offset ==> out == []
  {
    ghost var d := vol.disk[..];
    ghost var ext, mid;
    r, ext, mid := vol.Write(first, fileSize, offset, data, ch);
    out := [];
    if r.Written? {
      ReadBackExactly(vol.geo, d, mid, vol.disk[..], ch, ext, offset, data, fileSize);
      out := vol.Read(first, r.fileSize, offset, |data|, ch + ext);
    }
  }

  // ---------------------------------------------------------------- a byte that cannot be read back

  /** A volume of 64K clusters, one FAT and one file, in the first m clusters. */
  function Geo(fatSize: nat): Geometry { Geometry(0, 1, 1, fatSize, 128) }

  function EntryFor(m: nat, c: nat): (w: nat)
    requires m < 0x0FFF_FFF0
    ensures w < LIMIT
  {
    if c < 2 || c > m + 1 then 0 else if c == m + 1 then 0x0FFF_FFFF else c + 1
  }

  function FatSector(m: nat, s: nat): (r: Sector)
    requires m < 0x0FFF_FFF0
  {
    seq(512, b requires 0 <= b < 512 => Le32(EntryFor(m, s * 128 + b / 4))[b % 4])
  }

  function SectorAt(fatSize: nat, m: nat, l: nat): (r: Sector)
    requires m < 0x0FFF_FFF0
  {
    if 1 <= l <= fatSize then FatSector(m, l - 1) else seq(512, _ => 0)
  }

  lemma FatSectorWord(m: nat, s: nat, j: nat)
    requires m < 0x0FFF_FFF0 && j < 128
    ensures Word(FatSector(m, s), j * 4) == EntryFor(m, s * 128 + j)
  {
    var w := EntryFor(m, s * 128 + j);
    var part := FatSector(m, s)[j * 4..j * 4 + 4];
    forall k | 0 <= k < 4 ensures part[k] == Le32(w)[k] {
      assert (j * 4 + k) / 4 == j && (j * 4 + k) % 4 == k;
    }
    assert part == Le32(w);
    Le32RoundTrip(w);
  }

  /** How many sectors the volume has. */
  function Sectors(fatSize: nat): (n: nat)
    requires fatSize >= 1
  {
    1 + fatSize + (fatSize * 128 - 2) * 128
  }

  lemma RoomySound(fatSize: nat)
    requires 1 <= fatSize <= 0x2_0000
    ensures Sound(Geo(fatSize), Sectors(fatSize)) && DataStart(Geo(fatSize)) == 1 + fatSize
  {
    TimesIsProduct(1, fatSize);
    TimesIsProduct(Slots(Geo(fatSize)) - 2, 128);
  }

  lemma RoomyWord(fatSize: nat, m: nat, d: Disk, q: nat, r: nat)
    requires m < 0x0FFF_FFF0 && q < fatSize < |d| && r < 128
    requires forall l :: 0 <= l < |d| ==> d[l] == SectorAt(fatSize, m, l)
    ensures Word(d[1 + q], r * 4) == EntryFor(m, q * 128 + r)
  {
    FatSectorWord(m, q, r);
  }

  lemma RoomyRaw(fatSize: nat, m: nat, d: Disk, c: nat)
    requires 1 <= fatSize <= 0x2_0000 && m + 2 <= fatSize * 128 && |d| == Sectors(fatSize) && c < fatSize * 128
    requires Sound(Geo(fatSize), |d|) && forall l :: 0 <= l < |d| ==> d[l] == SectorAt(fatSize, m, l)
    ensures Raw(Geo(fatSize), d, c) == EntryFor(m, c)
  {
    var q, r := c / 128, c % 128;
    assert c == q * 128 + r && q < fatSize;
    RoomyWord(fatSize, m, d, q, r);
  }

  lemma RoomyFat(fatSize: nat, m: nat, d: Disk, c: nat)
    requires 1 <= fatSize <= 0x2_0000 && m + 2 <= fatSize * 128 && |d| == Sectors(fatSize) && c < fatSize * 128
    requires forall l :: 0 <= l < |d| ==> d[l] == SectorAt(fatSize, m, l)
    ensures Sound(Geo(fatSize), |d|) && FatOf(Geo(fatSize), d)[c] == EntryFor(m, c)
  {
    RoomySound(fatSize);
    WordsAt(Geo(fatSize), d, Slots(Geo(fatSize)), c);
    RoomyRaw(fatSize, m, d, c);
  }

  lemma RoomyChain(fatSize: nat, m: nat, d: Disk, ch: seq<nat>)
    requires 1 <= fatSize <= 0x2_0000 && 1 <= m && m + 2 <= fatSize * 128 && |d| == Sectors(fatSize)
    requires forall l :: 0 <= l < |d| ==> d[l] == SectorAt(fatSize, m, l)
    requires |ch| == m && forall i :: 0 <= i < m ==> ch[i] == i + 2
    ensures Sound(Geo(fatSize), |d|) && IsChain(FatOf(Geo(fatSize), d), ch)
  {
    RoomySound(fatSize);
    var t := FatOf(Geo(fatSize), d);
    forall i | 0 <= i < m - 1 ensures FatTable.Next(t, ch[i]) == ch[i + 1] {
      RoomyFat(fatSize, m, d, ch[i]);
    }
    RoomyFat(fatSize, m, d, ch[m - 1]);
  }

  /** A file fills 65536 clusters of 64K but for the last byte. Appending that byte succeeds, the size on record
      becomes 0, and reading the byte gives nothing. */
  method LostByte(fatSize: nat, m: nat, byte: Byte) returns (r: WriteResult, out: seq<Byte>)
    requires m == 0x1_0000 && m + 2 <= fatSize * 128 <= 0x100_0000
    ensures r == Written(1, 0) && out == []
  {
    RoomySound(fatSize);
    var disk := new Sector[Sectors(fatSize)](l requires 0 <= l => SectorAt(fatSize, m, l));
    var vol := new Volume(Geo(fatSize), disk);
    ghost var ch := seq(m, i requires 0 <= i < m => i + 2);
    RoomyChain(fatSize, m, disk[..], ch);
    ghost var free := |FreeClusters(FatOf(vol.geo, disk[..]))|;
    TimesIsProduct(m, 128);
    TimesMonotone(m, m + free, 128);
    r, out := WriteThenRead(vol, 2, LIMIT - 1, LIMIT - 1, [byte], ch);
  }

  // ---------------------------------------------------------------- runs of writes

  /** The recorded size of file j after a run. */
  function SizeAfter(size: nat, ws: seq<Write>, j: nat): (r: nat)
    ensures size < LIMIT ==> r < LIMIT
    decreases |ws|
  {
    if ws == [] then size
    else
      var w := ws[0];
      SizeAfter(if w.file == j && w.done then NewSize(size, w.off, |w.data|) else size, ws[1..], j)
  }

  predicate Finished(w: Write, j: nat) { w.file == j && w.done }

  predicate AllBelow(ws: seq<Write>, j: nat, limit: nat)
  {
    forall k :: 0 <= k < |ws| && Finished(ws[k], j) ==> ws[k].off + |ws[k].data| < limit
  }

  lemma {:induction false} SizeGrows(size: nat, ws: seq<Write>, j: nat)
    requires AllBelow(ws, j, LIMIT)
    ensures size <= SizeAfter(size, ws, j)
    ensures forall k :: 0 <= k < |ws| && Finished(ws[k], j) ==> ws[k].off + |ws[k].data| <= SizeAfter(size, ws, j)
    decreases |ws|
  {
    if ws != [] {
      var w := ws[0];
      var next := if Finished(w, j) then NewSize(size, w.off, |w.data|) else size;
      assert forall k :: 0 <= k < |ws[1..]| ==> ws[1..][k] == ws[k + 1];
      SizeGrows(next, ws[1..], j);
      assert forall k :: 0 < k < |ws| ==> ws[k] == ws[1..][k - 1];
    }
  }

  /** Over every run of writes the recorded size covers everything that was written exactly when every finished
      write ended below 2^32. */
  lemma SizeCoversExactly(size: nat, ws: seq<Write>, j: nat)
    requires size < LIMIT
    ensures AllBelow(ws, j, SizeAfter(size, ws, j) + 1) <==> AllBelow(ws, j, LIMIT)
  {
    if AllBelow(ws, j, LIMIT) {
      SizeGrows(size, ws, j);
    }
  }

  /** After every run of writes, reading a position that was written gives the byte written there last exactly when
      the recorded size reaches past it. */
  lemma ReadAfterRunExactly(g: Geometry, s: State, ws: seq<Write>, j: nat, x: nat, size: nat)
    requires Consistent(g, s) && FatRun.Run(g, s, ws) && j < |s.files| && LastWritten(ws, j, x).Some?
    ensures var now := SizeAfter(size, ws, j);
      Slice(FileBytes(g, End(g, s, ws), j), x, Min(x + 1, now)) == [LastWritten(ws, j, x).value] <==> x < now
  {
    RunWrites(g, s, ws, j, x);
  }
}
