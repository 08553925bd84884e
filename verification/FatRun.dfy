/** Whole runs of fat32_write on a volume, finished writes and writes stopped for lack of space alike. */
module FatRun {
  import opened Bytes
  import opened FatTable
  import opened FatDisk
  import opened FatChain
  import opened FatVolume

  /** One write: the file it was for, the clusters it added, the disk after the extension and at the end, and
      whether there was space for it. */
  datatype Write = Write(file: nat, ext: seq<nat>, mid: Disk, off: nat, data: seq<Byte>, after: Disk, done: bool)

  datatype State = State(disk: Disk, files: seq<seq<nat>>)

  ghost predicate Consistent(g: Geometry, s: State) { Sound(g, |s.disk|) && Files(FatOf(g, s.disk), s.files) }

  /** What Volume.Write promises of one write. */
  ghost predicate Happens(g: Geometry, s: State, w: Write)
    requires Consistent(g, s)
  {
    && w.file < |s.files|
    && Grown(g, s.disk, w.mid, s.files[w.file], w.ext)
    && if w.done then Stored(g, w.mid, w.after, s.files[w.file] + w.ext, w.off, w.data) else w.after == w.mid
  }

  ghost function Next(s: State, w: Write): (r: State)
    requires w.file < |s.files|
  {
    State(w.after, s.files[w.file := s.files[w.file] + w.ext])
  }

  /** Volume.Write is such a write. */
  method WriteFile(vol: Volume, ghost s: State, first: nat, fileSize: nat, offset: nat, data: seq<Byte>, ghost j: nat)
    returns (r: WriteResult, ghost w: Write)
    requires vol.Valid() && s.disk == vol.disk[..] && Consistent(vol.geo, s) && j < |s.files| && s.files[j][0] == first
    requires offset + |data| < 0x1_0000_0000_0000_0000
    modifies vol.disk
    ensures Happens(vol.geo, s, w) && w.file == j && w.off == offset && w.data == data
    ensures w.after == vol.disk[..] && (w.done <==> r.Written?)
  {
    ghost var ext, mid;
    r, ext, mid := vol.Write(first, fileSize, offset, data, s.files[j]);
    w := Write.Write(j, ext, mid, offset, data, vol.disk[..], r.Written?);
  }

  lemma WriteKeepsVolume(g: Geometry, s: State, w: Write)
    requires Consistent(g, s) && Happens(g, s, w)
    ensures Consistent(g, Next(s, w))
  {
    var ch := s.files[w.file];
    ExtendedKeepsFiles(FatOf(g, s.disk), FatOf(g, w.mid), s.files, w.file, w.ext);
    if w.done {
      ChainLbas(g, w.mid, ch + w.ext);
      ChainFrame(g, w.mid, w.after, ch + w.ext);
    }
  }

  /** A run of writes, each on the disk the one before left. */
  ghost predicate Run(g: Geometry, s: State, ws: seq<Write>)
    requires Consistent(g, s)
    decreases |ws|
  {
    ws == [] || (Happens(g, s, ws[0]) && (WriteKeepsVolume(g, s, ws[0]); Run(g, Next(s, ws[0]), ws[1..])))
  }

  ghost function End(g: Geometry, s: State, ws: seq<Write>): (r: State)
    requires Consistent(g, s) && Run(g, s, ws)
    ensures Consistent(g, r) && |r.files| == |s.files|
    decreases |ws|
  {
    if ws == [] then s
    else
      WriteKeepsVolume(g, s, ws[0]);
      End(g, Next(s, ws[0]), ws[1..])
  }

  lemma RunFirst(g: Geometry, s: State, ws: seq<Write>)
    requires Consistent(g, s) && Run(g, s, ws) && ws != []
    ensures Happens(g, s, ws[0]) && Consistent(g, Next(s, ws[0])) && Run(g, Next(s, ws[0]), ws[1..])
    ensures End(g, s, ws) == End(g, Next(s, ws[0]), ws[1..])
  {
    WriteKeepsVolume(g, s, ws[0]);
  }

  /** After every run of writes the files are still disjoint chains, each with its old chain in front, and a
      file that no write was for has the clusters and the bytes it had. */
  lemma {:induction false} RunKeepsFiles(g: Geometry, s: State, ws: seq<Write>, j: nat)
    requires Consistent(g, s) && Run(g, s, ws) && j < |s.files|
    ensures var r := End(g, s, ws);
      && Files(FatOf(g, r.disk), r.files)
      && s.files[j] <= r.files[j]
      && ((forall k :: 0 <= k < |ws| ==> ws[k].file != j) ==>
          r.files[j] == s.files[j] && Contents(g, r.disk, r.files[j]) == Contents(g, s.disk, s.files[j]))
    decreases |ws|
  {
    if ws != [] {
      var w := ws[0];
      RunFirst(g, s, ws);
      RunKeepsFiles(g, Next(s, w), ws[1..], j);
      if w.file != j {
        WriteKeepsFiles(g, s.disk, w.mid, w.after, s.files, w.file, w.ext, w.off, w.data, j);
      }
    }
  }

  // ---------------------------------------------------------------- the bytes of written files

  /** The byte that the last finished write covering position x of file j put there. */
  function LastWritten(ws: seq<Write>, j: nat, x: nat): (r: Option<Byte>)
  {
    if ws == [] then None
    else
      var later := LastWritten(ws[1..], j, x);
      if later.Some? then later
      else if Writes(ws[0], j, x) then Some(ws[0].data[x - ws[0].off]) else None
  }

  ghost function FileBytes(g: Geometry, s: State, j: nat): (v: seq<Byte>)
    requires Consistent(g, s) && j < |s.files|
  {
    Contents(g, s.disk, s.files[j])
  }

  predicate Writes(w: Write, j: nat, x: nat) { w.file == j && w.done && w.off <= x < w.off + |w.data| }

  /** The bytes u of file j are those of v after the write w, as far as position x goes. */
  predicate Patched(v: seq<Byte>, u: seq<Byte>, w: Write, j: nat, x: nat)
  {
    && |v| <= |u|
    && (Writes(w, j, x) ==> x < |u| && u[x] == w.data[x - w.off])
    && (!Writes(w, j, x) && x < |v| ==> u[x] == v[x])
  }

  lemma OwnWrite(g: Geometry, d: Disk, ch: seq<nat>, w: Write, x: nat)
    requires Sound(g, |d|) && IsChain(FatOf(g, d), ch) && w.done && Grown(g, d, w.mid, ch, w.ext)
    requires Stored(g, w.mid, w.after, ch + w.ext, w.off, w.data)
    ensures Patched(Contents(g, d, ch), Contents(g, w.after, ch + w.ext), w, w.file, x)
  {
    ReadAfterWrite(g, d, w.mid, w.after, ch, w.ext, w.off, w.data);
    if Writes(w, w.file, x) {
      WrittenByte(Contents(g, w.after, ch + w.ext), w.off, w.data, x);
    }
  }

  /** What one write leaves at position x of file j. */
  lemma WriteByte(g: Geometry, s: State, w: Write, j: nat, x: nat)
    requires Consistent(g, s) && Happens(g, s, w) && j < |s.files|
    ensures Consistent(g, Next(s, w)) && Patched(FileBytes(g, s, j), FileBytes(g, Next(s, w), j), w, j, x)
  {
    WriteKeepsVolume(g, s, w);
    if w.file != j {
      WriteKeepsFiles(g, s.disk, w.mid, w.after, s.files, w.file, w.ext, w.off, w.data, j);
    } else if w.done {
      OwnWrite(g, s.disk, s.files[j], w, x);
    } else {
      GrownKeepsPrefix(g, s.disk, w.mid, s.files[j], w.ext);
    }
  }

  lemma WrittenByte(u: seq<Byte>, off: nat, data: seq<Byte>, x: nat)
    requires Slice(u, off, off + |data|) == data && off <= x < off + |data|
    ensures x < |u| && u[x] == data[x - off]
  {
    assert Slice(u, off, off + |data|)[x - off] == u[x];
  }

  /** Position x of file j, with bytes u after the run and v before it, holds what the writes say. */
  predicate Settled(v: seq<Byte>, u: seq<Byte>, ws: seq<Write>, j: nat, x: nat)
  {
    && |v| <= |u|
    && match LastWritten(ws, j, x)
       case Some(b) => x < |u| && u[x] == b
       case None => x < |v| ==> u[x] == v[x]
  }

  lemma SettledStep(v: seq<Byte>, mid: seq<Byte>, u: seq<Byte>, ws: seq<Write>, j: nat, x: nat)
    requires ws != [] && Patched(v, mid, ws[0], j, x) && Settled(mid, u, ws[1..], j, x)
    ensures Settled(v, u, ws, j, x)
  {
  }

  /** After every run of writes each position of each file holds the byte of the last finished write that
      covered it, and what it held at first where none did. */
  lemma {:induction false} RunWrites(g: Geometry, s: State, ws: seq<Write>, j: nat, x: nat)
    requires Consistent(g, s) && Run(g, s, ws) && j < |s.files|
    ensures Settled(FileBytes(g, s, j), FileBytes(g, End(g, s, ws), j), ws, j, x)
    decreases |ws|
  {
    if ws != [] {
      RunFirst(g, s, ws);
      var next := Next(s, ws[0]);
      WriteByte(g, s, ws[0], j, x);
      RunWrites(g, next, ws[1..], j, x);
      SettledStep(FileBytes(g, s, j), FileBytes(g, next, j), FileBytes(g, End(g, s, ws), j), ws, j, x);
    }
  }

  /** The top four bits of every FAT entry are those it had at first. */
  lemma {:induction false} RunKeepsHigh(g: Geometry, s: State, ws: seq<Write>, c: nat)
    requires Consistent(g, s) && Run(g, s, ws) && c < |FatOf(g, s.disk)|
    ensures var t, u := FatOf(g, s.disk), FatOf(g, End(g, s, ws).disk);
      |u| == |t| && High(u[c]) == High(t[c])
    decreases |ws|
  {
    if ws != [] {
      WriteKeepsVolume(g, s, ws[0]);
      WriteKeepsHigh(g, s, ws[0], c);
      RunKeepsHigh(g, Next(s, ws[0]), ws[1..], c);
    }
  }

  lemma WriteKeepsHigh(g: Geometry, s: State, w: Write, c: nat)
    requires Consistent(g, s) && Happens(g, s, w) && c < |FatOf(g, s.disk)|
    ensures |w.after| == |s.disk| && |FatOf(g, w.after)| == |FatOf(g, s.disk)|
    ensures High(FatOf(g, w.after)[c]) == High(FatOf(g, s.disk)[c])
  {
    WriteKeepsVolume(g, s, w);
    if w.done {
      ChainLbas(g, w.mid, s.files[w.file] + w.ext);
      ChainFrame(g, w.mid, w.after, s.files[w.file] + w.ext);
    }
  }
}
