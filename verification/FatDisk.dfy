/** The sectors under sageos_build/kernel/fs/fat32.c: where the geometry of the boot sector puts the FAT
    and the clusters, the FAT stored in little-endian words, and the bytes of a list of sectors. */
module FatDisk {
  import opened Bytes
  import opened FatTable

  type Sector = s: seq<Byte> | |s| == 512 witness seq(512, _ => 0)

  type Disk = seq<Sector>

  /** The boot-sector values that fat32_init keeps in static variables. */
  datatype Geometry = Geometry(partitionLba: nat, reserved: nat, fatCount: nat, fatSize: nat, spc: nat)

  /** n * m, unfolded one term at a time so that proofs stay linear. */
  function Times(n: nat, m: nat): nat
  {
    if n == 0 then 0 else Times(n - 1, m) + m
  }

  lemma {:induction false} TimesIsProduct(n: nat, m: nat)
    ensures Times(n, m) == n * m
  {
    if n > 0 {
      TimesIsProduct(n - 1, m);
    }
  }

  lemma {:induction false} TimesMonotone(a: nat, b: nat, m: nat)
    requires a <= b
    ensures Times(a, m) <= Times(b, m)
  {
    if a < b {
      TimesMonotone(a, b - 1, m);
    }
  }

  /** Slots in one FAT copy; fat32_find_free_cluster scans slots 2 to here. */
  function Slots(g: Geometry): nat { g.fatSize * 128 }

  function FatStart(g: Geometry): nat { g.partitionLba + g.reserved }

  function DataStart(g: Geometry): nat { FatStart(g) + Times(g.fatCount, g.fatSize) }

  /** fat32_cluster_to_lba */
  function ClusterLba(g: Geometry, c: nat): nat
    requires c >= 2
  {
    DataStart(g) + Times(c - 2, g.spc)
  }

  /** The geometry fits a disk of n sectors: every scanned slot has its data sectors on the disk, no
      slot number is an end mark, and no 32-bit sector number wraps. */
  ghost predicate Sound(g: Geometry, n: nat)
  {
    && g.spc >= 1
    && g.fatCount >= 1
    && g.fatSize >= 1
    && Slots(g) <= 0x0FFF_FFF7
    && DataStart(g) + Times(Slots(g) - 2, g.spc) <= n <= 0x1_0000_0000
  }

  lemma FatBeforeData(g: Geometry, n: nat)
    requires Sound(g, n)
    ensures FatStart(g) + g.fatSize <= DataStart(g) <= n
  {
    TimesMonotone(1, g.fatCount, g.fatSize);
  }

  /** Cluster 2 starts right behind the last FAT copy, and the others follow it at the size of a cluster. */
  lemma ClusterPlace(g: Geometry, c: nat)
    requires c >= 2
    ensures ClusterLba(g, c) == g.partitionLba + g.reserved + g.fatCount * g.fatSize + (c - 2) * g.spc
  {
    TimesIsProduct(g.fatCount, g.fatSize);
    TimesIsProduct(c - 2, g.spc);
  }

  lemma ClusterInRange(g: Geometry, n: nat, c: nat)
    requires Sound(g, n) && 2 <= c < Slots(g)
    ensures ClusterLba(g, c) + g.spc <= n
  {
    TimesMonotone(c - 1, Slots(g) - 2, g.spc);
  }

  lemma ClustersApart(g: Geometry, c: nat, c': nat)
    requires 2 <= c < c'
    ensures ClusterLba(g, c) + g.spc <= ClusterLba(g, c')
  {
    TimesMonotone(c - 1, c' - 2, g.spc);
  }

  // ---------------------------------------------------------------- the stored FAT

  function Word(s: Sector, i: nat): (w: nat)
    requires i + 4 <= 512
    ensures w < 0x1_0000_0000
  {
    FromLe32(s[i..i + 4])
  }

  function PutWord(s: Sector, i: nat, w: nat): (r: Sector)
    requires i + 4 <= 512 && w < 0x1_0000_0000
  {
    s[..i] + Le32(w) + s[i + 4..]
  }

  lemma PutWordEffect(s: Sector, i: nat, w: nat, j: nat)
    requires i + 4 <= 512 && j + 4 <= 512 && w < 0x1_0000_0000
    requires i == j || i + 4 <= j || j + 4 <= i
    ensures Word(PutWord(s, i, w), j) == if i == j then w else Word(s, j)
  {
    var r := PutWord(s, i, w);
    if i == j {
      assert r[j..j + 4] == Le32(w);
      Le32RoundTrip(w);
    } else {
      assert r[j..j + 4] == s[j..j + 4];
    }
  }

  /** The word stored for cluster c in the first FAT copy. */
  ghost function Raw(g: Geometry, d: Disk, c: nat): (w: nat)
    requires Sound(g, |d|) && c < Slots(g)
    ensures w < 0x1_0000_0000
  {
    FatBeforeData(g, |d|);
    Word(d[FatStart(g) + c / 128], c % 128 * 4)
  }

  ghost function Words(g: Geometry, d: Disk, n: nat): (t: seq<nat>)
    requires Sound(g, |d|) && n <= Slots(g)
    ensures |t| == n
  {
    if n == 0 then [] else Words(g, d, n - 1) + [Raw(g, d, n - 1)]
  }

  /** The FAT that a disk stores. */
  ghost function FatOf(g: Geometry, d: Disk): (t: Fat)
    requires Sound(g, |d|)
    ensures |t| == Slots(g)
  {
    Words(g, d, Slots(g))
  }

  lemma {:induction false} WordsAt(g: Geometry, d: Disk, n: nat, c: nat)
    requires Sound(g, |d|) && c < n <= Slots(g)
    ensures Words(g, d, n)[c] == Raw(g, d, c)
  {
    if c < n - 1 {
      WordsAt(g, d, n - 1, c);
    }
  }

  lemma SlotOffset(c: nat)
    ensures c * 4 / 512 == c / 128 && c * 4 % 512 == c % 128 * 4
  {
  }

  /** Disks that agree below the data area store the same FAT. */
  lemma FatFrame(g: Geometry, d: Disk, d': Disk)
    requires Sound(g, |d|) && |d'| == |d|
    requires forall l :: 0 <= l < |d| && l < DataStart(g) ==> d'[l] == d[l]
    ensures FatOf(g, d') == FatOf(g, d)
  {
    FatBeforeData(g, |d|);
    forall c | 0 <= c < Slots(g) ensures FatOf(g, d')[c] == FatOf(g, d)[c] {
      WordsAt(g, d, Slots(g), c);
      WordsAt(g, d', Slots(g), c);
    }
  }

  /** The disk after a word of the FAT is replaced. */
  ghost function PutRaw(g: Geometry, d: Disk, c: nat, w: nat): (r: Disk)
    requires Sound(g, |d|) && c < Slots(g) && w < 0x1_0000_0000
    ensures |r| == |d|
  {
    FatBeforeData(g, |d|);
    var lba := FatStart(g) + c / 128;
    d[lba := PutWord(d[lba], c % 128 * 4, w)]
  }

  lemma PutRawEffect(g: Geometry, d: Disk, c: nat, w: nat, k: nat)
    requires Sound(g, |d|) && c < Slots(g) && k < Slots(g) && w < 0x1_0000_0000
    ensures Raw(g, PutRaw(g, d, c, w), k) == if k == c then w else Raw(g, d, k)
  {
    FatBeforeData(g, |d|);
    if k / 128 == c / 128 {
      PutWordEffect(d[FatStart(g) + c / 128], c % 128 * 4, w, k % 128 * 4);
    }
  }

  /** Replacing the word on disk replaces the word of the FAT, and no sector outside the FAT. */
  lemma PutRawFat(g: Geometry, d: Disk, c: nat, w: nat)
    requires Sound(g, |d|) && c < Slots(g) && w < 0x1_0000_0000
    ensures FatOf(g, PutRaw(g, d, c, w)) == FatOf(g, d)[c := w]
    ensures forall l :: 0 <= l < |d| && !InFat(g, l) ==> PutRaw(g, d, c, w)[l] == d[l]
  {
    var r := PutRaw(g, d, c, w);
    forall k | 0 <= k < Slots(g) ensures FatOf(g, r)[k] == FatOf(g, d)[c := w][k] {
      WordsAt(g, d, Slots(g), k);
      WordsAt(g, r, Slots(g), k);
      PutRawEffect(g, d, c, w, k);
    }
  }

  ghost predicate InFat(g: Geometry, l: nat) { FatStart(g) <= l < FatStart(g) + g.fatSize }

  // ---------------------------------------------------------------- the bytes of a list of sectors

  ghost predicate ValidLbas(n: nat, ls: seq<nat>)
  {
    && (forall p :: 0 <= p < |ls| ==> ls[p] < n)
    && (forall p, q :: 0 <= p < q < |ls| ==> ls[p] != ls[q])
  }

  /** The bytes of the sectors listed in ls, in order. */
  ghost function View(d: Disk, ls: seq<nat>): (v: seq<Byte>)
    requires ValidLbas(|d|, ls)
    ensures |v| == |ls| * 512
    ensures forall k :: 0 <= k < |v| ==> v[k] == d[ls[k / 512]][k % 512]
  {
    seq(|ls| * 512, k requires 0 <= k < |ls| * 512 => d[ls[k / 512]][k % 512])
  }

  /** The bytes v with those from position off on replaced by data. */
  function Overwrite(v: seq<Byte>, off: nat, data: seq<Byte>): (r: seq<Byte>)
    requires off + |data| <= |v|
    ensures |r| == |v|
  {
    v[..off] + data + v[off + |data|..]
  }

  /** Storing one sector of the list overwrites its 512 bytes of the view. */
  lemma ViewAfterWrite(d: Disk, ls: seq<nat>, p: nat, s: Sector)
    requires ValidLbas(|d|, ls) && p < |ls|
    ensures View(d[ls[p] := s], ls) == Overwrite(View(d, ls), p * 512, s)
  {
    var a, b := View(d[ls[p] := s], ls), Overwrite(View(d, ls), p * 512, s);
    forall k | 0 <= k < |a| ensures a[k] == b[k] {
      if k / 512 == p {
        assert k == p * 512 + k % 512;
      }
    }
  }

  /** Lists of sectors with the same contents, one a prefix of the other. */
  lemma ViewPrefix(d: Disk, d': Disk, a: seq<nat>, b: seq<nat>)
    requires |d| == |d'| && ValidLbas(|d|, a) && ValidLbas(|d|, b) && a <= b
    requires forall p :: 0 <= p < |a| ==> d[a[p]] == d'[a[p]]
    ensures View(d, a) <= View(d', b)
  {
    forall k | 0 <= k < |View(d, a)| ensures View(d, a)[k] == View(d', b)[k] {
      assert a[k / 512] == b[k / 512];
    }
  }

  /** One sector of the list is one 512-byte slice of the view. */
  lemma ViewSector(d: Disk, ls: seq<nat>, p: nat)
    requires ValidLbas(|d|, ls) && p < |ls|
    ensures View(d, ls)[p * 512..p * 512 + 512] == d[ls[p]]
  {
    var v := View(d, ls)[p * 512..p * 512 + 512];
    forall b | 0 <= b < 512 ensures v[b] == d[ls[p]][b] {
      assert v[b] == View(d, ls)[p * 512 + b];
    }
  }

  /** Two adjoining overwrites are one. */
  lemma OverwriteExtend(v: seq<Byte>, off: nat, a: seq<Byte>, b: seq<Byte>)
    requires off + |a| + |b| <= |v|
    ensures Overwrite(Overwrite(v, off, a), off + |a|, b) == Overwrite(v, off, a + b)
  {
  }

  /** Overwriting part of a block and storing the whole block is overwriting the part. */
  lemma OverwriteBlock(v: seq<Byte>, start: nat, o: nat, data: seq<Byte>)
    requires start + 512 <= |v| && o + |data| <= 512
    ensures Overwrite(v, start, Overwrite(v[start..start + 512], o, data)) == Overwrite(v, start + o, data)
  {
  }
}
