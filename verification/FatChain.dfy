/** The sectors that the clusters of a chain own, and the bytes they hold. */
module FatChain {
  import opened Bytes
  import opened FatTable
  import opened FatDisk

  ghost predicate InCluster(g: Geometry, c: nat, l: nat)
  {
    c >= 2 && ClusterLba(g, c) <= l < ClusterLba(g, c) + g.spc
  }

  ghost function Run(start: nat, n: nat): (ls: seq<nat>)
    ensures |ls| == n
    ensures forall s :: 0 <= s < n ==> ls[s] == start + s
  {
    if n == 0 then [] else Run(start, n - 1) + [start + n - 1]
  }

  /** No cluster has a sector of any FAT copy. */
  lemma ClusterClearOfFats(g: Geometry, c: nat, l: nat, i: nat)
    requires InCluster(g, c, l) && i < g.fatCount
    ensures var start := g.partitionLba + g.reserved; !(start + i * g.fatSize <= l < start + (i + 1) * g.fatSize)
  {
    ClusterPlace(g, c);
    var rest := g.fatCount - (i + 1);
    assert g.fatCount * g.fatSize == (i + 1) * g.fatSize + rest * g.fatSize;
  }

  ghost predicate Clusters(g: Geometry, ch: seq<nat>) { forall i :: 0 <= i < |ch| ==> 2 <= ch[i] < Slots(g) }

  /** The sector numbers of the clusters in ch, in file order. */
  ghost function Lbas(g: Geometry, ch: seq<nat>): (ls: seq<nat>)
    requires Clusters(g, ch)
    ensures |ls| == Times(|ch|, g.spc)
  {
    if ch == [] then [] else Lbas(g, ch[..|ch| - 1]) + Run(ClusterLba(g, ch[|ch| - 1]), g.spc)
  }

  /** A word of a sector is four bytes of the view. */
  lemma WordInView(d: Disk, ls: seq<nat>, p: nat, at: nat, i: nat)
    requires ValidLbas(|d|, ls) && p < |ls| && at + 4 <= 512 && i == p * 512 + at
    ensures FromLe32(View(d, ls)[i..i + 4]) == Word(d[ls[p]], at)
  {
    var v, s := View(d, ls)[i..i + 4], d[ls[p]][at..at + 4];
    forall k | 0 <= k < 4 ensures v[k] == s[k] {
      assert v[k] == View(d, ls)[i + k];
      assert (i + k) / 512 == p && (i + k) % 512 == at + k;
    }
    assert v == s;
  }

  lemma FatSectorsValid(g: Geometry, n: nat)
    requires Sound(g, n)
    ensures ValidLbas(n, Run(g.partitionLba + g.reserved, g.fatSize))
  {
    FatBeforeData(g, n);
  }

  /** The FAT is the four-byte words, least significant byte first, of the sectors behind the reserved ones. */
  lemma FatInBytes(g: Geometry, d: Disk, c: nat)
    requires Sound(g, |d|) && c < g.fatSize * 128
    ensures ValidLbas(|d|, Run(g.partitionLba + g.reserved, g.fatSize))
    ensures var v := View(d, Run(g.partitionLba + g.reserved, g.fatSize));
      |FatOf(g, d)| == g.fatSize * 128 && FatOf(g, d)[c] == FromLe32(v[4 * c..4 * c + 4])
  {
    FatSectorsValid(g, |d|);
    FatBeforeData(g, |d|);
    WordsAt(g, d, Slots(g), c);
    WordInView(d, Run(g.partitionLba + g.reserved, g.fatSize), c / 128, c % 128 * 4, 4 * c);
  }

  /** Every listed sector is in some cluster of the chain. */
  lemma {:induction false} LbasOwner(g: Geometry, ch: seq<nat>, p: nat) returns (c: nat)
    requires Clusters(g, ch) && p < |Lbas(g, ch)|
    ensures c in ch && InCluster(g, c, Lbas(g, ch)[p])
  {
    var n := |ch| - 1;
    if p < |Lbas(g, ch[..n])| {
      c := LbasOwner(g, ch[..n], p);
    } else {
      c := ch[n];
    }
  }

  /** Cluster i owns positions Times(i, spc) to Times(i + 1, spc) of the list. */
  lemma {:induction false} LbasRun(g: Geometry, ch: seq<nat>, i: nat)
    requires Clusters(g, ch) && i < |ch|
    ensures Times(i + 1, g.spc) == Times(i, g.spc) + g.spc <= |Lbas(g, ch)|
    ensures Lbas(g, ch)[Times(i, g.spc)..Times(i + 1, g.spc)] == Run(ClusterLba(g, ch[i]), g.spc)
  {
    var n := |ch| - 1;
    var head, run := Lbas(g, ch[..n]), Run(ClusterLba(g, ch[n]), g.spc);
    var a, b := Times(i, g.spc), Times(i + 1, g.spc);
    assert Lbas(g, ch) == head + run;
    if i < n {
      LbasRun(g, ch[..n], i);
      assert (head + run)[a..b] == head[a..b];
    } else {
      assert |head| == a && b == a + |run|;
      assert (head + run)[a..b] == run;
    }
  }

  lemma {:induction false} LbasPrefix(g: Geometry, a: seq<nat>, b: seq<nat>)
    requires Clusters(g, a) && Clusters(g, b)
    ensures Lbas(g, a) <= Lbas(g, a + b)
  {
    if b == [] {
      assert a + b == a;
    } else {
      var n := |b| - 1;
      LbasPrefix(g, a, b[..n]);
      assert (a + b)[..|a + b| - 1] == a + b[..n];
    }
  }

  lemma SameClusterSector(g: Geometry, c: nat, c': nat, l: nat)
    requires InCluster(g, c, l) && InCluster(g, c', l)
    ensures c == c'
  {
    if c < c' {
      ClustersApart(g, c, c');
    } else if c' < c {
      ClustersApart(g, c', c);
    }
  }

  lemma {:induction false} LbasValid(g: Geometry, n: nat, ch: seq<nat>)
    requires Sound(g, n) && Clusters(g, ch)
    requires forall i, j :: 0 <= i < j < |ch| ==> ch[i] != ch[j]
    ensures ValidLbas(n, Lbas(g, ch))
    ensures forall p :: 0 <= p < |Lbas(g, ch)| ==> Lbas(g, ch)[p] >= DataStart(g)
  {
    if ch != [] {
      var m := |ch| - 1;
      LbasValid(g, n, ch[..m]);
      ClusterInRange(g, n, ch[m]);
      var head, all := Lbas(g, ch[..m]), Lbas(g, ch);
      forall p, q | 0 <= p < q < |all| ensures all[p] != all[q] {
        if p < |head| <= q {
          var c := LbasOwner(g, ch[..m], p);
          if all[q] == head[p] {
            SameClusterSector(g, c, ch[m], all[q]);
          }
        }
      }
    }
  }

  lemma ChainLbas(g: Geometry, d: Disk, ch: seq<nat>)
    requires Sound(g, |d|) && IsChain(FatOf(g, d), ch)
    ensures Clusters(g, ch)
    ensures ValidLbas(|d|, Lbas(g, ch))
    ensures forall p :: 0 <= p < |Lbas(g, ch)| ==> Lbas(g, ch)[p] >= DataStart(g)
  {
    forall i | 0 <= i < |ch| ensures 2 <= ch[i] < Slots(g) {
      assert InRange(FatOf(g, d), ch[i]);
    }
    forall i, j | 0 <= i < j < |ch| ensures ch[i] != ch[j] {
      ChainAcyclic(FatOf(g, d), ch, i, j);
    }
    LbasValid(g, |d|, ch);
  }

  /** The contents of a chain: the bytes of its sectors in file order. */
  ghost function Contents(g: Geometry, d: Disk, ch: seq<nat>): (v: seq<Byte>)
    requires Sound(g, |d|) && IsChain(FatOf(g, d), ch)
    ensures |v| == Times(|ch|, g.spc) * 512
  {
    ChainLbas(g, d, ch);
    View(d, Lbas(g, ch))
  }

  /** Clusters of disjoint chains own different sectors. */
  lemma LbasDisjoint(g: Geometry, a: seq<nat>, b: seq<nat>, p: nat)
    requires Clusters(g, a) && Clusters(g, b)
    requires Disjoint(a, b) && p < |Lbas(g, b)|
    ensures Lbas(g, b)[p] !in Lbas(g, a)
  {
    var l := Lbas(g, b)[p];
    if l in Lbas(g, a) {
      var c := LbasOwner(g, b, p);
      var q :| 0 <= q < |Lbas(g, a)| && Lbas(g, a)[q] == l;
      var c' := LbasOwner(g, a, q);
      SameClusterSector(g, c, c', l);
    }
  }

  // ---------------------------------------------------------------- what a write does, and to whom

  /** d' is d with the chain ch prolonged by ext: see Extended; outside the first FAT no sector changes. */
  ghost predicate Grown(g: Geometry, d: Disk, d': Disk, ch: seq<nat>, ext: seq<nat>)
    requires Sound(g, |d|) && |ch| > 0
  {
    && |d'| == |d|
    && Extended(FatOf(g, d), FatOf(g, d'), ch, ext)
    && (forall l :: 0 <= l < |d| && !InFat(g, l) ==> d'[l] == d[l])
  }

  /** d' is d with data stored at offset off of the chain ch, and no other sector changed. */
  ghost predicate Stored(g: Geometry, d: Disk, d': Disk, ch: seq<nat>, off: nat, data: seq<Byte>)
    requires Sound(g, |d|) && IsChain(FatOf(g, d), ch)
  {
    && |d'| == |d|
    && FatOf(g, d') == FatOf(g, d)
    && Clusters(g, ch)
    && (forall l :: 0 <= l < |d| && l !in Lbas(g, ch) ==> d'[l] == d[l])
    && off + |data| <= |Contents(g, d, ch)|
    && Contents(g, d', ch) == Overwrite(Contents(g, d, ch), off, data)
  }

  /** Extending a chain keeps the bytes of every chain that is still there. */
  lemma GrownKeepsBytes(g: Geometry, d: Disk, mid: Disk, ch: seq<nat>, ext: seq<nat>, o: seq<nat>)
    requires Sound(g, |d|) && |ch| > 0 && Grown(g, d, mid, ch, ext)
    requires IsChain(FatOf(g, d), o) && IsChain(FatOf(g, mid), o)
    ensures Contents(g, mid, o) == Contents(g, d, o)
  {
    ChainLbas(g, d, o);
    FatBeforeData(g, |d|);
    ViewPrefix(d, mid, Lbas(g, o), Lbas(g, o));
  }

  /** The extended chain starts with the bytes it had. */
  lemma GrownKeepsPrefix(g: Geometry, d: Disk, mid: Disk, ch: seq<nat>, ext: seq<nat>)
    requires Sound(g, |d|) && IsChain(FatOf(g, d), ch) && Grown(g, d, mid, ch, ext)
    ensures Contents(g, d, ch) <= Contents(g, mid, ch + ext)
  {
    ChainLbas(g, d, ch);
    ChainLbas(g, mid, ch + ext);
    FatBeforeData(g, |d|);
    forall i | 0 <= i < |ext| ensures 2 <= ext[i] < Slots(g) {
      assert (ch + ext)[|ch| + i] == ext[i];
    }
    LbasPrefix(g, ch, ext);
    ViewPrefix(d, mid, Lbas(g, ch), Lbas(g, ch + ext));
  }

  /** Storing into one chain leaves the bytes of a disjoint chain alone. */
  lemma StoredKeepsBytes(g: Geometry, d: Disk, d': Disk, ch: seq<nat>, off: nat, data: seq<Byte>, o: seq<nat>)
    requires Sound(g, |d|) && IsChain(FatOf(g, d), ch) && Stored(g, d, d', ch, off, data)
    requires IsChain(FatOf(g, d), o) && Disjoint(ch, o)
    ensures Contents(g, d', o) == Contents(g, d, o)
  {
    ChainLbas(g, d, o);
    forall p | 0 <= p < |Lbas(g, o)| ensures d[Lbas(g, o)[p]] == d'[Lbas(g, o)[p]] {
      LbasDisjoint(g, ch, o, p);
    }
    ViewPrefix(d, d', Lbas(g, o), Lbas(g, o));
  }
}
