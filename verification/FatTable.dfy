/** The file allocation table as sageos_build/kernel/fs/fat32.c uses it: one 32-bit word per cluster, of
    which the low 28 bits name the next cluster of a chain. */
module FatTable {

  /** No slot number is an end mark. */
  type Fat = t: seq<nat> | |t| <= 0x0FFF_FFF7

  function Low(w: nat): nat { w % 0x1000_0000 }

  function High(w: nat): nat { w / 0x1000_0000 }

  /** The word w with its low 28 bits replaced by those of v. */
  function Merge(w: nat, v: nat): (r: nat)
    ensures High(r) == High(w) && Low(r) == Low(v)
    ensures w < 0x1_0000_0000 ==> r < 0x1_0000_0000
  {
    w / 0x1000_0000 * 0x1000_0000 + v % 0x1000_0000
  }

  predicate EndOfChain(e: nat) { e >= 0x0FFF_FFF8 }

  /** Of the 28-bit values, the last eight end a chain. */
  lemma EndMarks(e: nat)
    requires e < 0x1000_0000
    ensures EndOfChain(e) <==> 0x1000_0000 - e <= 8
  {
  }

  predicate InRange(t: Fat, c: nat) { 2 <= c < |t| }

  /** fat32_read_fat_entry */
  function Next(t: Fat, c: nat): nat
    requires c < |t|
  {
    Low(t[c])
  }

  /** fat32_write_fat_entry */
  function SetNext(t: Fat, c: nat, v: nat): (r: Fat)
    requires c < |t|
    ensures |r| == |t|
  {
    t[c := Merge(t[c], v)]
  }

  /** Following the FAT from ch[0] visits exactly ch and then meets an end mark. */
  ghost predicate IsChain(t: Fat, ch: seq<nat>)
  {
    && |ch| > 0
    && (forall i :: 0 <= i < |ch| ==> InRange(t, ch[i]))
    && (forall i :: 0 <= i < |ch| - 1 ==> Next(t, ch[i]) == ch[i + 1])
    && EndOfChain(Next(t, ch[|ch| - 1]))
  }

  /** Reading the entry of the i-th cluster steps along the chain, and meets an end mark only at its end. */
  lemma ChainNext(t: Fat, ch: seq<nat>, i: nat)
    requires IsChain(t, ch) && i < |ch|
    ensures if i < |ch| - 1 then Next(t, ch[i]) == ch[i + 1] && !EndOfChain(ch[i + 1])
            else EndOfChain(Next(t, ch[i]))
  {
    if i < |ch| - 1 {
      assert Next(t, ch[i]) == ch[i + 1];
      assert InRange(t, ch[i + 1]);
    }
  }

  /** A chain that ends cannot visit a cluster twice. */
  lemma {:induction false} ChainAcyclic(t: Fat, ch: seq<nat>, i: nat, j: nat)
    requires IsChain(t, ch)
    requires i < j < |ch|
    ensures ch[i] != ch[j]
    decreases |ch| - j
  {
    ChainNext(t, ch, i);
    ChainNext(t, ch, j);
    if j < |ch| - 1 {
      ChainAcyclic(t, ch, i + 1, j + 1);
    }
  }

  /** The first cluster determines the chain. */
  lemma {:induction false} ChainUnique(t: Fat, a: seq<nat>, b: seq<nat>)
    requires IsChain(t, a) && IsChain(t, b)
    requires a[0] == b[0]
    ensures a == b
    decreases |a|
  {
    ChainNext(t, a, 0);
    ChainNext(t, b, 0);
    if |a| > 1 {
      ChainTail(t, a);
      ChainTail(t, b);
      ChainUnique(t, a[1..], b[1..]);
      assert a == [a[0]] + a[1..] && b == [b[0]] + b[1..];
    }
  }

  lemma ChainTail(t: Fat, ch: seq<nat>)
    requires IsChain(t, ch) && |ch| > 1
    ensures IsChain(t, ch[1..])
  {
    var u := ch[1..];
    forall i | 0 <= i < |u| - 1 ensures Next(t, u[i]) == u[i + 1] {
      ChainNext(t, ch, i + 1);
    }
  }

  /** No cluster of a chain is free. */
  lemma ChainNotFree(t: Fat, ch: seq<nat>, c: nat)
    requires IsChain(t, ch) && c in ch
    ensures InRange(t, c) && Next(t, c) != 0
  {
    var i :| 0 <= i < |ch| && ch[i] == c;
    ChainNext(t, ch, i);
    if i < |ch| - 1 {
      assert InRange(t, ch[i + 1]);
    }
  }

  ghost predicate Disjoint(a: seq<nat>, b: seq<nat>)
  {
    forall c :: c in a ==> c !in b
  }

  /** The files of a volume: chains that share no cluster. */
  ghost predicate Files(t: Fat, files: seq<seq<nat>>)
  {
    && (forall j :: 0 <= j < |files| ==> IsChain(t, files[j]))
    && (forall j, k :: 0 <= j < |files| && 0 <= k < |files| && j != k ==> Disjoint(files[j], files[k]))
  }

  // ---------------------------------------------------------------- extending a chain

  /** u is t with the chain ch prolonged by clusters ext that were free, and no other change: every
      entry keeps its top four bits and every other entry all its bits. */
  ghost predicate Extended(t: Fat, u: Fat, ch: seq<nat>, ext: seq<nat>)
    requires |ch| > 0
  {
    && |u| == |t|
    && IsChain(u, ch + ext)
    && (forall c :: c in ext ==> InRange(t, c) && Next(t, c) == 0)
    && (forall c :: 0 <= c < |t| ==> High(u[c]) == High(t[c]))
    && (forall c :: 0 <= c < |t| && c !in ext && c != ch[|ch| - 1] ==> u[c] == t[c])
    && (ext == [] ==> u == t)
  }

  /** The two writes that link a free cluster n behind the last one. */
  function Link(t: Fat, last: nat, n: nat): (r: Fat)
    requires last < |t| && n < |t|
    ensures |r| == |t|
  {
    SetNext(SetNext(t, last, n), n, 0x0FFF_FFFF)
  }

  lemma LinkChain(t: Fat, ch: seq<nat>, n: nat)
    requires IsChain(t, ch) && InRange(t, n) && Next(t, n) == 0
    ensures IsChain(Link(t, ch[|ch| - 1], n), ch + [n])
    ensures n !in ch
  {
    if n in ch {
      ChainNotFree(t, ch, n);
    }
    var m := |ch| - 1;
    var r, after := Link(t, ch[m], n), ch + [n];
    forall i | 0 <= i < |after| - 1 ensures Next(r, after[i]) == after[i + 1] {
      if i < m {
        ChainAcyclic(t, ch, i, m);
        assert Next(t, ch[i]) == ch[i + 1];
      }
    }
  }

  /** Linking one more free cluster to an extended chain extends it by that cluster. */
  lemma ExtendStep(t: Fat, u: Fat, ch: seq<nat>, ext: seq<nat>, n: nat)
    requires |ch| > 0 && Extended(t, u, ch, ext)
    requires InRange(u, n) && Next(u, n) == 0
    ensures Extended(t, Link(u, (ch + ext)[|ch + ext| - 1], n), ch, ext + [n])
  {
    LinkChain(u, ch + ext, n);
    assert ch + ext + [n] == ch + (ext + [n]);
    assert (ch + ext)[|ch| - 1] == ch[|ch| - 1];
    assert n !in ext && n != ch[|ch| - 1];
    assert forall c :: c in ext + [n] ==> c in ext || c == n;
    assert ext != [] ==> (ch + ext)[|ch + ext| - 1] in ext;
  }

  /** Extending one chain leaves every disjoint chain alone and disjoint. */
  lemma ExtendedFrame(t: Fat, u: Fat, ch: seq<nat>, ext: seq<nat>, o: seq<nat>)
    requires IsChain(t, ch) && Extended(t, u, ch, ext)
    requires IsChain(t, o) && Disjoint(o, ch)
    ensures IsChain(u, o) && Disjoint(o, ch + ext)
  {
    forall i | 0 <= i < |o| ensures o[i] !in ch + ext && u[o[i]] == t[o[i]] {
      ChainNotFree(t, o, o[i]);
      assert o[i] in o && ch[|ch| - 1] in ch;
    }
    forall i | 0 <= i < |o| - 1 ensures Next(u, o[i]) == o[i + 1] {
      assert Next(t, o[i]) == o[i + 1];
    }
  }

  /** Extending one file keeps the files of the volume disjoint chains. */
  lemma ExtendedKeepsFiles(t: Fat, u: Fat, files: seq<seq<nat>>, k: nat, ext: seq<nat>)
    requires Files(t, files) && k < |files| && Extended(t, u, files[k], ext)
    ensures Files(u, files[k := files[k] + ext])
  {
    var after := files[k := files[k] + ext];
    forall j | 0 <= j < |files| && j != k
      ensures IsChain(u, after[j]) && Disjoint(after[j], after[k]) && Disjoint(after[k], after[j])
    {
      ExtendedFrame(t, u, files[k], ext, files[j]);
    }
    forall i, j | 0 <= i < |after| && 0 <= j < |after| && i != j ensures Disjoint(after[i], after[j]) {
      if i != k && j != k {
        assert after[i] == files[i] && after[j] == files[j];
      }
    }
  }

  // ---------------------------------------------------------------- free clusters

  /** The clusters fat32_find_free_cluster may hand out. */
  ghost function FreeClusters(t: Fat): (f: set<nat>)
  {
    set c: nat | c < |t| && InRange(t, c) && Next(t, c) == 0
  }

  ghost function Elements(s: seq<nat>): set<nat> { set c | c in s }

  lemma {:induction false} DistinctCount(s: seq<nat>)
    requires forall i, j :: 0 <= i < j < |s| ==> s[i] != s[j]
    ensures |Elements(s)| == |s|
  {
    if s == [] {
      assert Elements(s) == {};
    } else {
      var n := |s| - 1;
      DistinctCount(s[..n]);
      assert Elements(s) == Elements(s[..n]) + {s[n]};
    }
  }

  lemma SubsetCount(a: set<nat>, b: set<nat>)
    requires a <= b
    ensures |a| <= |b|
  {
    assert b == a + (b - a);
  }

  /** An extension takes different clusters, all of them free before; a full FAT means it took all. */
  lemma ExtensionFits(t: Fat, u: Fat, ch: seq<nat>, ext: seq<nat>)
    requires IsChain(t, ch) && Extended(t, u, ch, ext)
    ensures |ext| <= |FreeClusters(t)|
    ensures FreeClusters(u) == {} ==> |ext| == |FreeClusters(t)|
  {
    var free := FreeClusters(t);
    forall i, j | 0 <= i < j < |ext| ensures ext[i] != ext[j] {
      ChainAcyclic(u, ch + ext, |ch| + i, |ch| + j);
    }
    DistinctCount(ext);
    assert Elements(ext) <= free;
    SubsetCount(Elements(ext), free);
    if FreeClusters(u) == {} {
      ChainNotFree(t, ch, ch[|ch| - 1]);
      forall c | c in free ensures c in Elements(ext) {
        assert c !in ext ==> c in FreeClusters(u);
      }
      SubsetCount(free, Elements(ext));
    }
  }
}
