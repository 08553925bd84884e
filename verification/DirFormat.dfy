/** The directory entries that a writer of the file system stores, field by field (FAT32_DirEntry and
    FAT32_LFNEntry of sageos_build/kernel/fs/fat32.c), and what the scan makes of them. */
module DirFormat {
  import opened Bytes
  import opened LongNames
  import opened FatDir

  /** A file as a directory records it: other stands for the reserved byte, the times and the first cluster, and
      sum for the checksum of its long-name entries. */
  datatype File = File(base: seq<Byte>, ext: seq<Byte>, flags: nat, isDir: bool, archive: bool,
                       other: seq<Byte>, size: nat, title: Option<seq<Byte>>, sum: Byte)

  predicate PlainText(s: seq<Byte>) { 32 !in s && 0 !in s }

  predicate Storable(f: File)
  {
    && 1 <= |f.base| <= 8 && |f.ext| <= 3 && PlainText(f.base) && PlainText(f.ext) && f.base[0] != 0xE5
    && f.flags < 16 && Attributes(f) != 0x0F && |f.other| == 16 && f.size < 0x1_0000_0000
    && (f.title.Some? ==> Spellable(f.title.value))
  }

  /** The attribute byte: four flags, then the directory and the archive bit. */
  function Attributes(f: File): (a: nat)
  {
    f.flags + (if f.isDir then 0x10 else 0) + (if f.archive then 0x20 else 0)
  }

  function Fill(s: seq<Byte>, n: nat): (r: seq<Byte>)
    requires |s| <= n
    ensures |r| == n && s <= r && forall i :: |s| <= i < n ==> r[i] == 32
  {
    s + seq(n - |s|, _ => 32)
  }

  function ShortEntry(f: File): (e: Raw)
    requires Storable(f)
  {
    Fill(f.base, 8) + Fill(f.ext, 3) + [Attributes(f)] + f.other + Le32(f.size)
  }

  /** The characters of a long name in two bytes each, least significant first; the filler is 0xFFFF. */
  function Wide(cs: seq<Byte>): (r: seq<Byte>)
    ensures |r| == 2 * |cs| && forall k :: 0 <= k < |cs| ==> r[2 * k] == cs[k]
  {
    if cs == [] then [] else [cs[0], if cs[0] == 0xFF then 0xFF else 0] + Wide(cs[1..])
  }

  function LongEntry(order: Byte, cs: seq<Byte>, sum: Byte): (e: Raw)
    requires |cs| == 13
  {
    [order] + Wide(cs[..5]) + [0x0F, 0, sum] + Wide(cs[5..11]) + [0, 0] + Wide(cs[11..])
  }

  /** Parts j down to 1 of the padded name p. */
  function LongEntries(p: seq<Byte>, j: nat, sum: Byte): (es: seq<Raw>)
    requires 13 * j <= |p| <= 247
    ensures |es| == j
  {
    if j == 0 then []
    else
      var order := if 13 * j == |p| then 0x40 + j else j;
      [LongEntry(order, p[13 * j - 13..13 * j], sum)] + LongEntries(p, j - 1, sum)
  }

  function FileEntries(f: File): (es: seq<Raw>)
    requires Storable(f)
    ensures es != []
  {
    match f.title
    case None => [ShortEntry(f)]
    case Some(t) => LongEntries(Padded(t), Parts(t), f.sum) + [ShortEntry(f)]
  }

  predicate AllStorable(fs: seq<File>) { forall k :: 0 <= k < |fs| ==> Storable(fs[k]) }

  function Written(fs: seq<File>): (es: seq<Raw>)
    requires AllStorable(fs)
  {
    if fs == [] then [] else FileEntries(fs[0]) + Written(fs[1..])
  }

  /** The name of a file: its long one, if it has one. */
  function NameOf(f: File): (n: seq<Byte>)
  {
    match f.title
    case Some(t) => t
    case None => if f.ext == [] then f.base else f.base + [46] + f.ext
  }

  function ItemOf(f: File): (i: Item)
    requires Storable(f)
  {
    if f.title.Some? then Long(NameOf(f), ShortEntry(f)) else Short(NameOf(f), ShortEntry(f))
  }

  function Items(fs: seq<File>): (r: seq<Item>)
    requires AllStorable(fs)
  {
    if fs == [] then [] else [ItemOf(fs[0])] + Items(fs[1..])
  }

  // ---------------------------------------------------------------- one file

  /** A short entry spells the file's base name and its extension, if it has one, behind a dot. */
  lemma ShortEntrySpells(f: File)
    requires Storable(f)
    ensures Ordinary(ShortEntry(f)) && Spells(ShortEntry(f), if f.ext == [] then f.base else f.base + [46] + f.ext)
  {
    var e := ShortEntry(f);
    assert e[..8] == Fill(f.base, 8) && e[8..11] == Fill(f.ext, 3) && e[11] == Attributes(f);
    assert e[0] == f.base[0];
    assert Before(e[..8], SPACE, f.base) && Before(e[8..11], SPACE, f.ext);
    assert Before(Joined(f.base, f.ext), 0, Joined(f.base, f.ext));
  }

  /** The reader takes from a long-name entry the characters that were stored in it. */
  lemma LongEntryChars(order: Byte, cs: seq<Byte>, sum: Byte, e: Raw)
    requires |cs| == 13 && e == LongEntry(order, cs, sum)
    ensures e[0] == order && e[11] == LONG_NAME && Chars(e) == cs
  {
    var a, b, c := Wide(cs[..5]), Wide(cs[5..11]), Wide(cs[11..]);
    assert forall k :: 0 <= k < 10 ==> e[1 + k] == a[k];
    assert forall k :: 0 <= k < 12 ==> e[14 + k] == b[k];
    assert forall k :: 0 <= k < 4 ==> e[28 + k] == c[k];
    forall k | 0 <= k < 13 ensures Chars(e)[k] == cs[k] {
      CharsAt(e, k);
      if k < 5 {
        assert a[2 * k] == cs[k];
      } else if k < 11 {
        assert b[2 * (k - 5)] == cs[k];
      } else {
        assert c[2 * (k - 11)] == cs[k];
      }
    }
  }

  lemma LongEntryPart(p: seq<Byte>, j: nat, sum: Byte, order: Byte, e: Raw)
    requires 1 <= j && 13 * j <= |p| && order == (if 13 * j == |p| then 0x40 + j else j)
    requires e == LongEntry(order, p[13 * j - 13..13 * j], sum)
    ensures Part(e, p, j)
  {
    LongEntryChars(order, p[13 * j - 13..13 * j], sum, e);
    HasSlice(p, 13 * j - 13, Chars(e));
  }

  lemma Behind(a: seq<Raw>, b: seq<Raw>)
    ensures (a + b)[|a|..] == b
  {
  }

  lemma CarryStep(all: seq<Raw>, p: seq<Byte>, j: nat)
    requires 1 <= j && 13 * j <= |p| && all != [] && Part(all[0], p, j) && Carries(all[1..], p, j - 1)
    ensures Carries(all, p, j)
  {
  }

  lemma {:induction false} LongEntriesCarry(p: seq<Byte>, j: nat, sum: Byte, rest: seq<Raw>)
    requires 13 * j <= |p| <= 247
    ensures Carries(LongEntries(p, j, sum) + rest, p, j)
    decreases j
  {
    if j > 0 {
      var es, tail := LongEntries(p, j, sum), LongEntries(p, j - 1, sum);
      LongEntryPart(p, j, sum, if 13 * j == |p| then 0x40 + j else j, es[0]);
      LongEntriesCarry(p, j - 1, sum, rest);
      Assoc([es[0]], tail, rest);
      Behind([es[0]], tail + rest);
      CarryStep(es + rest, p, j);
    }
  }

  lemma TitleStarts(t: seq<Byte>, front: seq<Raw>, e: Raw, rest: seq<Raw>)
    requires Spellable(t) && Ordinary(e) && |front| == Parts(t)
    requires Carries(front + ([e] + rest), Padded(t), Parts(t))
    ensures StartsWith(front + ([e] + rest), Long(t, e))
  {
  }

  /** The entries of a file without a long name start with its record. */
  lemma UntitledStarts(f: File, rest: seq<Raw>)
    requires Storable(f) && f.title.None?
    ensures StartsWith(FileEntries(f) + rest, ItemOf(f)) && Taken(ItemOf(f)) == |FileEntries(f)|
  {
    ShortEntrySpells(f);
    assert (FileEntries(f) + rest)[0] == ShortEntry(f);
  }

  /** A long name in front of a short entry is a record. */
  lemma TitledStarts(t: seq<Byte>, sum: Byte, e: Raw, rest: seq<Raw>)
    requires Spellable(t) && Ordinary(e)
    ensures StartsWith(LongEntries(Padded(t), Parts(t), sum) + ([e] + rest), Long(t, e))
  {
    LongEntriesCarry(Padded(t), Parts(t), sum, [e] + rest);
    TitleStarts(t, LongEntries(Padded(t), Parts(t), sum), e, rest);
  }

  lemma TitledFile(f: File, t: seq<Byte>, e: Raw, rest: seq<Raw>)
    requires Storable(f) && f.title == Some(t) && e == ShortEntry(f)
    ensures FileEntries(f) + rest == LongEntries(Padded(t), Parts(t), f.sum) + ([e] + rest)
    ensures ItemOf(f) == Long(t, e) && Taken(ItemOf(f)) == |FileEntries(f)|
  {
    Assoc(LongEntries(Padded(t), Parts(t), f.sum), [e], rest);
  }

  lemma FileStarts(f: File, rest: seq<Raw>, es: seq<Raw>, i: Item)
    requires Storable(f) && es == FileEntries(f) + rest && i == ItemOf(f)
    ensures StartsWith(es, i) && Taken(i) == |FileEntries(f)|
  {
    if f.title.Some? {
      TitledFile(f, f.title.value, i.raw, rest);
      ShortEntrySpells(f);
      TitledStarts(i.name, f.sum, i.raw, rest);
      assert StartsWith(es, i);
    } else {
      UntitledStarts(f, rest);
    }
  }

  // ---------------------------------------------------------------- whole directories

  /** A written directory, up to its end mark or its last cluster, is well formed. */
  lemma {:induction false} WrittenEncodes(fs: seq<File>, end: seq<Raw>)
    requires AllStorable(fs) && (end == [] || end[0][0] == 0)
    ensures Encodes(Written(fs) + end, Items(fs))
  {
    if fs == [] {
      assert [] + end == end;
    } else {
      var first, rest := FileEntries(fs[0]), Written(fs[1..]) + end;
      Assoc(first, Written(fs[1..]), end);
      FileStarts(fs[0], rest, first + rest, ItemOf(fs[0]));
      WrittenEncodes(fs[1..], end);
      Behind(first, rest);
    }
  }

  lemma {:induction false} ShownFiles(fs: seq<File>)
    requires AllStorable(fs)
    ensures |Shown(Items(fs))| == |fs|
    ensures forall k :: 0 <= k < |fs| ==>
      Shown(Items(fs))[k] == Dirent(NameOf(fs[k]), fs[k].title.Some?, ShortEntry(fs[k]))
  {
    if fs != [] {
      ShownFiles(fs[1..]);
      assert Shown(Items(fs)) == ShownItem(ItemOf(fs[0])) + Shown(Items(fs[1..]));
      forall k | 1 <= k < |fs|
        ensures Shown(Items(fs))[k] == Dirent(NameOf(fs[k]), fs[k].title.Some?, ShortEntry(fs[k]))
      {
        assert fs[1..][k - 1] == fs[k];
      }
    }
  }

  /** What a listing should say of a file: a short name in lower case, a long one cut after 63 characters. */
  function Expected(f: File): (i: Info)
  {
    var name := match f.title
      case None => Lower(NameOf(f))
      case Some(t) => if |t| <= 63 then t else t[..63];
    Info(name, f.isDir, f.size)
  }

  lemma InfoOfFile(f: File)
    requires Storable(f)
    ensures InfoOf(Dirent(NameOf(f), f.title.Some?, ShortEntry(f))) == Expected(f)
  {
    var e := ShortEntry(f);
    assert e[11] == Attributes(f) && e[28..32] == Le32(f.size);
    Le32RoundTrip(f.size);
  }

  lemma {:induction false} InfosLength(ds: seq<Dirent>, max: nat)
    ensures |Infos(ds, max)| == if |ds| <= max then |ds| else max
  {
    if ds != [] && max > 0 {
      InfosLength(ds[1..], max - 1);
    }
  }

  /** Listing a written directory shows its files in order: their names, kinds and sizes, at most max of them. */
  lemma WrittenListed(s: Scan, fs: seq<File>, end: seq<Raw>, max: nat)
    requires AllStorable(fs) && (end == [] || end[0][0] == 0) && !s.active
    ensures var r := Infos(Seen(s, Written(fs) + end), max);
      && |r| == (if |fs| <= max then |fs| else max)
      && forall k :: 0 <= k < |r| ==> r[k] == Expected(fs[k])
  {
    WrittenEncodes(fs, end);
    NamesReassembled(s, Written(fs) + end, Items(fs));
    ShownFiles(fs);
    var ds := Shown(Items(fs));
    InfosLength(ds, max);
    forall k | 0 <= k < |Infos(ds, max)| ensures Infos(ds, max)[k] == Expected(fs[k]) {
      InfoAt(ds, max, k);
      InfoOfFile(fs[k]);
    }
  }

  /** File k is the first with this name, letter case aside. */
  ghost predicate FirstNamed(fs: seq<File>, k: nat, name: seq<Byte>)
    requires k < |fs|
  {
    Upper(NameOf(fs[k])) == Upper(name) && forall j :: 0 <= j < k ==> Upper(NameOf(fs[j])) != Upper(name)
  }

  /** Looking up a name in a written directory gives the short entry of the first file with that name, letter case
      aside, and nothing if there is none. */
  lemma WrittenFound(s: Scan, fs: seq<File>, end: seq<Raw>, wanted: seq<Byte>)
    requires AllStorable(fs) && (end == [] || end[0][0] == 0) && !s.active
    ensures var r := FirstMatch(Seen(s, Written(fs) + end), wanted);
      && (r == None <==> forall k :: 0 <= k < |fs| ==> Upper(NameOf(fs[k])) != Upper(wanted))
      && forall k :: 0 <= k < |fs| && FirstNamed(fs, k, wanted) ==> r == Some(ShortEntry(fs[k]))
  {
    WrittenEncodes(fs, end);
    NamesReassembled(s, Written(fs) + end, Items(fs));
    ShownFiles(fs);
    var ds := Shown(Items(fs));
    NoMatch(ds, wanted);
    forall k | 0 <= k < |fs| && FirstNamed(fs, k, wanted) ensures FirstMatch(ds, wanted) == Some(ShortEntry(fs[k])) {
      FirstMatchIsFirst(ds, wanted, k);
    }
  }
}
