/** FAT directories as lists of 32-byte entries (sections "FAT Directory Structure" and "FAT Long Directory
    Entries" of the Microsoft FAT32 File System Specification v1.03), and the scan that
    sageos_build/kernel/fs/fat32.c makes over them. */
module LongNames {
  import opened Bytes
  import opened FatDisk

  type Raw = s: seq<Byte> | |s| == 32 witness seq(32, _ => 0)

  type Buffer = s: seq<Byte> | |s| == 256 witness seq(256, _ => 0)

  const LONG_NAME: Byte := 0x0F
  const FREE: Byte := 0xE5
  const SPACE: Byte := 32
  const DOT: Byte := 46
  const NAME_MAX := 64

  // ---------------------------------------------------------------- names

  /** The bytes before the first one that is p; C strings end at 0, short-name fields at a space. */
  function UpTo(s: seq<Byte>, p: Byte): (r: seq<Byte>)
    ensures p !in r && |r| <= |s|
  {
    if s == [] || s[0] == p then [] else [s[0]] + UpTo(s[1..], p)
  }

  /** The name an 8.3 entry spells, as a C string. */
  function ShortName(e: Raw): (n: seq<Byte>)
    ensures |n| <= 12 && 0 !in n
  {
    var base, ext := UpTo(e[..8], SPACE), UpTo(e[8..11], SPACE);
    UpTo(if e[8] == SPACE then base else base + [DOT] + ext, 0)
  }

  /** r is s as far as its first p. */
  predicate Before(s: seq<Byte>, p: Byte, r: seq<Byte>)
  {
    r <= s && p !in r && (|r| < |s| ==> s[|r|] == p)
  }

  lemma {:induction false} BeforeIsUpTo(s: seq<Byte>, p: Byte, r: seq<Byte>)
    ensures Before(s, p, r) <==> r == UpTo(s, p)
  {
    if s == [] || s[0] == p {
      assert r != [] && r <= s ==> r[0] == s[0];
    } else {
      if r != [] {
        BeforeIsUpTo(s[1..], p, r[1..]);
        assert r == [r[0]] + r[1..];
        assert forall i :: 0 <= i < |r[1..]| ==> r[1..][i] == r[i + 1];
      }
    }
  }

  /** A name of eight and an extension of three characters. */
  function Joined(base: seq<Byte>, ext: seq<Byte>): (n: seq<Byte>)
  {
    if ext == [] then base else base + [DOT] + ext
  }

  /** The 8.3 entry spells n: the characters of both fields up to their padding, as a C string. */
  ghost predicate Spells(e: Raw, n: seq<Byte>)
  {
    exists base, ext ::
      Before(e[..8], SPACE, base) && Before(e[8..11], SPACE, ext) && Before(Joined(base, ext), 0, n)
  }

  /** The scan reads from an 8.3 entry exactly what the entry spells. */
  lemma ShortNameExact(e: Raw, n: seq<Byte>)
    ensures Spells(e, n) <==> n == ShortName(e)
  {
    var base, ext := UpTo(e[..8], SPACE), UpTo(e[8..11], SPACE);
    BeforeIsUpTo(e[..8], SPACE, base);
    BeforeIsUpTo(e[8..11], SPACE, ext);
    assert ext == [] <==> e[8] == SPACE;
    BeforeIsUpTo(Joined(base, ext), 0, n);
    if Spells(e, n) {
      var b, x :| Before(e[..8], SPACE, b) && Before(e[8..11], SPACE, x) && Before(Joined(b, x), 0, n);
      BeforeIsUpTo(e[..8], SPACE, b);
      BeforeIsUpTo(e[8..11], SPACE, x);
    }
  }

  function UpperChar(c: Byte): (r: Byte) { if 97 <= c <= 122 then c - 32 else c }

  function LowerChar(c: Byte): (r: Byte) { if 65 <= c <= 90 then c + 32 else c }

  function Upper(s: seq<Byte>): (r: seq<Byte>) { seq(|s|, i requires 0 <= i < |s| => UpperChar(s[i])) }

  function Lower(s: seq<Byte>): (r: seq<Byte>) { seq(|s|, i requires 0 <= i < |s| => LowerChar(s[i])) }

  /** Two bytes match if they are equal or the two cases of one letter. */
  lemma SameLetter(a: Byte, b: Byte)
    ensures UpperChar(a) == UpperChar(b) <==> a == b || (65 <= a <= 90 && b == a + 32) || (65 <= b <= 90 && a == b + 32)
    ensures LowerChar(a) == LowerChar(b) <==> UpperChar(a) == UpperChar(b)
    ensures !(65 <= LowerChar(a) <= 90) && UpperChar(LowerChar(a)) == UpperChar(a)
  {
  }

  lemma UpperOfLower(s: seq<Byte>)
    ensures Upper(Lower(s)) == Upper(s)
  {
  }

  // ---------------------------------------------------------------- the scan

  /** The thirteen characters of a long-name entry, low bytes only. */
  function Chars(e: Raw): (r: seq<Byte>)
    ensures |r| == 13
  {
    [e[1], e[3], e[5], e[7], e[9], e[14], e[16], e[18], e[20], e[22], e[24], e[28], e[30]]
  }

  /** lfn_name and lfn_active. */
  datatype Scan = Scan(buffer: Buffer, active: bool)

  /** What one entry does: end the directory, only change the scan, or show a name. */
  datatype Event = Stop | Quiet(next: Scan) | Show(name: seq<Byte>, long: bool, next: Scan)

  predicate IsLong(e: Raw) { e[0] != 0 && e[0] != FREE && e[11] == LONG_NAME }

  /** No entry before the end is a long-name entry with sequence number 20, which fat32.c takes and whose
      thirteen characters the 256-byte buffer cannot hold. */
  predicate PartsFit(es: seq<Raw>)
  {
    es == [] || es[0][0] == 0 || ((IsLong(es[0]) ==> es[0][0] % 32 != 20) && PartsFit(es[1..]))
  }

  /** Entry i comes before the end mark. */
  ghost predicate Live(es: seq<Raw>, i: nat)
    requires i < |es|
  {
    forall j :: 0 <= j <= i ==> es[j][0] != 0
  }

  /** It says so of every entry before the end mark. */
  lemma {:induction false} PartsFitExactly(es: seq<Raw>)
    ensures PartsFit(es) <==> forall i :: 0 <= i < |es| && Live(es, i) && es[i][0] != 0xE5 && es[i][11] == 0x0F ==>
      es[i][0] % 32 != 20
  {
    if es != [] && es[0][0] != 0 {
      var rest := es[1..];
      PartsFitExactly(rest);
      forall i | 0 <= i < |rest| ensures Live(rest, i) <==> Live(es, i + 1) {
        assert forall j :: 0 <= j <= i ==> rest[j] == es[j + 1];
        assert forall j :: 1 <= j <= i + 1 ==> es[j] == rest[j - 1];
      }
      assert forall i :: 1 <= i < |es| ==> es[i] == rest[i - 1];
    }
  }

  /** Where a part is stored, and the mark that the last part puts behind it. */
  function Store(b: Buffer, e: Raw): (r: Buffer)
    requires 0 < e[0] % 32 < 20
  {
    var order := e[0] % 32;
    var stored := Overwrite(b, (order - 1) * 13, Chars(e));
    if e[0] / 64 % 2 == 1 then stored[order * 13 := 0] else stored
  }

  /** The length of the assembled name: up to the first 0 or 0xFF, at most 255. */
  function Length(b: Buffer, i: nat): (n: nat)
    requires i <= 255
    ensures i <= n <= 255 && (n < 255 ==> b[n] == 0 || b[n] == 0xFF)
    ensures forall k :: i <= k < n ==> b[k] != 0 && b[k] != 0xFF
    decreases 255 - i
  {
    if i == 255 || b[i] == 0 || b[i] == 0xFF then i else Length(b, i + 1)
  }

  /** One entry of the scan; see PartsFit for sequence number 20. */
  function Step(s: Scan, e: Raw): (r: Event)
  {
    if e[0] == 0 then Stop
    else if e[0] == FREE then Quiet(s.(active := false))
    else if e[11] == LONG_NAME then
      if 0 < e[0] % 32 < 20 then Quiet(Scan(Store(s.buffer, e), true)) else Quiet(s)
    else if s.active then
      var n := Length(s.buffer, 0);
      Show(s.buffer[..n], true, Scan(s.buffer[n := 0], false))
    else Show(ShortName(e), false, s)
  }

  /** An entry with the name the scan gives it. */
  datatype Dirent = Dirent(name: seq<Byte>, long: bool, raw: Raw)

  function Seen(s: Scan, es: seq<Raw>): (ds: seq<Dirent>)
    decreases |es|
  {
    if es == [] then []
    else
      match Step(s, es[0])
      case Stop => []
      case Quiet(next) => Seen(next, es[1..])
      case Show(name, long, next) => [Dirent(name, long, es[0])] + Seen(next, es[1..])
  }

  // ---------------------------------------------------------------- well-formed directories

  /** A directory record: a free slot, a short entry, or a long name in front of its short entry. */
  datatype Item = Deleted | Short(name: seq<Byte>, raw: Raw) | Long(name: seq<Byte>, raw: Raw)

  predicate Ordinary(e: Raw) { e[0] != 0 && e[0] != FREE && e[11] != LONG_NAME }

  predicate Spellable(n: seq<Byte>)
  {
    1 <= |n| <= 247 && forall i :: 0 <= i < |n| ==> n[i] != 0 && n[i] != 0xFF
  }

  function Parts(n: seq<Byte>): (k: nat) { (|n| + 12) / 13 }

  /** The name filled up to whole parts: a 0, then 0xFF. */
  function Padded(n: seq<Byte>): (r: seq<Byte>)
    ensures |r| == 13 * Parts(n)
    ensures forall i :: 0 <= i < |n| ==> r[i] == n[i]
    ensures |n| < |r| ==> r[|n|] == 0
  {
    if |n| % 13 == 0 then n else n + [0] + seq(12 - |n| % 13, _ => 0xFF)
  }

  /** Part j of the padded name p; the last part carries the flag 0x40. */
  predicate Part(e: Raw, p: seq<Byte>, j: nat)
    requires 1 <= j && 13 * j <= |p|
  {
    && e[0] == (if 13 * j == |p| then 0x40 + j else j)
    && e[11] == LONG_NAME
    && Has(p, 13 * j - 13, Chars(e))
  }

  /** es starts with parts j down to 1 of the padded name p. */
  predicate Carries(es: seq<Raw>, p: seq<Byte>, j: nat)
    requires 13 * j <= |p|
    decreases j
  {
    j == 0 || (es != [] && Part(es[0], p, j) && Carries(es[1..], p, j - 1))
  }

  /** A whole long name and the short entry behind it. */
  predicate LongAt(es: seq<Raw>, n: seq<Byte>)
  {
    Spellable(n) && Carries(es, Padded(n), Parts(n)) && Parts(n) < |es| && Ordinary(es[Parts(n)])
  }

  /** How many raw entries a record takes. */
  function Taken(i: Item): (n: nat) { if i.Long? then Parts(i.name) + 1 else 1 }

  /** The entries start with the record. */
  ghost predicate StartsWith(es: seq<Raw>, i: Item)
  {
    match i
    case Deleted => es != [] && es[0][0] == FREE
    case Short(n, raw) => es != [] && es[0] == raw && Ordinary(raw) && Spells(raw, n)
    case Long(n, raw) => LongAt(es, n) && es[Parts(n)] == raw
  }

  /** The entries are these records and then the end. */
  ghost predicate Encodes(es: seq<Raw>, items: seq<Item>)
    decreases |items|
  {
    if items == [] then es == [] || es[0][0] == 0
    else StartsWith(es, items[0]) && Encodes(es[Taken(items[0])..], items[1..])
  }

  /** The entries a reader of the directory should see. */
  function Shown(items: seq<Item>): (ds: seq<Dirent>)
  {
    if items == [] then [] else ShownItem(items[0]) + Shown(items[1..])
  }

  function ShownItem(i: Item): (ds: seq<Dirent>)
  {
    match i
    case Deleted => []
    case Short(n, raw) => [Dirent(n, false, raw)]
    case Long(n, raw) => [Dirent(n, true, raw)]
  }

  // ---------------------------------------------------------------- reassembly

  /** The buffer holds the parts above j of the padded name p, and the closing mark. */
  ghost predicate Holds(b: Buffer, p: seq<Byte>, j: nat)
    requires |p| <= 247
  {
    (13 * j < |p| ==> b[|p|] == 0) && forall x :: 13 * j <= x < |p| ==> b[x] == p[x]
  }

  lemma PartOrder(e: Raw, p: seq<Byte>, j: nat)
    requires 1 <= j && 13 * j <= |p| <= 247 && Part(e, p, j)
    ensures e[0] % 32 == j < 20 && (e[0] / 64 % 2 == 1 <==> 13 * j == |p|)
  {
  }

  lemma PartStored(b: Buffer, e: Raw, p: seq<Byte>, j: nat)
    requires 1 <= j && 13 * j <= |p| <= 247 && Part(e, p, j) && Holds(b, p, j)
    ensures e[0] % 32 == j < 20 && Holds(Store(b, e), p, j - 1)
  {
    PartOrder(e, p, j);
    HasSlice(p, 13 * j - 13, Chars(e));
    StoredHolds(b, p, j, Chars(e));
  }

  lemma StoredHolds(b: Buffer, p: seq<Byte>, j: nat, cs: seq<Byte>)
    requires 1 <= j && 13 * j <= |p| <= 247 && Holds(b, p, j) && cs == p[13 * j - 13..13 * j]
    ensures var r := Overwrite(b, 13 * j - 13, cs);
      Holds(if 13 * j == |p| then r[13 * j := 0] else r, p, j - 1)
  {
    var at := 13 * j - 13;
    var r := Overwrite(b, at, cs);
    forall x | at <= x < |p| ensures r[x] == p[x] {
      if x < 13 * j {
        assert r[x] == cs[x - at];
      }
    }
  }

  /** A buffer that holds every part spells the name. */
  lemma NameAssembled(b: Buffer, n: seq<Byte>)
    requires Spellable(n) && |Padded(n)| <= 247 && Holds(b, Padded(n), 0)
    ensures Length(b, 0) == |n| && b[..|n|] == n
  {
    var p := Padded(n);
    assert |n| < |p| ==> b[|n|] == p[|n|];
    forall i | 0 <= i < |n| ensures b[i] == n[i] {
      assert b[i] == p[i];
    }
  }

  lemma {:induction false} PartsRead(s: Scan, es: seq<Raw>, p: seq<Byte>, j: nat) returns (t: Scan)
    requires 0 < |p| <= 247 && 13 * j <= |p| && Carries(es, p, j) && Holds(s.buffer, p, j)
    requires 13 * j < |p| ==> s.active
    ensures j <= |es| && t.active && Holds(t.buffer, p, 0)
    ensures Seen(s, es) == Seen(t, es[j..])
    decreases j
  {
    if j == 0 {
      t := s;
      assert es[0..] == es;
    } else {
      PartStored(s.buffer, es[0], p, j);
      t := PartsRead(Scan(Store(s.buffer, es[0]), true), es[1..], p, j - 1);
      assert es[1..][j - 1..] == es[j..];
    }
  }

  /** A long name and its short entry show the name, and the scan goes on behind them. */
  lemma LongRead(s: Scan, es: seq<Raw>, n: seq<Byte>) returns (t: Scan)
    requires LongAt(es, n)
    ensures !t.active && Seen(s, es) == [Dirent(n, true, es[Parts(n)])] + Seen(t, es[Parts(n) + 1..])
  {
    var k := Parts(n);
    var u := PartsRead(s, es, Padded(n), k);
    NameAssembled(u.buffer, n);
    assert es[k..][0] == es[k] && es[k..][1..] == es[k + 1..];
    t := Scan(u.buffer[|n| := 0], false);
  }

  lemma DeletedRead(s: Scan, es: seq<Raw>)
    requires es != [] && es[0][0] == FREE && !s.active
    ensures Seen(s, es) == [] + Seen(s, es[1..])
  {
    assert [] + Seen(s, es[1..]) == Seen(s, es[1..]);
  }

  lemma ShortRead(s: Scan, es: seq<Raw>, n: seq<Byte>)
    requires es != [] && Ordinary(es[0]) && Spells(es[0], n) && !s.active
    ensures Seen(s, es) == [Dirent(n, false, es[0])] + Seen(s, es[1..])
  {
    ShortNameExact(es[0], n);
  }

  /** One record: the scan shows what it encodes and goes on behind it. */
  lemma ItemRead(s: Scan, es: seq<Raw>, i: Item) returns (t: Scan)
    requires StartsWith(es, i) && Taken(i) <= |es| && !s.active
    ensures !t.active && Seen(s, es) == ShownItem(i) + Seen(t, es[Taken(i)..])
  {
    match i
    case Deleted =>
      t := s;
      DeletedRead(s, es);
    case Short(n, _) =>
      t := s;
      ShortRead(s, es, n);
    case Long(n, _) => t := LongRead(s, es, n);
  }

  /** Over every well-formed directory, whatever the buffer held before, the scan shows exactly the encoded
      names, in order. */
  lemma {:induction false} NamesReassembled(s: Scan, es: seq<Raw>, items: seq<Item>)
    requires Encodes(es, items) && !s.active
    ensures Seen(s, es) == Shown(items)
    decreases |items|
  {
    if items != [] {
      var t := ItemRead(s, es, items[0]);
      NamesReassembled(t, es[Taken(items[0])..], items[1..]);
    }
  }

  /** A deleted entry makes the scan forget the parts of a name in front of it. */
  lemma DeletedForgets(s: Scan, es: seq<Raw>, items: seq<Item>)
    requires es != [] && es[0][0] == 0xE5 && Encodes(es[1..], items)
    ensures Seen(s, es) == Shown(items)
  {
    NamesReassembled(s.(active := false), es[1..], items);
  }

  // ---------------------------------------------------------------- lookup and listing

  /** fat32_find_entry_in_cluster: the first shown entry whose name matches, letter case aside. */
  function FirstMatch(ds: seq<Dirent>, wanted: seq<Byte>): (r: Option<Raw>)
  {
    if ds == [] then None
    else if Upper(ds[0].name) == Upper(wanted) then Some(ds[0].raw)
    else FirstMatch(ds[1..], wanted)
  }

  /** The name fat32_readdir stores for an entry. */
  function ListedName(d: Dirent): (n: seq<Byte>)
  {
    if !d.long then Lower(d.name) else if |d.name| < NAME_MAX then d.name else d.name[..NAME_MAX - 1]
  }

  /** Entry i is the first whose name is the given one up to letter case. */
  ghost predicate FirstOf(ds: seq<Dirent>, i: nat, name: seq<Byte>)
    requires i < |ds|
  {
    Upper(ds[i].name) == Upper(name) && forall j :: 0 <= j < i ==> Upper(ds[j].name) != Upper(name)
  }

  lemma {:induction false} FirstMatchIsFirst(ds: seq<Dirent>, wanted: seq<Byte>, i: nat)
    requires i < |ds| && FirstOf(ds, i, wanted)
    ensures FirstMatch(ds, wanted) == Some(ds[i].raw)
  {
    if i > 0 {
      assert Upper(ds[0].name) != Upper(wanted);
      FirstMatchIsFirst(ds[1..], wanted, i - 1);
    }
  }

  lemma {:induction false} NoMatch(ds: seq<Dirent>, wanted: seq<Byte>)
    ensures FirstMatch(ds, wanted) == None <==> forall d :: d in ds ==> Upper(d.name) != Upper(wanted)
  {
    if ds != [] {
      NoMatch(ds[1..], wanted);
      assert ds == [ds[0]] + ds[1..];
    }
  }

  /** Every listed name that was not cut can be looked up: the lookup gives the entry it was listed for, or
      the first one before it whose name differs only in letter case. */
  lemma ListedNameFound(ds: seq<Dirent>, i: nat)
    requires i < |ds| && (ds[i].long ==> |ds[i].name| < NAME_MAX)
    ensures exists j :: 0 <= j <= i && FirstOf(ds, j, ds[i].name)
                        && FirstMatch(ds, ListedName(ds[i])) == Some(ds[j].raw)
  {
    UpperOfLower(ds[i].name);
    var j := 0;
    while Upper(ds[j].name) != Upper(ds[i].name)
      invariant 0 <= j <= i
      invariant forall k :: 0 <= k < j ==> Upper(ds[k].name) != Upper(ds[i].name)
      decreases i - j
    {
      j := j + 1;
    }
    assert FirstOf(ds, j, ds[i].name);
    FirstMatchIsFirst(ds, ListedName(ds[i]), j);
  }

  /** A listed name that was cut can be looked up exactly when the cut form is itself some entry's name. */
  lemma CutNameFound(ds: seq<Dirent>, i: nat)
    requires i < |ds| && ds[i].long && |ds[i].name| >= NAME_MAX
    ensures FirstMatch(ds, ListedName(ds[i])).Some?
      <==> exists d :: d in ds && Upper(d.name) == Upper(ds[i].name[..NAME_MAX - 1])
  {
    NoMatch(ds, ListedName(ds[i]));
  }

  /** Looking up entry j's listed name gives entry i. */
  ghost predicate LeadsTo(ds: seq<Dirent>, j: nat, i: nat)
    requires i < |ds| && j < |ds|
  {
    FirstOf(ds, i, ListedName(ds[j])) && FirstMatch(ds, ListedName(ds[j])) == Some(ds[i].raw)
  }

  /** Looking up a listed name gives an entry of the name it was listed for, letter case aside, exactly when the
      name is a short one or fits the listing: a cut name leads to nothing or to an entry of another name. */
  lemma ListedNameLeadsBackExactly(ds: seq<Dirent>, j: nat)
    requires j < |ds|
    ensures (exists i :: 0 <= i < |ds| && LeadsTo(ds, j, i) && Upper(ds[i].name) == Upper(ds[j].name))
      <==> !ds[j].long || |ds[j].name| < NAME_MAX
  {
    UpperOfLower(ds[j].name);
    if !ds[j].long || |ds[j].name| < NAME_MAX {
      ListedNameFound(ds, j);
      var i :| 0 <= i <= j && FirstOf(ds, i, ds[j].name) && FirstMatch(ds, ListedName(ds[j])) == Some(ds[i].raw);
      assert LeadsTo(ds, j, i);
    } else {
      assert |Upper(ListedName(ds[j]))| == NAME_MAX - 1 && |Upper(ds[j].name)| == |ds[j].name|;
    }
  }

  /** In a directory with one entry, whose name is cut in the listing, the listed name finds nothing. */
  lemma CutNameLost(d: Dirent)
    requires d.long && |d.name| >= NAME_MAX
    ensures FirstMatch([d], ListedName(d)) == None
  {
    assert |Upper(ListedName(d))| == NAME_MAX - 1 && |Upper(d.name)| == |d.name|;
    assert [d][1..] == [];
  }

  lemma {:induction false} CarriedPartsFit(es: seq<Raw>, p: seq<Byte>, j: nat)
    requires 13 * j <= |p| <= 247 && j <= |es| && Carries(es, p, j) && PartsFit(es[j..])
    ensures PartsFit(es)
    decreases j
  {
    if j == 0 {
      assert es[0..] == es;
    } else {
      assert es[1..][j - 1..] == es[j..];
      assert es[0][0] % 32 == j;
      CarriedPartsFit(es[1..], p, j - 1);
    }
  }

  lemma LongPartsFit(es: seq<Raw>, n: seq<Byte>)
    requires LongAt(es, n) && PartsFit(es[Parts(n) + 1..])
    ensures PartsFit(es)
  {
    var k := Parts(n);
    var rest := es[k..];
    assert rest[0] == es[k] && rest[1..] == es[k + 1..];
    CarriedPartsFit(es, Padded(n), k);
  }

  lemma {:induction false} EncodedPartsFit(es: seq<Raw>, items: seq<Item>)
    requires Encodes(es, items)
    ensures PartsFit(es)
    decreases |items|
  {
    if items != [] {
      match items[0]
      case Deleted => EncodedPartsFit(es[1..], items[1..]);
      case Short(_, _) => EncodedPartsFit(es[1..], items[1..]);
      case Long(n, _) =>
        EncodedPartsFit(es[Parts(n) + 1..], items[1..]);
        LongPartsFit(es, n);
    }
  }
}
