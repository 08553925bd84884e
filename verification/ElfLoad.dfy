/** Copying the segments of an ELF file into memory, and the heap behind them: elf_exec and sys_execve of
    sageos_build/kernel/fs/elf.c, and sys_brk of sageos_build/kernel/core/mm.c. */
module ElfLoad {
  import opened Bytes
  import opened ElfStack

  const VADDR_MIN := 0x10_0000
  const VADDR_MAX := 0xFF00_0000
  const WORD := 0x1_0000_0000_0000_0000
  const PAGE := 4096

  type U64 = n: nat | n < WORD

  /** The fields of a program header that the loader reads; load stands for p_type == PT_LOAD. */
  datatype Segment = Segment(load: bool, vaddr: U64, offset: U64, fileSize: U64, memSize: U64)

  // ---------------------------------------------------------------- the range check

  /** The check of the loader, in 64 bits. */
  predicate Admitted(p: Segment) { p.load ==> p.vaddr >= VADDR_MIN && (p.vaddr + p.memSize) % WORD <= VADDR_MAX }

  /** How many bytes are stored: the copy takes the file size, the clearing goes on to the memory size. */
  function Extent(p: Segment): (n: nat) { if p.fileSize > p.memSize then p.fileSize else p.memSize }

  function Address(p: Segment, j: nat): (a: nat) { (p.vaddr + j) % WORD }

  /** Every store for the segment is in the window for programs. */
  ghost predicate StaysInside(p: Segment)
  {
    forall j :: 0 <= j < Extent(p) ==> VADDR_MIN <= Address(p, j) < VADDR_MAX
  }

  /** The stores of an admitted segment stay inside exactly when its extent, file bytes included, ends in the
      window without wrapping. */
  lemma StaysInsideExactly(p: Segment)
    requires p.load && Admitted(p)
    ensures StaysInside(p) <==> p.vaddr + Extent(p) <= VADDR_MAX
  {
    if p.vaddr + Extent(p) > VADDR_MAX && Extent(p) > 0 {
      var j := if p.vaddr < VADDR_MAX then VADDR_MAX - p.vaddr else 0;
      assert Address(p, j) >= VADDR_MAX;
    }
  }

  /** The window for programs, one megabyte up to 4080. */
  predicate InWindow(a: nat) { 0x10_0000 <= a < 0xFF00_0000 }

  /** The check admits exactly the segments, of those whose end does not wrap, whose memory lies in the window. */
  lemma AdmittedExactly(p: Segment)
    requires p.load && p.memSize > 0 && p.vaddr + p.memSize < 0x1_0000_0000_0000_0000
    ensures Admitted(p) <==> forall a :: p.vaddr <= a < p.vaddr + p.memSize ==> InWindow(a)
  {
    assert InWindow(p.vaddr) && InWindow(p.vaddr + p.memSize - 1) ==> Admitted(p);
  }

  /** For headers in order, file size within memory size and no wrap, the check is enough. */
  lemma CheckIsEnough(p: Segment)
    requires p.load && Admitted(p) && p.fileSize <= p.memSize && p.vaddr + p.memSize < WORD
    ensures StaysInside(p)
  {
    StaysInsideExactly(p);
  }

  /** It admits a segment with more bytes in the file than in memory, and one whose end wraps. */
  lemma CheckIsNotEnough()
    ensures var p := Segment(true, VADDR_MIN, 0, VADDR_MAX, 0); Admitted(p) && !StaysInside(p)
    ensures var q := Segment(true, WORD - 1, 0, 0, 1 + VADDR_MIN); Admitted(q) && !StaysInside(q)
  {
    StaysInsideExactly(Segment(true, VADDR_MIN, 0, VADDR_MAX, 0));
    StaysInsideExactly(Segment(true, WORD - 1, 0, 0, 1 + VADDR_MIN));
  }

  // ---------------------------------------------------------------- the copy

  /** If the segment is copied, its bytes are in the file and, as StaysInsideExactly says, its stores stay in the
      window. */
  predicate InOrder(data: seq<Byte>, p: Segment)
  {
    p.load && Admitted(p) ==>
      p.vaddr + Extent(p) <= VADDR_MAX && (p.fileSize > 0 ==> p.offset + p.fileSize <= |data|)
  }

  predicate InFile(data: seq<Byte>, k: nat) { k < |data| }

  /** Segments are in order exactly when no copy reads past the file and no store leaves the window. */
  lemma InOrderExactly(data: seq<Byte>, p: Segment)
    ensures InOrder(data, p) <==>
      (p.load && Admitted(p) ==>
        StaysInside(p) && forall k :: p.offset <= k < p.offset + p.fileSize ==> InFile(data, k))
  {
    if p.load && Admitted(p) {
      StaysInsideExactly(p);
      assert p.fileSize > 0 && InFile(data, p.offset + p.fileSize - 1) ==> p.offset + p.fileSize <= |data|;
    }
  }

  function FileBytes(data: seq<Byte>, p: Segment): (s: seq<Byte>)
    requires p.fileSize > 0 ==> p.offset + p.fileSize <= |data|
    ensures |s| == p.fileSize
  {
    if p.fileSize == 0 then [] else data[p.offset..p.offset + p.fileSize]
  }

  function Zeros(n: nat): (s: seq<Byte>)
    ensures |s| == n
  {
    seq(n, _ => 0)
  }

  /** What the segment should hold: its bytes of the file, then zeros. */
  function Content(data: seq<Byte>, p: Segment): (s: seq<Byte>)
    requires p.load && Admitted(p) && InOrder(data, p)
    ensures |s| == Extent(p)
  {
    FileBytes(data, p) + Zeros(Extent(p) - p.fileSize)
  }

  predicate AllInOrder(data: seq<Byte>, ps: seq<Segment>) { forall i :: 0 <= i < |ps| ==> InOrder(data, ps[i]) }

  predicate AllAdmitted(ps: seq<Segment>) { forall i :: 0 <= i < |ps| ==> Admitted(ps[i]) }

  /** Memory, from address VADDR_MIN on, after the segments are copied up to the first that is refused. */
  function Image(m: seq<Byte>, data: seq<Byte>, ps: seq<Segment>): (r: seq<Byte>)
    requires |m| == VADDR_MAX - VADDR_MIN && AllInOrder(data, ps)
    ensures |r| == |m|
    decreases |ps|
  {
    if ps == [] || !Admitted(ps[0]) then m
    else if !ps[0].load then Image(m, data, ps[1..])
    else Image(Spliced(m, ps[0].vaddr - VADDR_MIN, Content(data, ps[0])), data, ps[1..])
  }

  method LoadSegments(data: seq<Byte>, ps: seq<Segment>, mem: array<Byte>) returns (ok: bool)
    requires mem.Length == VADDR_MAX - VADDR_MIN && AllInOrder(data, ps)
    modifies mem
    ensures ok <==> AllAdmitted(ps)
    ensures mem[..] == Image(old(mem[..]), data, ps)
  {
    var i := 0;
    ghost var goal := Image(mem[..], data, ps);
    assert ps[0..] == ps;
    while i < |ps|
      invariant i <= |ps| && AllAdmitted(ps[..i])
      invariant Image(mem[..], data, ps[i..]) == goal
    {
      var p := ps[i];
      assert ps[i..][0] == p && ps[i..][1..] == ps[i + 1..];
      if p.load {
        if p.vaddr < VADDR_MIN || (p.vaddr + p.memSize) % WORD > VADDR_MAX {
          assert !Admitted(ps[i]);
          return false;
        }
        CopySegment(data, p, mem);
      }
      assert ps[..i + 1] == ps[..i] + [p];
      i := i + 1;
    }
    assert ps[..i] == ps;
    return true;
  }

  method CopySegment(data: seq<Byte>, p: Segment, mem: array<Byte>)
    requires mem.Length == VADDR_MAX - VADDR_MIN && p.load && Admitted(p) && InOrder(data, p)
    modifies mem
    ensures mem[..] == Spliced(old(mem[..]), p.vaddr - VADDR_MIN, Content(data, p))
  {
    ghost var m := mem[..];
    var at := p.vaddr - VADDR_MIN;
    var bytes := FileBytes(data, p);
    SplicedAbove(m, at, bytes, Zeros(Extent(p) - p.fileSize));
    StoreBytes(mem, at, bytes);
    if p.fileSize < p.memSize {
      StoreBytes(mem, at + p.fileSize, Zeros(p.memSize - p.fileSize));
    } else {
      assert Content(data, p) == bytes;
    }
  }

  // ---------------------------------------------------------------- the loaded image

  predicate Apart(p: Segment, q: Segment)
  {
    p.load && q.load ==> p.vaddr + Extent(p) <= q.vaddr || q.vaddr + Extent(q) <= p.vaddr
  }

  predicate AllApart(ps: seq<Segment>) { forall i, j :: 0 <= i < j < |ps| ==> Apart(ps[i], ps[j]) }

  lemma {:induction false} ImageKeeps(m: seq<Byte>, data: seq<Byte>, ps: seq<Segment>, k: nat, t: seq<Byte>)
    requires |m| == VADDR_MAX - VADDR_MIN && AllInOrder(data, ps) && Has(m, k, t)
    requires forall i :: 0 <= i < |ps| && ps[i].load ==>
      ps[i].vaddr + Extent(ps[i]) <= VADDR_MIN + k || VADDR_MIN + k + |t| <= ps[i].vaddr
    ensures Has(Image(m, data, ps), k, t)
    decreases |ps|
  {
    if ps != [] && Admitted(ps[0]) {
      if ps[0].load {
        SplicedKeeps(m, ps[0].vaddr - VADDR_MIN, Content(data, ps[0]), k, t);
        ImageKeeps(Spliced(m, ps[0].vaddr - VADDR_MIN, Content(data, ps[0])), data, ps[1..], k, t);
      } else {
        ImageKeeps(m, data, ps[1..], k, t);
      }
    }
  }

  lemma ApartTail(ps: seq<Segment>)
    requires AllApart(ps) && ps != []
    ensures AllApart(ps[1..]) && forall k :: 0 <= k < |ps[1..]| ==> Apart(ps[0], ps[1..][k])
  {
    forall k | 0 <= k < |ps[1..]| ensures Apart(ps[0], ps[1..][k]) {
      assert Apart(ps[0], ps[k + 1]);
    }
  }

  /** The first segment stays as it was copied. */
  lemma FirstInPlace(m: seq<Byte>, data: seq<Byte>, ps: seq<Segment>)
    requires |m| == VADDR_MAX - VADDR_MIN && AllInOrder(data, ps) && AllApart(ps)
    requires ps != [] && ps[0].load && Admitted(ps[0])
    ensures Has(Image(m, data, ps), ps[0].vaddr - VADDR_MIN, Content(data, ps[0]))
  {
    var p, at := ps[0], ps[0].vaddr - VADDR_MIN;
    ApartTail(ps);
    SplicedHas(m, at, Content(data, p));
    ImageKeeps(Spliced(m, at, Content(data, p)), data, ps[1..], at, Content(data, p));
  }

  /** When the segments are admitted and do not overlap, each ends up holding its bytes of the file and zeros
      behind them; by ImageKeeps memory outside them is as it was. */
  lemma {:induction false} SegmentInPlace(m: seq<Byte>, data: seq<Byte>, ps: seq<Segment>, i: nat)
    requires |m| == VADDR_MAX - VADDR_MIN && AllInOrder(data, ps) && AllAdmitted(ps) && AllApart(ps)
    requires i < |ps| && ps[i].load
    ensures Has(Image(m, data, ps), ps[i].vaddr - VADDR_MIN, Content(data, ps[i]))
    decreases |ps|
  {
    if i == 0 {
      FirstInPlace(m, data, ps);
    } else {
      ApartTail(ps);
      if ps[0].load {
        SegmentInPlace(Spliced(m, ps[0].vaddr - VADDR_MIN, Content(data, ps[0])), data, ps[1..], i - 1);
      } else {
        SegmentInPlace(m, data, ps[1..], i - 1);
      }
    }
  }

  // ---------------------------------------------------------------- byte by byte

  predicate Covers(p: Segment, a: nat) { p.load && p.vaddr <= a < p.vaddr + Extent(p) }

  lemma SplicedByte(m: seq<Byte>, at: nat, s: seq<Byte>, k: nat)
    requires at + |s| <= |m| && k < |m|
    ensures Spliced(m, at, s)[k] == if at <= k < at + |s| then s[k - at] else m[k]
  {
    SplicedSlices(m, at, s);
  }

  /** A byte that no segment covers is as it was. */
  lemma {:induction false} ByteKept(m: seq<Byte>, data: seq<Byte>, ps: seq<Segment>, k: nat)
    requires |m| == VADDR_MAX - VADDR_MIN && AllInOrder(data, ps) && k < |m|
    requires forall i :: 0 <= i < |ps| ==> !Covers(ps[i], VADDR_MIN + k)
    ensures Image(m, data, ps)[k] == m[k]
    decreases |ps|
  {
    if ps != [] && Admitted(ps[0]) {
      if ps[0].load {
        var at := ps[0].vaddr - VADDR_MIN;
        assert !Covers(ps[0], VADDR_MIN + k);
        SplicedByte(m, at, Content(data, ps[0]), k);
        ByteKept(Spliced(m, at, Content(data, ps[0])), data, ps[1..], k);
      } else {
        ByteKept(m, data, ps[1..], k);
      }
    }
  }

  lemma ContentByte(data: seq<Byte>, p: Segment, j: nat)
    requires p.load && Admitted(p) && InOrder(data, p) && j < Extent(p)
    ensures Content(data, p)[j] == if j < p.fileSize then data[p.offset + j] else 0
  {
  }

  /** What byte j of a segment should be. */
  function ByteOf(data: seq<Byte>, p: Segment, j: nat): (b: Byte)
    requires p.offset + p.fileSize <= |data| || p.fileSize == 0
  {
    if j < p.fileSize then data[p.offset + j] else 0
  }

  lemma StoredByte(m: seq<Byte>, data: seq<Byte>, p: Segment, j: nat, at: nat, r: seq<Byte>)
    requires p.load && Admitted(p) && InOrder(data, p) && at + Extent(p) <= |m| && j < Extent(p)
    requires r == Spliced(m, at, Content(data, p))
    ensures r[at + j] == ByteOf(data, p, j)
  {
    ContentByte(data, p, j);
    SplicedByte(m, at, Content(data, p), at + j);
  }

  lemma ImageStep(m: seq<Byte>, data: seq<Byte>, ps: seq<Segment>, r: seq<Byte>)
    requires |m| == VADDR_MAX - VADDR_MIN && AllInOrder(data, ps) && ps != [] && ps[0].load && Admitted(ps[0])
    requires r == Spliced(m, ps[0].vaddr - VADDR_MIN, Content(data, ps[0]))
    ensures AllInOrder(data, ps[1..]) && Image(m, data, ps) == Image(r, data, ps[1..])
  {
  }

  lemma FirstLoaded(m: seq<Byte>, data: seq<Byte>, ps: seq<Segment>, k: nat, r: seq<Byte>, b: Byte)
    requires |m| == VADDR_MAX - VADDR_MIN && AllInOrder(data, ps) && ps != [] && ps[0].load && Admitted(ps[0])
    requires r == Spliced(m, ps[0].vaddr - VADDR_MIN, Content(data, ps[0])) && k < |m| && r[k] == b
    requires forall l :: 0 < l < |ps| ==> !Covers(ps[l], VADDR_MIN + k)
    ensures Image(m, data, ps)[k] == b
  {
    ImageStep(m, data, ps, r);
    ByteKept(r, data, ps[1..], k);
  }

  /** Byte j of the last segment that covers it is byte j of its part of the file, and zero behind that. */
  lemma {:induction false} ByteLoaded(m: seq<Byte>, data: seq<Byte>, ps: seq<Segment>, i: nat, j: nat, k: nat)
    requires |m| == VADDR_MAX - VADDR_MIN && AllInOrder(data, ps) && AllAdmitted(ps)
    requires i < |ps| && ps[i].load && (j < ps[i].fileSize || j < ps[i].memSize)
    requires k == ps[i].vaddr - VADDR_MIN + j && forall l :: i < l < |ps| ==> !Covers(ps[l], VADDR_MIN + k)
    ensures k < |m| && Image(m, data, ps)[k] == ByteOf(data, ps[i], j)
    decreases |ps|
  {
    var p := ps[0];
    if p.load {
      var r := Spliced(m, p.vaddr - VADDR_MIN, Content(data, p));
      if i == 0 {
        StoredByte(m, data, p, j, p.vaddr - VADDR_MIN, r);
        FirstLoaded(m, data, ps, k, r, ByteOf(data, p, j));
      } else {
        ImageStep(m, data, ps, r);
        ByteLoaded(r, data, ps[1..], i - 1, j, k);
      }
    } else {
      ByteLoaded(m, data, ps[1..], i - 1, j, k);
    }
  }

  /** Segments are apart when they share no address. */
  lemma ApartExactly(p: Segment, q: Segment)
    requires Extent(p) > 0 && Extent(q) > 0
    ensures Apart(p, q) <==> forall a :: !(Covers(p, a) && Covers(q, a))
  {
    if !Apart(p, q) {
      assert Covers(p, if p.vaddr < q.vaddr then q.vaddr else p.vaddr);
    }
  }

  // ---------------------------------------------------------------- the heap behind the image

  /** Where the segment ends, as the source adds it up in 64 bits. */
  function EndOf(p: Segment): (n: U64) { (p.vaddr + p.memSize) % WORD }

  /** The largest end of the loaded segments, or 0. */
  function Top(ps: seq<Segment>): (n: U64)
  {
    if ps == [] then 0
    else
      var last, rest := ps[|ps| - 1], Top(ps[..|ps| - 1]);
      if last.load && EndOf(last) > rest then EndOf(last) else rest
  }

  /** heap_base, heap_end and heap_limit of a task. */
  datatype Heap = Heap(base: U64, end: U64, limit: U64)

  const HEAP_SIZE := 64 * 1024 * 1024

  /** The heap behind the address top, in 64 bits. */
  function HeapAt(top: U64): (h: Heap)
  {
    var base := (top + PAGE - 1) % WORD / PAGE * PAGE;
    Heap(base, base, (base + HEAP_SIZE) % WORD)
  }

  /** The span loop of sys_execve and the heap it places, before anything has tested the headers. */
  method PlaceHeap(ps: seq<Segment>) returns (h: Heap)
    ensures h == HeapAt(Top(ps))
  {
    var max: U64, i := 0, 0;
    while i < |ps|
      invariant i <= |ps| && max == Top(ps[..i])
    {
      assert ps[..i + 1][..i] == ps[..i];
      if ps[i].load && (ps[i].vaddr + ps[i].memSize) % WORD > max {
        max := (ps[i].vaddr + ps[i].memSize) % WORD;
      }
      i := i + 1;
    }
    assert ps[..i] == ps;
    var base := (max + PAGE - 1) % WORD / PAGE * PAGE;
    h := Heap(base, base, (base + HEAP_SIZE) % WORD);
  }

  lemma {:induction false} EndsBelow(ps: seq<Segment>, i: nat)
    requires i < |ps| && ps[i].load
    ensures EndOf(ps[i]) <= Top(ps)
  {
    if i < |ps| - 1 {
      EndsBelow(ps[..|ps| - 1], i);
    }
  }

  /** The largest end is that of some loaded segment, if there is one. */
  lemma {:induction false} TopReached(ps: seq<Segment>)
    ensures Top(ps) == 0 || exists i :: 0 <= i < |ps| && ps[i].load && EndOf(ps[i]) == Top(ps)
  {
    if ps != [] {
      var n := |ps| - 1;
      TopReached(ps[..n]);
      if Top(ps) == EndOf(ps[n]) && ps[n].load {
      } else if Top(ps) != 0 {
        var i :| 0 <= i < n && ps[..n][i].load && EndOf(ps[..n][i]) == Top(ps);
        assert ps[i].load && EndOf(ps[i]) == Top(ps);
      }
    }
  }

  lemma {:induction false} TopAdmitted(ps: seq<Segment>)
    requires AllAdmitted(ps)
    ensures Top(ps) <= VADDR_MAX
  {
    if ps != [] {
      assert Admitted(ps[|ps| - 1]);
      TopAdmitted(ps[..|ps| - 1]);
    }
  }

  lemma HeapAtLow(top: U64)
    requires top <= VADDR_MAX
    ensures var h := HeapAt(top);
      && h.base % PAGE == 0 && h.base - PAGE < top <= h.base
      && h.end == h.base && h.limit == h.base + HEAP_SIZE
  {
  }

  /** For a program that is loaded, the heap is empty at the first page boundary behind the largest end. */
  lemma HeapPlaced(ps: seq<Segment>)
    requires AllAdmitted(ps)
    ensures var h := HeapAt(Top(ps));
      && h.base % PAGE == 0 && h.base - PAGE < Top(ps) <= h.base
      && h.end == h.base && h.limit == h.base + 0x400_0000
  {
    TopAdmitted(ps);
    HeapAtLow(Top(ps));
  }

  lemma BehindExactly(p: Segment, base: U64)
    requires EndOf(p) <= base
    ensures p.vaddr + Extent(p) <= base <==> p.vaddr + p.memSize < WORD && p.vaddr + p.fileSize <= base
  {
  }

  /** Every byte that the loader stores lies below the heap. */
  ghost predicate HeapBehind(ps: seq<Segment>, h: Heap)
  {
    forall i :: 0 <= i < |ps| && ps[i].load ==> ps[i].vaddr + Extent(ps[i]) <= h.base
  }

  /** It is behind everything stored exactly when no segment's end wraps and no file bytes beyond the memory size
      reach past it. */
  lemma HeapBehindExactly(ps: seq<Segment>)
    requires AllAdmitted(ps)
    ensures HeapBehind(ps, HeapAt(Top(ps)))
      <==> forall i :: 0 <= i < |ps| && ps[i].load ==>
        ps[i].vaddr + ps[i].memSize < WORD && ps[i].vaddr + ps[i].fileSize <= HeapAt(Top(ps)).base
  {
    var top := Top(ps);
    TopAdmitted(ps);
    HeapAtLow(top);
    var base := HeapAt(top).base;
    forall i | 0 <= i < |ps| && ps[i].load
      ensures ps[i].vaddr + Extent(ps[i]) <= base
        <==> ps[i].vaddr + ps[i].memSize < WORD && ps[i].vaddr + ps[i].fileSize <= base
    {
      EndsBelow(ps, i);
      BehindExactly(ps[i], base);
    }
  }

  /** A segment whose end wraps is admitted, and the heap starts below it. */
  lemma WrappedHeap()
    ensures var ps := [Segment(true, WORD - 1, 0, 0, 1 + VADDR_MIN)];
      AllAdmitted(ps) && !HeapBehind(ps, HeapAt(Top(ps)))
  {
    var ps := [Segment(true, WORD - 1, 0, 0, 1 + VADDR_MIN)];
    HeapBehindExactly(ps);
    assert ps[0].load && ps[0].vaddr + ps[0].memSize >= WORD;
  }

  /** A segment with two pages in the file and none in memory is admitted and stays inside the window, and the
      heap starts where its bytes do. */
  lemma FileBytesInHeap()
    ensures var p := Segment(true, VADDR_MIN, 0, 2 * PAGE, 0);
      && AllAdmitted([p]) && StaysInside(p) && HeapAt(Top([p])).base == VADDR_MIN
      && !HeapBehind([p], HeapAt(Top([p])))
  {
    var p := Segment(true, VADDR_MIN, 0, 2 * PAGE, 0);
    StaysInsideExactly(p);
    assert [p][..0] == [] && Top([]) == 0 && Top([p]) == VADDR_MIN;
    assert [p][0] == p;
  }

  /** sys_brk; None stands for the error. */
  function Brk(h: Heap, addr: U64): (r: (Heap, Option<U64>))
  {
    if addr == 0 then (h, Some(h.end))
    else if addr < h.base || addr > h.limit then (h, None)
    else (h.(end := addr), Some(addr))
  }

  /** Zero asks for the end of the heap, an address within the limits becomes it, and any other is refused. */
  lemma BrkEffect(h: Heap, addr: U64)
    requires 0 < h.base
    ensures h.base <= addr <= h.limit <==> Brk(h, addr) == (Heap(h.base, addr, h.limit), Some(addr)) && addr != 0
    ensures addr == 0 ==> Brk(h, addr) == (h, Some(h.end))
    ensures addr != 0 && !(h.base <= addr <= h.limit) <==> Brk(h, addr).1 == None
    ensures Brk(h, addr).1 == None ==> Brk(h, addr).0 == h
  {
  }

  function BrkAll(h: Heap, addrs: seq<U64>): (r: Heap)
  {
    if addrs == [] then h else Brk(BrkAll(h, addrs[..|addrs| - 1]), addrs[|addrs| - 1]).0
  }

  lemma {:induction false} BrkKeeps(h: Heap, addrs: seq<U64>)
    requires h.base <= h.end <= h.limit
    ensures var r := BrkAll(h, addrs);
      r.base == h.base && r.limit == h.limit && r.base <= r.end <= r.limit
  {
    if addrs != [] {
      BrkKeeps(h, addrs[..|addrs| - 1]);
    }
  }

  /** Over every run of sys_brk the heap of a loaded program stays within its limits, and it stays above every
      byte stored exactly when it was placed so. */
  lemma HeapStaysClear(ps: seq<Segment>, addrs: seq<U64>)
    requires AllAdmitted(ps)
    ensures var h, r := HeapAt(Top(ps)), BrkAll(HeapAt(Top(ps)), addrs);
      && r.base == h.base && r.limit == h.base + HEAP_SIZE && r.base <= r.end <= r.limit
      && (HeapBehind(ps, r) <==> forall i :: 0 <= i < |ps| && ps[i].load ==>
            ps[i].vaddr + ps[i].memSize < WORD && ps[i].vaddr + ps[i].fileSize <= r.base)
  {
    HeapPlaced(ps);
    HeapBehindExactly(ps);
    BrkKeeps(HeapAt(Top(ps)), addrs);
  }
}
