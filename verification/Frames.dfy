/** The physical frame allocator of sageos_build/kernel/core/mm.c: a bitmap of 4 KiB frames. */
module Frames {
  import opened Bytes

  // ---------------------------------------------------------------- bits of a byte

  function Mask(k: nat): bv8
    requires k < 8
  {
    match k
    case 0 => 1
    case 1 => 2
    case 2 => 4
    case 3 => 8
    case 4 => 16
    case 5 => 32
    case 6 => 64
    case _ => 128
  }

  lemma MaskIsShift(k: nat)
    requires k < 8
    ensures Mask(k) == (1 as bv8) << k
  {
  }

  method Bit(k: nat) returns (m: bv8)
    requires k < 8
    ensures m == Mask(k)
  {
    MaskIsShift(k);
    m := 1 << k;
  }

  predicate HasBit(b: bv8, k: nat)
    requires k < 8
  {
    b & Mask(k) != 0
  }

  lemma BitOps(b: bv8, k: nat, j: nat)
    requires k < 8 && j < 8
    ensures HasBit(b | Mask(k), j) == (j == k || HasBit(b, j))
    ensures HasBit(b & !Mask(k), j) == (j != k && HasBit(b, j))
  {
  }

  lemma FullByte(k: nat)
    requires k < 8
    ensures HasBit(0xFF, k)
  {
  }

  // ---------------------------------------------------------------- the allocator as a set

  const PAGE := 4096
  const MAX_FRAMES := 32768
  const LOW := 256    // frames in the first megabyte
  const WORD := 0x1_0000_0000_0000_0000

  /** The set of marked frames, the number of frames managed, and the count of frames handed out. */
  datatype Pmm = Pmm(total: nat, bits: set<nat>, used: nat)

  datatype Op = Alloc | Free(addr: nat)

  function Lowest(bits: set<nat>, total: nat, i: nat): (r: Option<nat>)
    requires i <= total
    ensures r.Some? ==> i <= r.value < total && r.value !in bits
    ensures r.None? ==> forall f :: i <= f < total ==> f in bits
    decreases total - i
  {
    if i == total then None else if i !in bits then Some(i) else Lowest(bits, total, i + 1)
  }

  function Step(p: Pmm, op: Op): (r: Pmm)
    ensures r.total == p.total
  {
    match op
    case Alloc =>
      (match Lowest(p.bits, p.total, 0)
       case None => p
       case Some(f) => p.(bits := p.bits + {f}, used := (p.used + 1) % WORD))
    case Free(a) =>
      if a / PAGE < p.total then p.(bits := p.bits - {a / PAGE}, used := (p.used - 1) % WORD) else p
  }

  function Exec(p: Pmm, ops: seq<Op>): (r: Pmm)
    ensures r.total == p.total
  {
    if ops == [] then p else Step(Exec(p, ops[..|ops| - 1]), ops[|ops| - 1])
  }

  /** The frames handed out and not yet given back, after one more operation. */
  function HeldAfter(h: set<nat>, before: Pmm, op: Op): (r: set<nat>)
  {
    match op
    case Alloc => (match Lowest(before.bits, before.total, 0) case None => h case Some(f) => h + {f})
    case Free(a) => h - {a / PAGE}
  }

  function Held(p: Pmm, ops: seq<Op>): (h: set<nat>)
  {
    if ops == [] then {}
    else HeldAfter(Held(p, ops[..|ops| - 1]), Exec(p, ops[..|ops| - 1]), ops[|ops| - 1])
  }

  /** A free gives back a held frame, or names an address past the managed memory, which is ignored. */
  predicate Proper(h: set<nat>, p: Pmm, op: Op)
  {
    op.Free? ==> op.addr / PAGE in h || op.addr / PAGE >= p.total
  }

  predicate Disciplined(p: Pmm, ops: seq<Op>)
  {
    ops == [] || (
      var n := |ops| - 1;
      Disciplined(p, ops[..n]) && Proper(Held(p, ops[..n]), p, ops[n]))
  }

  ghost predicate Accounts(reserved: set<nat>, h: set<nat>, q: Pmm)
  {
    && q.bits == reserved + h
    && reserved !! h
    && (forall f :: f in h ==> f < q.total)
    && q.used == |h|
    && q.total <= MAX_FRAMES
  }

  lemma AllocAccounts(reserved: set<nat>, h: set<nat>, q: Pmm, f: nat)
    requires Accounts(reserved, h, q) && f < q.total && f !in q.bits
    ensures Accounts(reserved, h + {f}, q.(bits := q.bits + {f}, used := (q.used + 1) % WORD))
  {
    BelowCount(h + {f}, q.total);
    assert |h + {f}| == |h| + 1;
    assert q.bits + {f} == reserved + (h + {f});
  }

  lemma FreeAccounts(reserved: set<nat>, h: set<nat>, q: Pmm, f: nat)
    requires Accounts(reserved, h, q) && f < q.total
    ensures Accounts(reserved, h - {f}, q.(bits := q.bits - {f}, used := (q.used - 1) % WORD)) <==> f in h
  {
    BelowCount(h, q.total);
    if f in h {
      assert |h| == |h - {f}| + 1;
      assert q.bits - {f} == reserved + (h - {f});
    } else {
      assert h - {f} == h;
    }
  }

  /** One operation keeps the accounts straight exactly when it is a proper one. */
  lemma StepAccounts(reserved: set<nat>, h: set<nat>, q: Pmm, op: Op)
    requires Accounts(reserved, h, q)
    ensures Accounts(reserved, HeldAfter(h, q, op), Step(q, op)) <==> Proper(h, q, op)
  {
    match op {
      case Alloc =>
        var r := Lowest(q.bits, q.total, 0);
        if r.Some? {
          AllocAccounts(reserved, h, q, r.value);
        }
      case Free(a) =>
        if a / PAGE < q.total {
          FreeAccounts(reserved, h, q, a / PAGE);
        } else {
          assert h - {a / PAGE} == h;
        }
    }
  }

  lemma {:induction false} BelowCount(s: set<nat>, n: nat)
    requires forall f :: f in s ==> f < n
    ensures |s| <= n
  {
    if n == 0 {
      assert s == {};
    } else {
      BelowCount(s - {n - 1}, n - 1);
      assert |s| <= |s - {n - 1}| + 1;
    }
  }

  /** In every run that frees only held frames, the marked frames are those reserved at boot and those
      held, with none in both, and the counter counts the held ones. */
  lemma {:induction false} RunAccounts(p: Pmm, ops: seq<Op>)
    requires p.used == 0 && p.total <= MAX_FRAMES && Disciplined(p, ops)
    ensures Accounts(p.bits, Held(p, ops), Exec(p, ops))
  {
    if ops == [] {
      assert p.bits + {} == p.bits;
    } else {
      var n := |ops| - 1;
      RunAccounts(p, ops[..n]);
      StepAccounts(p.bits, Held(p, ops[..n]), Exec(p, ops[..n]), ops[n]);
    }
  }

  /** The first improper free always upsets the accounts: discipline is exactly what they need. */
  lemma ImproperFreeUpsets(p: Pmm, ops: seq<Op>, op: Op)
    requires p.used == 0 && p.total <= MAX_FRAMES && Disciplined(p, ops) && !Proper(Held(p, ops), p, op)
    ensures !Accounts(p.bits, Held(p, ops + [op]), Exec(p, ops + [op]))
  {
    RunAccounts(p, ops);
    StepAccounts(p.bits, Held(p, ops), Exec(p, ops), op);
    assert (ops + [op])[..|ops|] == ops;
  }

  /** An allocation fails only when every managed frame is reserved or held, and otherwise hands out a
      frame that is neither. */
  lemma AllocIsFresh(p: Pmm, ops: seq<Op>)
    requires p.used == 0 && p.total <= MAX_FRAMES && Disciplined(p, ops)
    ensures match Lowest(Exec(p, ops).bits, p.total, 0)
      case None => Range(0, p.total) <= p.bits + Held(p, ops)
      case Some(f) => f !in p.bits && f !in Held(p, ops) && f < p.total
  {
    RunAccounts(p, ops);
  }

  /** The bitmap count is the reserved frames below the limit plus the counter. */
  lemma CountSplits(p: Pmm, ops: seq<Op>)
    requires p.used == 0 && p.total <= MAX_FRAMES && Disciplined(p, ops)
    ensures |Below(Exec(p, ops).bits, p.total)| == |Below(p.bits, p.total)| + Exec(p, ops).used
  {
    RunAccounts(p, ops);
    var h := Held(p, ops);
    assert Below(Exec(p, ops).bits, p.total) == Below(p.bits, p.total) + h;
    assert Below(p.bits, p.total) !! h;
  }

  function Below(s: set<nat>, n: nat): (r: set<nat>)
  {
    set f | f in s && f < n
  }

  lemma BelowNext(s: set<nat>, n: nat)
    ensures |Below(s, n + 1)| == |Below(s, n)| + if n in s then 1 else 0
  {
    if n in s {
      assert Below(s, n + 1) == Below(s, n) + {n};
    } else {
      assert Below(s, n + 1) == Below(s, n);
    }
  }

  // ---------------------------------------------------------------- boot

  /** n frames from first. */
  function Range(first: nat, n: nat): (s: set<nat>)
    ensures forall f :: f in s <==> first <= f < first + n
  {
    if n == 0 then {} else Range(first, n - 1) + {first + n - 1}
  }

  /** The frames the kernel loop of phys_init marks: from a base address, one per page of size. */
  function KernelFrames(base: nat, size: nat): (s: set<nat>)
  {
    Range(base / PAGE, (size + PAGE - 1) / PAGE)
  }

  /** Some byte of the kernel lies in frame f. */
  predicate Touches(base: nat, size: nat, f: nat)
  {
    size > 0 && base < f * PAGE + PAGE && f * PAGE < base + size
  }

  /** The loop marks every frame the kernel touches exactly when the last page of the kernel does not spill
      over; a page-aligned base is enough. */
  lemma KernelCovered(base: nat, size: nat)
    requires size > 0
    ensures (forall f: nat :: Touches(base, size, f) ==> f in KernelFrames(base, size))
      <==> base % PAGE + (size - 1) % PAGE < PAGE
  {
    var first, pages, last := base / PAGE, (size - 1) / PAGE, (base + size - 1) / PAGE;
    assert (size + PAGE - 1) / PAGE == pages + 1;
    assert base == first * PAGE + base % PAGE && size - 1 == pages * PAGE + (size - 1) % PAGE;
    assert Touches(base, size, last);
    if base % PAGE + (size - 1) % PAGE < PAGE {
      assert last == first + pages;
    } else {
      assert last == first + pages + 1;
    }
  }

  /** A kernel of one page that starts half-way into one touches two frames, and the loop marks the first. */
  lemma KernelTailMissed()
    ensures KernelFrames(0x10_0800, PAGE) == {256} && Touches(0x10_0800, PAGE, 257)
  {
    assert Range(256, 0) == {};
  }

  function Managed(memoryTotal: nat): nat
  {
    if memoryTotal / PAGE > MAX_FRAMES then MAX_FRAMES else memoryTotal / PAGE
  }

  /** What phys_init leaves marked. */
  function Reserved(memoryTotal: nat, base: nat, size: nat): (s: set<nat>)
  {
    Unusable(Managed(memoryTotal), MAX_FRAMES) + KernelFrames(base, size)
  }

  /** All frames of the bitmap but those from the first megabyte up to n that are managed. */
  function Unusable(total: nat, n: nat): (s: set<nat>)
  {
    set f | f in Range(0, MAX_FRAMES) && !(LOW <= f < n && f < total)
  }

  function Boot(memoryTotal: nat, base: nat, size: nat): (p: Pmm)
    ensures p.total <= MAX_FRAMES
  {
    Pmm(Managed(memoryTotal), Reserved(memoryTotal, base, size), 0)
  }

  lemma UnmarkedIsUsable(memoryTotal: nat, f: nat)
    requires f < Managed(memoryTotal) && f !in Unusable(Managed(memoryTotal), MAX_FRAMES)
    ensures 0x10_0000 <= f * PAGE && f * PAGE + PAGE <= memoryTotal
  {
    assert f in Range(0, MAX_FRAMES);
  }

  /** From boot on, held frames are whole frames of memory outside the first megabyte and the kernel. */
  lemma HeldIsUsable(memoryTotal: nat, base: nat, size: nat, ops: seq<Op>, f: nat)
    requires Disciplined(Boot(memoryTotal, base, size), ops)
    requires f in Held(Boot(memoryTotal, base, size), ops)
    requires size > 0 ==> base % PAGE + (size - 1) % PAGE < PAGE
    ensures 0x10_0000 <= f * PAGE && f * PAGE + PAGE <= memoryTotal && !Touches(base, size, f)
  {
    RunAccounts(Boot(memoryTotal, base, size), ops);
    assert f !in Reserved(memoryTotal, base, size);
    UnmarkedIsUsable(memoryTotal, f);
    if size > 0 {
      KernelCovered(base, size);
    }
  }

  /** A managed frame is free at boot exactly when it lies above the first megabyte and outside the pages counted
      from the kernel's base. */
  lemma FreeAtBootExactly(memoryTotal: nat, base: nat, size: nat, f: nat)
    ensures f < Boot(memoryTotal, base, size).total <==> f < 32768 && f * 4096 + 4096 <= memoryTotal
    ensures f < Boot(memoryTotal, base, size).total ==>
      (f !in Boot(memoryTotal, base, size).bits
       <==> 0x10_0000 <= f * 4096 && !(base / 4096 <= f < base / 4096 + (size + 4095) / 4096))
  {
  }

  // ---------------------------------------------------------------- the bitmap

  class Allocator {
    const bitmap: array<bv8>
    var total: nat
    var used: nat

    ghost predicate Valid()
      reads this
    {
      bitmap.Length == MAX_FRAMES / 8 && total <= MAX_FRAMES
    }

    ghost predicate Marked(f: nat)
      reads bitmap
      requires bitmap.Length == MAX_FRAMES / 8 && f < MAX_FRAMES
    {
      HasBit(bitmap[f / 8], f % 8)
    }

    ghost function Bits(): (s: set<nat>)
      reads bitmap
      requires bitmap.Length == MAX_FRAMES / 8
    {
      set f | f in Range(0, MAX_FRAMES) && Marked(f)
    }

    ghost function Abs(): (p: Pmm)
      reads this, bitmap
      requires Valid()
    {
      Pmm(total, Bits(), used)
    }

    method SetFrame(f: nat)
      requires bitmap.Length == MAX_FRAMES / 8 && f < MAX_FRAMES
      modifies bitmap
      ensures Bits() == old(Bits()) + {f}
    {
      var bit := Bit(f % 8);
      bitmap[f / 8] := bitmap[f / 8] | bit;
      forall g: nat | g < MAX_FRAMES ensures Marked(g) <==> old(Marked(g)) || g == f {
        if g / 8 == f / 8 {
          BitOps(old(bitmap[f / 8]), f % 8, g % 8);
        }
      }
    }

    method UnsetFrame(f: nat)
      requires bitmap.Length == MAX_FRAMES / 8 && f < MAX_FRAMES
      modifies bitmap
      ensures Bits() == old(Bits()) - {f}
    {
      var bit := Bit(f % 8);
      bitmap[f / 8] := bitmap[f / 8] & !bit;
      forall g: nat | g < MAX_FRAMES ensures Marked(g) <==> old(Marked(g)) && g != f {
        if g / 8 == f / 8 {
          BitOps(old(bitmap[f / 8]), f % 8, g % 8);
        }
      }
    }

    method IsFrameSet(f: nat) returns (b: bool)
      requires Valid() && f < MAX_FRAMES
      ensures b <==> f in Bits()
    {
      var bit := Bit(f % 8);
      b := bitmap[f / 8] & bit != 0;
    }

    /** phys_init */
    constructor (memoryTotal: nat, kernelBase: nat, kernelSize: nat)
      requires kernelBase + kernelSize <= MAX_FRAMES * PAGE
      ensures Valid() && fresh(bitmap)
      ensures Abs() == Boot(memoryTotal, kernelBase, kernelSize)
    {
      bitmap := new bv8[MAX_FRAMES / 8](_ => 0xFF);
      total := if memoryTotal / PAGE > MAX_FRAMES then MAX_FRAMES else memoryTotal / PAGE;
      used := 0;
      new;
      forall f: nat | f < MAX_FRAMES ensures Marked(f) { FullByte(f % 8); }
      assert Bits() == Unusable(total, LOW);
      FreeUsable(memoryTotal);
      MarkKernel(kernelBase, kernelSize);
    }

    method FreeUsable(memoryTotal: nat)
      requires Valid() && total == Managed(memoryTotal) && Bits() == Unusable(total, LOW)
      modifies bitmap
      ensures Bits() == Unusable(total, MAX_FRAMES)
    {
      var addr := 0x10_0000;
      ghost var n := LOW;
      while addr < memoryTotal
        invariant addr == n * PAGE && n >= LOW
        invariant Bits() == Unusable(total, n)
        decreases memoryTotal - addr
      {
        var frame := addr / PAGE;
        if frame < total {
          UnsetFrame(frame);
        }
        addr := addr + PAGE;
        n := n + 1;
      }
    }

    method MarkKernel(base: nat, size: nat)
      requires Valid() && base + size <= MAX_FRAMES * PAGE
      modifies bitmap
      ensures Bits() == old(Bits()) + KernelFrames(base, size)
    {
      var addr := base;
      ghost var n := 0;
      while addr < base + size
        invariant addr == base + n * PAGE && n <= (size + PAGE - 1) / PAGE
        invariant Bits() == old(Bits()) + Range(base / PAGE, n)
        decreases base + size - addr
      {
        assert addr / PAGE == base / PAGE + n;
        SetFrame(addr / PAGE);
        addr := addr + PAGE;
        n := n + 1;
      }
      assert n == (size + PAGE - 1) / PAGE;
    }

    /** phys_alloc; None stands for NULL. */
    method PhysAlloc() returns (addr: Option<nat>)
      requires Valid()
      modifies this, bitmap
      ensures Valid() && Abs() == Step(old(Abs()), Alloc)
      ensures addr == (match Lowest(old(Bits()), total, 0) case None => None case Some(f) => Some(f * PAGE))
    {
      var i := 0;
      while i < total
        invariant Valid() && i <= total && Abs() == old(Abs())
        invariant Lowest(Bits(), total, i) == Lowest(Bits(), total, 0)
      {
        var marked := IsFrameSet(i);
        if !marked {
          SetFrame(i);
          used := (used + 1) % WORD;
          return Some(i * PAGE);
        }
        i := i + 1;
      }
      return None;
    }

    /** phys_free */
    method PhysFree(addr: nat)
      requires Valid()
      modifies this, bitmap
      ensures Valid() && Abs() == Step(old(Abs()), Free(addr))
    {
      var frame := addr / PAGE;
      if frame < total {
        UnsetFrame(frame);
        used := (used - 1) % WORD;
      }
    }

    /** pmm_count_used_frames */
    method CountUsed() returns (count: nat)
      requires Valid()
      ensures count == |Below(Bits(), total)|
    {
      count := 0;
      var i := 0;
      ghost var bits := Bits();
      while i < total
        invariant i <= total && count == |Below(bits, i)|
      {
        var marked := IsFrameSet(i);
        BelowNext(bits, i);
        if marked {
          count := count + 1;
        }
        i := i + 1;
      }
    }
  }
}
