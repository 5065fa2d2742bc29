/** The bitmap allocator of physical 4 KiB frames.

    Frames are named by number; the physical address of frame `f` is `f * PAGE_SIZE`. */
module Frames {

  const PAGE_SIZE: nat := 4096

  // -----------------------------------------------------------------------------
  // Bits of a bitmap byte

  function Mask(k: nat): bv8
    requires k < 8
  {
    match k
    case 0 => 1
    case 1 => 2
    case 2 => 4
    case 3 => 8
    case 4 => 16
    case 5 => 32
    case 6 => 64
    case _ => 128
  }

  predicate Bit(b: bv8, k: nat)
    requires k < 8
  {
    b & Mask(k) != 0
  }

  lemma SetBit(b: bv8, k: nat, j: nat)
    requires k < 8 && j < 8
    ensures Bit(b | Mask(k), j) <==> j == k || Bit(b, j)
  {
  }

  lemma ClearBit(b: bv8, k: nat, j: nat)
    requires k < 8 && j < 8
    ensures Bit(b & !Mask(k), j) <==> j != k && Bit(b, j)
  {
  }

  lemma FullByte(j: nat)
    requires j < 8
    ensures Bit(0xFF, j)
  {
  }

  // -----------------------------------------------------------------------------
  // The allocator

  class Pmm {
    const bitmap: array<bv8>
    const total: nat
    var freeFrames: int

    /** Every frame starts out used. */
    constructor (frames: nat)
      ensures total == frames && fresh(bitmap) && Sized() && Padded() && FreeSet() == {} && freeFrames == 0
    {
      total := frames;
      bitmap := new bv8[(frames + 7) / 8](_ => 0xFF);
      freeFrames := 0;
      new;
      forall f: nat | f / 8 < bitmap.Length
        ensures Used(f)
      {
        FullByte(f % 8);
      }
    }

    ghost predicate Sized()
    {
      bitmap.Length == (total + 7) / 8
    }

    predicate Used(f: nat)
      reads bitmap
    {
      f / 8 < bitmap.Length && Bit(bitmap[f / 8], f % 8)
    }

    ghost function FreeSet(): set<nat>
      reads bitmap
    {
      set f: nat | f < total && !Used(f)
    }

    /** The counter is the number of clear bits. */
    ghost predicate Valid()
      reads this, bitmap
    {
      Sized() && freeFrames == |FreeSet()|
    }

    /** The bits behind the last frame are set. */
    ghost predicate Padded()
      reads bitmap
    {
      forall f: nat :: total <= f && f / 8 < bitmap.Length ==> Used(f)
    }

    method BitSet(f: nat)
      requires Sized() && f < total
      modifies bitmap
      ensures FreeSet() == old(FreeSet()) - {f}
      ensures old(Padded()) ==> Padded()
    {
      bitmap[f / 8] := bitmap[f / 8] | Mask(f % 8);
      forall g: nat | g / 8 < bitmap.Length
        ensures Used(g) <==> g == f || old(Used(g))
      {
        SetBit(old(bitmap[f / 8]), f % 8, g % 8);
      }
    }

    /** Marks a frame used unless it already is, keeping the counter in step. */
    method Take(f: nat)
      requires Sized() && f < total
      modifies this`freeFrames, bitmap
      ensures FreeSet() == old(FreeSet()) - {f}
      ensures freeFrames - |FreeSet()| == old(freeFrames - |FreeSet()|)
      ensures old(Padded()) ==> Padded()
    {
      assert Used(f) <==> f !in FreeSet();
      hide Used, FreeSet, Padded;
      ghost var was := FreeSet();
      if !Used(f) {
        BitSet(f);
        freeFrames := freeFrames - 1;
        assert |was - {f}| == |was| - 1;
      } else {
        assert was - {f} == was;
      }
    }

    method BitClear(f: nat)
      requires Sized() && f < total
      modifies bitmap
      ensures FreeSet() == old(FreeSet()) + {f}
      ensures old(Padded()) ==> Padded()
    {
      bitmap[f / 8] := bitmap[f / 8] & !Mask(f % 8);
      forall g: nat | g / 8 < bitmap.Length
        ensures Used(g) <==> g != f && old(Used(g))
      {
        ClearBit(old(bitmap[f / 8]), f % 8, g % 8);
      }
    }

    /** All frames below `n` are used. */
    ghost predicate FullBelow(n: nat)
      reads bitmap
    {
      forall f: nat :: f < total && f < n ==> Used(f)
    }

    lemma FullStep(i: nat)
      requires i < bitmap.Length && bitmap[i] == 0xFF && FullBelow(8 * i)
      ensures FullBelow(8 * (i + 1))
    {
      forall f: nat | 8 * i <= f < 8 * i + 8
        ensures Used(f)
      {
        FullByte(f % 8);
      }
    }

    lemma FullAll(n: nat)
      requires total <= n && FullBelow(n)
      ensures FreeSet() == {}
    {
    }

    lemma Lowest(f: nat)
      requires f < total && FullBelow(f) && !Used(f)
      ensures f in FreeSet() && forall g :: g in FreeSet() ==> f <= g
    {
    }

    /** Hands out the lowest free frame; 0 means there is none. */
    method AllocFrame() returns (r: nat)
      requires Valid()
      modifies this`freeFrames, bitmap
      ensures Valid()
      ensures old(FreeSet()) == {} ==> r == 0 && FreeSet() == {}
      ensures old(FreeSet()) != {} ==>
                && r in old(FreeSet()) && FreeSet() == old(FreeSet()) - {r}
                && forall f :: f in old(FreeSet()) ==> r <= f
    {
      hide FreeSet, Used;
      for i := 0 to bitmap.Length
        invariant unchanged(this) && unchanged(bitmap)
        invariant FullBelow(8 * i)
      {
        if bitmap[i] == 0xFF {
          FullStep(i);
        } else {
          for bit := 0 to 8
            invariant unchanged(this) && unchanged(bitmap)
            invariant FullBelow(8 * i + bit)
          {
            var frame := i * 8 + bit;
            if frame >= total {
              FullAll(frame);
              return 0;
            }
            if !Used(frame) {
              Lowest(frame);
              BitSet(frame);
              freeFrames := freeFrames - 1;
              return frame;
            }
          }
        }
      }
      FullAll(8 * bitmap.Length);
      return 0;
    }

    /** Out-of-range frames and frames already free are ignored. */
    method FreeFrame(f: nat)
      requires Valid()
      modifies this`freeFrames, bitmap
      ensures Valid()
      ensures FreeSet() == if f < total then old(FreeSet()) + {f} else old(FreeSet())
    {
      if f >= total {
        return;
      }
      if Used(f) {
        BitClear(f);
        freeFrames := freeFrames + 1;
      } else {
        assert FreeSet() == FreeSet() + {f};
      }
    }
  }

  // -----------------------------------------------------------------------------
  // Initialisation from the boot memory map

  datatype Region = Region(base: nat, length: nat, usable: bool)

  function FirstFrame(r: Region): nat { (r.base + PAGE_SIZE - 1) / PAGE_SIZE }

  function EndFrame(r: Region): nat { (r.base + r.length) / PAGE_SIZE }

  predicate InRegion(r: Region, f: nat) { r.usable && FirstFrame(r) <= f < EndFrame(r) }

  ghost predicate Covered(regions: seq<Region>, f: nat) {
    exists i :: 0 <= i < |regions| && InRegion(regions[i], f)
  }

  ghost function CoveredSet(regions: seq<Region>, total: nat): set<nat> {
    set f: nat | f < total && Covered(regions, f)
  }

  predicate Between(lo: nat, f: nat, hi: nat) { lo <= f < hi }

  ghost function Range(lo: nat, hi: nat): set<nat> {
    set f: nat | f < hi && Between(lo, f, hi)
  }

  /** Some frame lies in two usable regions. */
  ghost predicate Clash(regions: seq<Region>) {
    exists i, j, f: nat :: 0 <= i < j < |regions| && InRegion(regions[i], f) && InRegion(regions[j], f)
  }

  method HighestAddress(regions: seq<Region>) returns (top: nat)
    ensures forall r :: r in regions ==> r.base + r.length <= top
    ensures top == 0 || exists r :: r in regions && r.base + r.length == top
  {
    top := 0;
    for i := 0 to |regions|
      invariant forall r :: r in regions[..i] ==> r.base + r.length <= top
      invariant top == 0 || exists r :: r in regions && r.base + r.length == top
    {
      if regions[i].base + regions[i].length > top {
        top := regions[i].base + regions[i].length;
        assert regions[i] in regions;
      }
    }
    assert regions[..|regions|] == regions;
  }

  /** The base of the first usable region that can hold the bitmap, or 0. */
  method PlaceBitmap(regions: seq<Region>, bytes: nat) returns (base: nat)
    ensures base == 0 ==> forall i: nat :: Hosts(regions, bytes, i) ==> regions[i].base == 0
    ensures base != 0 ==> exists i: nat :: Hosts(regions, bytes, i) && regions[i].base == base
  {
    for i := 0 to |regions|
      invariant forall j :: 0 <= j < i ==> !(regions[j].usable && bytes <= regions[j].length)
    {
      if regions[i].usable && regions[i].length >= bytes {
        assert Hosts(regions, bytes, i);
        assert forall j: nat :: Hosts(regions, bytes, j) ==> j == i;
        return regions[i].base;
      }
    }
    return 0;
  }

  lemma RangeNext(lo: nat, f: nat)
    requires lo <= f
    ensures Range(lo, f + 1) == Range(lo, f) + {f} && f !in Range(lo, f)
  {
  }

  /** Clears the bits of frames `lo` to `hi`, counting every one of them. */
  method FreeRange(p: Pmm, lo: nat, hi: nat)
    requires p.Sized() && hi <= p.total
    modifies p, p.bitmap
    ensures p.FreeSet() == old(p.FreeSet()) + Range(lo, hi)
    ensures p.freeFrames == old(p.freeFrames) + if lo < hi then hi - lo else 0
    ensures old(p.Padded()) ==> p.Padded()
  {
    hide Pmm.Used, Pmm.FreeSet, Range, Pmm.Padded;
    NoRange(lo, if lo < hi then lo else hi);
    if lo < hi {
      for f := lo to hi
        invariant p.FreeSet() == old(p.FreeSet()) + Range(lo, f)
        invariant p.freeFrames == old(p.freeFrames) + f - lo
        invariant old(p.Padded()) ==> p.Padded()
      {
        RangeNext(lo, f);
        p.BitClear(f);
        p.freeFrames := p.freeFrames + 1;
      }
    }
  }

  lemma NoRange(lo: nat, hi: nat)
    requires hi <= lo
    ensures Range(lo, hi) == {}
  {
  }

  // -----------------------------------------------------------------------------
  // Frames counted more than once

  function FrameCount(r: Region): nat {
    if r.usable && FirstFrame(r) < EndFrame(r) then EndFrame(r) - FirstFrame(r) else 0
  }

  /** The frames of the usable regions, each counted as often as it occurs. */
  function Counted(regions: seq<Region>): nat {
    if regions == [] then 0 else Counted(regions[..|regions| - 1]) + FrameCount(regions[|regions| - 1])
  }

  /** How far that exceeds the number of frames covered. */
  ghost function Surplus(regions: seq<Region>, total: nat): int { Counted(regions) - |CoveredSet(regions, total)| }

  lemma CountedNext(regions: seq<Region>, i: nat)
    requires i < |regions|
    ensures Counted(regions[..i + 1]) == Counted(regions[..i]) + FrameCount(regions[i])
  {
    assert regions[..i + 1][..i] == regions[..i];
  }

  lemma {:induction false} RangeSize(lo: nat, hi: nat)
    requires lo <= hi
    ensures |Range(lo, hi)| == hi - lo
    decreases hi
  {
    if lo == hi {
      NoRange(lo, hi);
    } else {
      RangeSize(lo, hi - 1);
      RangeNext(lo, hi - 1);
    }
  }

  /** The frames region `r` adds to the covered ones are those of its own not covered yet. */
  lemma SurplusNext(regions: seq<Region>, i: nat, total: nat)
    requires i < |regions| && EndFrame(regions[i]) <= total
    ensures Surplus(regions[..i + 1], total) == Surplus(regions[..i], total) +
                                                (if regions[i].usable then |CoveredSet(regions[..i], total) * Range(FirstFrame(regions[i]), EndFrame(regions[i]))| else 0)
  {
    hide Covered, Range, InRegion;
    CountedNext(regions, i);
    var a, r := CoveredSet(regions[..i], total), Range(FirstFrame(regions[i]), EndFrame(regions[i]));
    if regions[i].usable {
      NewClash(regions, i, total);
      if FirstFrame(regions[i]) < EndFrame(regions[i]) {
        RangeSize(FirstFrame(regions[i]), EndFrame(regions[i]));
      } else {
        NoRange(FirstFrame(regions[i]), EndFrame(regions[i]));
      }
      assert |a + r| + |a * r| == |a| + |r|;
    } else {
      NotUsable(regions, i, total);
    }
  }

  lemma NotUsable(regions: seq<Region>, i: nat, total: nat)
    requires i < |regions| && !regions[i].usable
    ensures CoveredSet(regions[..i + 1], total) == CoveredSet(regions[..i], total)
  {
    hide Clash, Covered;
    RegionAdded(regions, i);
  }

  /** Nothing is counted twice exactly when no two usable regions share a frame. */
  lemma {:induction false} SurplusIff(regions: seq<Region>, total: nat, n: nat)
    requires n <= |regions| && forall r :: r in regions ==> EndFrame(r) <= total
    ensures 0 <= Surplus(regions[..n], total) && (Surplus(regions[..n], total) == 0 <==> !Clash(regions[..n]))
  {
    hide Clash, Covered, Range, InRegion, CoveredSet, Surplus, EndFrame;
    if n == 0 {
      NoSurplus(regions, total);
    } else {
      SurplusIff(regions, total, n - 1);
      assert regions[n - 1] in regions;
      SurplusNext(regions, n - 1, total);
      ClashNext(regions, n - 1, total);
    }
  }

  lemma NoSurplus(regions: seq<Region>, total: nat)
    ensures Surplus(regions[..0], total) == 0 && !Clash(regions[..0])
  {
    NothingCovered(regions, total);
  }

  lemma NoneShared(a: set<nat>, b: set<nat>)
    ensures a !! b <==> |a * b| == 0
  {
    if a !! b {
      assert a * b == {};
    } else {
      var x :| x in a && x in b;
      assert x in a * b;
    }
  }

  lemma ClashNext(regions: seq<Region>, i: nat, total: nat)
    requires i < |regions| && EndFrame(regions[i]) <= total
    ensures Clash(regions[..i + 1]) <==>
            Clash(regions[..i]) ||
            (regions[i].usable && 0 < |CoveredSet(regions[..i], total) * Range(FirstFrame(regions[i]), EndFrame(regions[i]))|)
  {
    hide Clash, Covered, Range, CoveredSet, FirstFrame, EndFrame;
    RegionAdded(regions, i);
    if regions[i].usable {
      var a, r := CoveredSet(regions[..i], total), Range(FirstFrame(regions[i]), EndFrame(regions[i]));
      NewClash(regions, i, total);
      NoneShared(a, r);
    }
  }

  lemma NewClash(regions: seq<Region>, i: nat, total: nat)
    requires i < |regions| && regions[i].usable && EndFrame(regions[i]) <= total
    ensures CoveredSet(regions[..i], total) + Range(FirstFrame(regions[i]), EndFrame(regions[i])) == CoveredSet(regions[..i + 1], total)
    ensures CoveredSet(regions[..i], total) !! Range(FirstFrame(regions[i]), EndFrame(regions[i])) <==>
              !exists f: nat :: Covered(regions[..i], f) && InRegion(regions[i], f)
  {
    RegionAdded(regions, i);
    hide Covered;
    assert forall f: nat :: InRegion(regions[i], f) <==> Between(FirstFrame(regions[i]), f, EndFrame(regions[i]));
    if f: nat :| Covered(regions[..i], f) && InRegion(regions[i], f) {
      assert f in CoveredSet(regions[..i], total) && f in Range(FirstFrame(regions[i]), EndFrame(regions[i]));
    }
  }

  lemma RegionAdded(regions: seq<Region>, i: nat)
    requires i < |regions|
    ensures forall f: nat :: Covered(regions[..i + 1], f) <==> Covered(regions[..i], f) || InRegion(regions[i], f)
    ensures Clash(regions[..i + 1]) <==> Clash(regions[..i]) || exists f: nat :: Covered(regions[..i], f) && InRegion(regions[i], f)
  {
    var now, next := regions[..i], regions[..i + 1];
    forall f: nat
      ensures Covered(next, f) <==> Covered(now, f) || InRegion(regions[i], f)
    {
      if Covered(now, f) {
        var k :| 0 <= k < |now| && InRegion(now[k], f);
        assert next[k] == now[k];
      }
      assert next[i] == regions[i];
    }
    if Clash(now) {
      var a, b, f: nat :| 0 <= a < b < |now| && InRegion(now[a], f) && InRegion(now[b], f);
      assert next[a] == now[a] && next[b] == now[b];
    }
    if f: nat :| Covered(now, f) && InRegion(regions[i], f) {
      var k :| 0 <= k < |now| && InRegion(now[k], f);
      assert next[k] == now[k] && next[i] == regions[i];
    }
    if Clash(next) {
      var a, b, f: nat :| 0 <= a < b < |next| && InRegion(next[a], f) && InRegion(next[b], f);
      assert now[a] == next[a];
      if b < i {
        assert now[b] == next[b];
      }
    }
  }

  method Reserve(p: Pmm, lo: nat, hi: nat)
    requires p.Sized() && lo <= hi <= p.total
    modifies p, p.bitmap
    ensures p.FreeSet() == old(p.FreeSet()) - Range(lo, hi)
    ensures p.freeFrames - |p.FreeSet()| == old(p.freeFrames - |p.FreeSet()|)
    ensures old(p.Padded()) ==> p.Padded()
  {
    hide Pmm.Used, Pmm.FreeSet, Range, Pmm.Padded;
    NoRange(lo, lo);
    for f := lo to hi
      invariant p.FreeSet() == old(p.FreeSet()) - Range(lo, f)
      invariant p.freeFrames - |p.FreeSet()| == old(p.freeFrames - |p.FreeSet()|)
      invariant old(p.Padded()) ==> p.Padded()
    {
      RangeNext(lo, f);
      p.Take(f);
    }
  }

  /** Region `i` is the first usable one with room for the bitmap. */
  ghost predicate Hosts(regions: seq<Region>, bytes: nat, i: nat) {
    && i < |regions| && regions[i].usable && bytes <= regions[i].length
    && forall j :: 0 <= j < i ==> !(regions[j].usable && bytes <= regions[j].length)
  }

  /** The bitmap ends in the partial frame above the last whole one, whose bit lies behind the
      bitmap and reads as clear. */
  predicate Spills(total: nat, bmEnd: nat, bitBehind: bool) { total < bmEnd && total % 8 == 0 && !bitBehind }

  function Spill(total: nat, bmEnd: nat, bitBehind: bool): nat { if Spills(total, bmEnd, bitBehind) then 1 else 0 }

  /** Free are exactly the frames of the usable regions outside the bitmap and frame 0.  The counter
      is too high by the frames counted more than once and too low by one if the bitmap spills; the
      64-bit counter wraps where it is negative here.  `bitBehind` is the bit found just behind the
      bitmap. */
  method Init(regions: seq<Region>, bitBehind: bool) returns (p: Pmm?, total: nat, bmStart: nat, bmEnd: nat)
    ensures forall r :: r in regions ==> EndFrame(r) <= total
    ensures total == 0 || exists r :: r in regions && EndFrame(r) == total
    ensures p == null <==> forall i: nat :: Hosts(regions, (total + 7) / 8, i) ==> regions[i].base == 0
    ensures p != null ==>
              && p.Sized() && p.total == total
              && p.FreeSet() == CoveredSet(regions, total) - Range(bmStart, bmEnd) - {0}
              && (exists i: nat :: Hosts(regions, (total + 7) / 8, i) && FramesHold(regions[i].base, (total + 7) / 8, bmStart, bmEnd))
              && p.freeFrames == |p.FreeSet()| + Surplus(regions, total) - Spill(total, bmEnd, bitBehind)
              && (p.Valid() <==> Surplus(regions, total) == Spill(total, bmEnd, bitBehind))
              && (!Spills(total, bmEnd, bitBehind) ==> (p.Valid() <==> !Clash(regions)))
  {
    hide Pmm.FreeSet, Clash, Surplus, Hosts, FramesHold, CoveredSet, Range, Spills;
    p, total, bmStart, bmEnd := Setup(regions, bitBehind);
    SurplusIff(regions, total, |regions|);
    assert regions[..|regions|] == regions;
  }

  /** The steps of `pmm_init`. */
  method Setup(regions: seq<Region>, bitBehind: bool) returns (p: Pmm?, total: nat, bmStart: nat, bmEnd: nat)
    ensures forall r :: r in regions ==> EndFrame(r) <= total
    ensures total == 0 || exists r :: r in regions && EndFrame(r) == total
    ensures p == null <==> forall i: nat :: Hosts(regions, (total + 7) / 8, i) ==> regions[i].base == 0
    ensures p != null ==>
              && p.Sized() && p.total == total
              && p.FreeSet() == CoveredSet(regions, total) - Range(bmStart, bmEnd) - {0}
              && (exists i: nat :: Hosts(regions, (total + 7) / 8, i) && FramesHold(regions[i].base, (total + 7) / 8, bmStart, bmEnd))
              && p.freeFrames == |p.FreeSet()| + Surplus(regions, total) - Spill(total, bmEnd, bitBehind)
  {
    hide Pmm.FreeSet, Pmm.Used, Covered, Range, CoveredSet, Counted;
    var top := HighestAddress(regions);
    total := top / PAGE_SIZE;
    var base := PlaceBitmap(regions, (total + 7) / 8);
    bmStart := base / PAGE_SIZE;
    bmEnd := (base + (total + 7) / 8 + PAGE_SIZE - 1) / PAGE_SIZE;
    if base == 0 {
      return null, total, bmStart, bmEnd;
    }
    p := new Pmm(total);
    FreeUsable(p, regions);
    BitmapFits(regions, base, total, top);
    var end := if bmEnd <= total then bmEnd else total;
    Reserve(p, bmStart, end);
    if total < bmEnd {
      var marked := if total % 8 == 0 then bitBehind else p.Used(total);
      assert marked || total % 8 == 0;
      if !marked {
        p.freeFrames := p.freeFrames - 1;
      }
    }
    Reserve(p, 0, if total > 0 then 1 else 0);
    FreeAfter(regions, total, bmStart, bmEnd);
  }

  /** The frames that hold `bytes` bytes from address `base` on. */
  predicate FramesHold(base: nat, bytes: nat, first: nat, end: nat) {
    first * PAGE_SIZE <= base < first * PAGE_SIZE + PAGE_SIZE && base + bytes <= end * PAGE_SIZE < base + bytes + PAGE_SIZE
  }

  lemma FreeAfter(regions: seq<Region>, total: nat, bmStart: nat, bmEnd: nat)
    ensures CoveredSet(regions, total) - Range(bmStart, if bmEnd <= total then bmEnd else total) - Range(0, if total > 0 then 1 else 0)
         == CoveredSet(regions, total) - Range(bmStart, bmEnd) - {0}
  {
  }

  lemma BitmapFits(regions: seq<Region>, base: nat, total: nat, top: nat)
    requires total == top / PAGE_SIZE
    requires exists i: nat :: Hosts(regions, (total + 7) / 8, i) && regions[i].base == base
    requires forall r :: r in regions ==> r.base + r.length <= top
    ensures base / PAGE_SIZE <= total && base / PAGE_SIZE <= (base + (total + 7) / 8 + PAGE_SIZE - 1) / PAGE_SIZE <= total + 1
    ensures FramesHold(base, (total + 7) / 8, base / PAGE_SIZE, (base + (total + 7) / 8 + PAGE_SIZE - 1) / PAGE_SIZE)
  {
    var i: nat :| Hosts(regions, (total + 7) / 8, i) && regions[i].base == base;
    assert regions[i] in regions;
    assert base + (total + 7) / 8 <= top;
  }

  method FreeUsable(p: Pmm, regions: seq<Region>)
    requires p.Sized() && p.FreeSet() == {} && p.freeFrames == 0
    requires forall r :: r in regions ==> EndFrame(r) <= p.total
    modifies p, p.bitmap
    ensures p.FreeSet() == CoveredSet(regions, p.total) && p.freeFrames == Counted(regions)
    ensures old(p.Padded()) ==> p.Padded()
  {
    hide Clash, Pmm.FreeSet, Pmm.Padded, Covered, Range, CoveredSet;
    NothingCovered(regions, p.total);
    for i := 0 to |regions|
      invariant p.FreeSet() == CoveredSet(regions[..i], p.total) && p.freeFrames == Counted(regions[..i])
      invariant old(p.Padded()) ==> p.Padded()
    {
      assert regions[i] in regions;
      CountedNext(regions, i);
      if regions[i].usable {
        FreeRange(p, FirstFrame(regions[i]), EndFrame(regions[i]));
        NewClash(regions, i, p.total);
      } else {
        NotUsable(regions, i, p.total);
      }
    }
    assert regions[..|regions|] == regions;
  }

  lemma NothingCovered(regions: seq<Region>, total: nat)
    ensures CoveredSet(regions[..0], total) == {} && !Clash(regions[..0])
  {
  }

  // -----------------------------------------------------------------------------
  // Instances

  /** One region twice: its frame is counted twice. */
  method CountedTwice() returns (p: Pmm?)
    ensures p != null && p.freeFrames == |p.FreeSet()| + 1
  {
    hide Pmm.FreeSet, Covered, CoveredSet, Range, Surplus;
    var r := Region(4096, 4096, true);
    var regions := [r, r];
    assert r in regions;
    var total, bmStart, bmEnd;
    p, total, bmStart, bmEnd := Init(regions, true);
    assert Hosts(regions, 1, 0);
    OneFrame(regions);
  }

  lemma OneFrame(regions: seq<Region>)
    requires regions == [Region(4096, 4096, true), Region(4096, 4096, true)]
    ensures Surplus(regions, 2) == 1
  {
    assert CoveredSet(regions, 2) == {1} by {
      assert InRegion(regions[0], 1);
    }
    CountedNext(regions, 0);
    CountedNext(regions, 1);
    assert regions[..2] == regions && Counted(regions[..0]) == 0;
  }

  /** The bitmap ends in a partial frame above the last whole one: the counter is one too low. */
  method CountedShort() returns (p: Pmm?)
    ensures p != null && p.freeFrames == |p.FreeSet()| - 1
  {
    hide Pmm.FreeSet, Covered, CoveredSet, Range, Surplus;
    var r := Region(32768, 100, true);
    var regions := [r];
    assert r in regions;
    var total, bmStart, bmEnd;
    p, total, bmStart, bmEnd := Init(regions, false);
    assert Hosts(regions, 1, 0);
    NoFrame(regions);
  }

  lemma NoFrame(regions: seq<Region>)
    requires regions == [Region(32768, 100, true)]
    ensures Surplus(regions, 8) == 0
  {
    assert CoveredSet(regions, 8) == {};
    assert Counted(regions) == 0;
  }

  /** Both at once: the two mistakes cancel. */
  method CountedRight() returns (p: Pmm?)
    ensures p != null && p.Valid()
  {
    hide Pmm.FreeSet, Covered, CoveredSet, Range, Surplus;
    var big, r := Region(32768, 100, true), Region(4096, 4096, true);
    var regions := [big, r, r];
    assert big in regions && r in regions;
    var total, bmStart, bmEnd;
    p, total, bmStart, bmEnd := Init(regions, false);
    assert Hosts(regions, 1, 0);
    BothMistakes(regions);
  }

  lemma BothMistakes(regions: seq<Region>)
    requires regions == [Region(32768, 100, true), Region(4096, 4096, true), Region(4096, 4096, true)]
    ensures Surplus(regions, 8) == 1
  {
    assert CoveredSet(regions, 8) == {1} by {
      assert InRegion(regions[1], 1);
    }
    CountedNext(regions, 0);
    CountedNext(regions, 1);
    CountedNext(regions, 2);
    assert regions[..3] == regions && Counted(regions[..0]) == 0;
  }
}
