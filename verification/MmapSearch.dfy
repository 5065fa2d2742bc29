/** The top-down search for an unmapped window below the stack.

    Addresses are counted in pages; 64-bit addresses hold 2^52 pages, and the subtraction that
    lowers the window wraps around as it does in the source. */
module MmapSearch {

  const ALL_PAGES: nat := 0x10_0000_0000_0000
  const MMAP_TOP: nat := 0x6_FFFF_FFF0       // USER_STACK_TOP - USER_STACK_SIZE, in pages
  const CODE_BASE: nat := 0x400              // USER_CODE_BASE, in pages
  const PAGE_BYTES: nat := 4096

  datatype Answer = Invalid | NoMemory | At(base: nat)

  ghost predicate Clear(present: nat -> bool, lo: nat, hi: nat) {
    forall v {:trigger present(v)} :: lo <= v < hi ==> !present(v)
  }

  method RangeClear(present: nat -> bool, lo: nat, hi: nat) returns (clear: bool)
    ensures clear <==> hi <= lo || Clear(present, lo, hi)
  {
    if lo >= hi {
      return true;
    }
    for v := lo to hi
      invariant Clear(present, lo, v)
    {
      if present(v) {
        return false;
      }
    }
    return true;
  }

  /** The highest mapped page of the window, or its first page when none is mapped. */
  function Highest(present: nat -> bool, lo: nat, hi: nat): (occ: nat)
    requires lo < hi
    ensures lo <= occ < hi && Clear(present, occ + 1, hi)
    ensures present(occ) || Clear(present, lo, hi)
    decreases hi
  {
    if present(hi - 1) || lo == hi - 1 then hi - 1 else Highest(present, lo, hi - 1)
  }

  method FindHighest(present: nat -> bool, lo: nat, hi: nat) returns (occ: nat)
    requires lo < hi
    ensures occ == Highest(present, lo, hi)
  {
    occ := lo;
    for v := lo to hi
      invariant lo <= occ < hi && occ <= v && (v == lo ==> occ == lo)
      invariant lo < v ==> occ < v && Clear(present, occ + 1, v) && (present(occ) || (occ == lo && Clear(present, lo, v)))
    {
      if present(v) {
        occ := v;
      }
    }
    HighestUnique(present, lo, hi, occ);
  }

  lemma HighestUnique(present: nat -> bool, lo: nat, hi: nat, occ: nat)
    requires lo <= occ < hi && Clear(present, occ + 1, hi) && (present(occ) || (occ == lo && Clear(present, lo, hi)))
    ensures occ == Highest(present, lo, hi)
    decreases hi
  {
    if !(present(hi - 1) || lo == hi - 1) {
      HighestUnique(present, lo, hi - 1, occ);
    }
  }

  /** The search from a window at `base` downwards; lowering the window below address 0 wraps
      around, and the next check then takes the wrapped window for empty and accepts it. */
  function Search(present: nat -> bool, base: nat, n: nat, floor: nat): Answer
    requires 0 < n <= ALL_PAGES
    decreases base
  {
    var occ := Highest(present, base, base + n);
    if !present(occ) then At(base)
    else if occ < n then At(occ + ALL_PAGES - n)
    else if occ - n < floor then NoMemory
    else Search(present, occ - n, n, floor)
  }

  function Floor(brk: nat): nat {
    var f := (brk + PAGE_BYTES - 1) / PAGE_BYTES;
    if f < CODE_BASE then CODE_BASE else f
  }

  /** `um_mmap_reserve` for a length in bytes and the current break. */
  method Reserve(present: nat -> bool, brk: nat, length: nat) returns (r: Answer)
    ensures length == 0 || length % PAGE_BYTES != 0 ==> r == Invalid
    ensures length != 0 && length % PAGE_BYTES == 0 ==>
              r == if MMAP_TOP < length / PAGE_BYTES + Floor(brk) then NoMemory
                   else Search(present, MMAP_TOP - length / PAGE_BYTES, length / PAGE_BYTES, Floor(brk))
  {
    if length == 0 {
      return Invalid;
    }
    if length % PAGE_BYTES != 0 {
      return Invalid;
    }
    var n := length / PAGE_BYTES;
    var floor := Floor(brk);
    if n > MMAP_TOP {
      return NoMemory;
    }
    if MMAP_TOP - n < floor {
      return NoMemory;
    }
    r := SearchFrom(present, MMAP_TOP - n, n, floor);
  }

  function WrapAdd(a: nat, b: nat): nat { if a + b >= ALL_PAGES then a + b - ALL_PAGES else a + b }

  function WrapSub(a: nat, b: nat): (d: int) { if a < b then a + ALL_PAGES - b else a - b }

  /** One step of the search past the highest occupied page. */
  lemma SearchHit(present: nat -> bool, base: nat, n: nat, floor: nat, occ: nat)
    requires 0 < n <= ALL_PAGES && base <= occ < base + n && present(occ) && Clear(present, occ + 1, base + n)
    ensures Search(present, base, n, floor) ==
            if occ < n then At(occ + ALL_PAGES - n) else if occ - n < floor then NoMemory else Search(present, occ - n, n, floor)
  {
    HighestUnique(present, base, base + n, occ);
  }

  lemma SearchClear(present: nat -> bool, base: nat, n: nat, floor: nat)
    requires 0 < n <= ALL_PAGES && Clear(present, base, base + n)
    ensures Search(present, base, n, floor) == At(base)
  {
  }

  method SearchFrom(present: nat -> bool, start: nat, n: nat, floor: nat) returns (r: Answer)
    requires 0 < n && floor <= start && start + n <= MMAP_TOP
    ensures r == Search(present, start, n, floor)
  {
    hide Search, Highest;
    var base := start;
    var wrapped := false;
    while true
      invariant floor <= base < ALL_PAGES
      invariant !wrapped ==> base + n <= MMAP_TOP && Search(present, base, n, floor) == Search(present, start, n, floor)
      invariant wrapped ==> ALL_PAGES <= base + n && base + n - ALL_PAGES <= base && Search(present, start, n, floor) == At(base)
      decreases !wrapped, base
    {
      var clear := RangeClear(present, base, WrapAdd(base, n));
      if clear {
        if !wrapped {
          SearchClear(present, base, n, floor);
        }
        return At(base);
      }
      var occ := FindHighest(present, base, base + n);
      SearchHit(present, base, n, floor, occ);
      wrapped := occ < n;
      base := WrapSub(occ, n);
      if base < floor {
        return NoMemory;
      }
    }
  }

  /** An answer is an unmapped window below the stack, or the wrapped one. */
  lemma {:induction false} SearchAnswer(present: nat -> bool, base: nat, n: nat, floor: nat)
    requires 0 < n && base + n <= MMAP_TOP
    ensures var r := Search(present, base, n, floor);
            r.At? ==> r.base < ALL_PAGES && (r.base + n >= ALL_PAGES || (r.base + n <= MMAP_TOP && Clear(present, r.base, r.base + n)))
    decreases base
  {
    var occ := Highest(present, base, base + n);
    if present(occ) && n <= occ && floor <= occ - n {
      SearchAnswer(present, occ - n, n, floor);
    }
  }

  /** `n` unmapped pages from `b` on. */
  ghost predicate Window(present: nat -> bool, b: nat, n: nat) {
    Clear(present, b, b + n)
  }

  /** What the caller wants: the highest window that is unmapped, or word that there is none. */
  ghost predicate Correct(present: nat -> bool, n: nat, floor: nat, r: Answer) {
    match r
    case At(base) =>
      && floor <= base && base + n <= MMAP_TOP && Window(present, base, n)
      && forall b :: base < b && b + n <= MMAP_TOP ==> !Window(present, b, n)
    case NoMemory => forall b :: floor <= b && b + n <= MMAP_TOP ==> !Window(present, b, n)
    case Invalid => false
  }

  /** The mapped pages from `lo` up to `hi`. */
  ghost function Mapped(present: nat -> bool, lo: nat, hi: nat): set<nat> {
    set v | lo <= v < hi && present(v)
  }

  /** Below an occupied page no window reaches over it. */
  lemma NoneAbove(present: nat -> bool, base: nat, n: nat, occ: nat)
    requires base <= occ < base + n && present(occ)
    requires forall b :: base < b && b + n <= MMAP_TOP ==> !Window(present, b, n)
    ensures forall b: nat :: occ < b + n && b + n <= MMAP_TOP ==> !Window(present, b, n)
  {
    forall b: nat | occ < b + n && b + n <= MMAP_TOP
      ensures !Window(present, b, n)
    {
      if b <= base {
        assert present(occ) && b <= occ < b + n;
      }
    }
  }

  /** When a window exists the search finds the highest one; when none exists and the length
      does not exceed the floor, it says so. */
  lemma {:induction false} SearchFinds(present: nat -> bool, base: nat, n: nat, floor: nat)
    requires 0 < n <= MMAP_TOP && floor <= base && base + n <= MMAP_TOP
    requires forall b :: base < b && b + n <= MMAP_TOP ==> !Window(present, b, n)
    requires n <= floor || exists b :: floor <= b && b + n <= MMAP_TOP && Window(present, b, n)
    ensures Correct(present, n, floor, Search(present, base, n, floor))
    decreases base
  {
    var occ := Highest(present, base, base + n);
    if present(occ) {
      NoneAbove(present, base, n, occ);
      if occ >= n && occ - n >= floor {
        SearchFinds(present, occ - n, n, floor);
      }
    } else {
      assert Window(present, base, n);
    }
  }

  /** With at most `k` mapped pages to pass and room for `k` windows below, the search never gets
      low enough to wrap. */
  lemma {:induction false} SearchFew(present: nat -> bool, base: nat, n: nat, floor: nat, k: nat)
    requires 0 < n <= MMAP_TOP && floor <= base && base + n <= MMAP_TOP
    requires forall b :: base < b && b + n <= MMAP_TOP ==> !Window(present, b, n)
    requires |Mapped(present, floor, base + n)| <= k && k * n <= base
    ensures Correct(present, n, floor, Search(present, base, n, floor))
    decreases base
  {
    hide Mapped, Highest;
    var occ := Highest(present, base, base + n);
    if present(occ) {
      NoneAbove(present, base, n, occ);
      OneLess(present, floor, occ, base + n);
      RoomLeft(k, n, occ);
      if occ - n >= floor {
        SearchFew(present, occ - n, n, floor, k - 1);
      }
    } else {
      assert Window(present, base, n);
    }
  }

  lemma OneLess(present: nat -> bool, floor: nat, occ: nat, hi: nat)
    requires floor <= occ < hi && present(occ)
    ensures |Mapped(present, floor, occ)| < |Mapped(present, floor, hi)|
  {
    Fewer(Mapped(present, floor, occ), Mapped(present, floor, hi), occ);
  }

  lemma RoomLeft(k: nat, n: nat, occ: nat)
    requires 1 <= k && k * n <= occ
    ensures n <= occ && (k - 1) * n <= occ - n
  {
    assert k * n == (k - 1) * n + n;
  }

  lemma Fewer(rest: set<nat>, all: set<nat>, x: nat)
    requires x in all && rest <= all - {x}
    ensures |rest| < |all|
  {
    Smaller(rest, all - {x});
  }

  lemma {:induction false} Smaller(a: set<nat>, b: set<nat>)
    requires a <= b
    ensures |a| <= |b|
  {
    if a != {} {
      var x :| x in a;
      Smaller(a - {x}, b - {x});
    }
  }

  /** A few mapped pages that lead the search below its own length: from each window to the next
      lower one, or straight to the floor. */
  ghost function Trap(base: nat, n: nat, floor: nat): (t: set<nat>)
    requires floor < n && floor <= base
    ensures forall v :: v in t ==> floor <= v < base + n
    decreases base
  {
    if base < n then {base}
    else
      var next := if base - n < floor then floor else base - n;
      Trap(next, n, floor) + {next + n}
  }

  lemma {:induction false} TrapSmall(base: nat, n: nat, floor: nat, k: nat)
    requires floor < n && floor <= base < k * n
    ensures |Trap(base, n, floor)| <= k
    decreases base
  {
    if base < n {
      assert 1 <= k;
    } else {
      var next := if base - n < floor then floor else base - n;
      assert 2 <= k;
      assert n <= (k - 1) * n;
      TrapSmall(next, n, floor, k - 1);
    }
  }

  /** Exactly the pages of the trap are mapped below `hi`. */
  ghost predicate Set(present: nat -> bool, t: set<nat>, hi: nat) {
    forall v {:trigger present(v)} {:trigger v in t} :: 0 <= v < hi ==> (present(v) <==> v in t)
  }

  lemma {:induction false} TrapWraps(present: nat -> bool, base: nat, n: nat, floor: nat)
    requires 0 < n <= MMAP_TOP && floor < n && floor <= base && base + n <= MMAP_TOP && Set(present, Trap(base, n, floor), base + n)
    ensures Search(present, base, n, floor).At? && Search(present, base, n, floor).base + n >= ALL_PAGES
    decreases base
  {
    hide Search;
    var t := Trap(base, n, floor);
    if base < n {
      assert t == {base};
      SearchHit(present, base, n, floor, base);
    } else {
      var next := if base - n < floor then floor else base - n;
      var rest := Trap(next, n, floor);
      assert t == rest + {next + n};
      TrapNext(present, rest, next + n, base + n);
      SearchHit(present, base, n, floor, next + n);
      TrapWraps(present, next, n, floor);
    }
  }

  lemma TrapNext(present: nat -> bool, rest: set<nat>, occ: nat, hi: nat)
    requires Set(present, rest + {occ}, hi) && occ < hi && forall v :: v in rest ==> v < occ
    ensures present(occ) && Clear(present, occ + 1, hi) && Set(present, rest, occ)
  {
    assert occ in rest + {occ};
  }

  /** Right for every page table with at most `k` pages between the floor and the stack. */
  ghost predicate AlwaysCorrect(n: nat, floor: nat, k: nat)
    requires 0 < n <= MMAP_TOP
  {
    forall present: nat -> bool {:trigger Search(present, MMAP_TOP - n, n, floor)} ::
      |Mapped(present, floor, MMAP_TOP)| <= k ==> Correct(present, n, floor, Search(present, MMAP_TOP - n, n, floor))
  }

  /** The search is right for every page table with at most `k` pages exactly when the length does
      not exceed the floor or `k` + 1 windows fit below the stack. */
  lemma ReserveCorrectIff(n: nat, floor: nat, k: nat)
    requires 0 < n && floor + n <= MMAP_TOP
    ensures AlwaysCorrect(n, floor, k) <==> n <= floor || (k + 1) * n <= MMAP_TOP
  {
    var top := MMAP_TOP - n;
    if n <= floor || (k + 1) * n <= MMAP_TOP {
      forall present: nat -> bool | |Mapped(present, floor, MMAP_TOP)| <= k
        ensures Correct(present, n, floor, Search(present, top, n, floor))
      {
        if n <= floor {
          SearchFinds(present, top, n, floor);
        } else {
          SearchFew(present, top, n, floor, k);
        }
      }
    } else {
      TrapCaught(n, floor, k);
    }
  }

  /** A page table with at most `k` pages for which the answer is wrong. */
  lemma TrapCaught(n: nat, floor: nat, k: nat)
    requires 0 < n && floor < n && floor + n <= MMAP_TOP < (k + 1) * n
    ensures var t := Trap(MMAP_TOP - n, n, floor);
            var present := (v: nat) => v in t;
            && |Mapped(present, floor, MMAP_TOP)| <= k
            && !Correct(present, n, floor, Search(present, MMAP_TOP - n, n, floor))
  {
    var top := MMAP_TOP - n;
    var t := Trap(top, n, floor);
    var present := (v: nat) => v in t;
    assert Mapped(present, floor, MMAP_TOP) == t;
    TrapSmall(top, n, floor, k);
    TrapWraps(present, top, n, floor);
  }
}
