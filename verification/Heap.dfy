/** The first-fit boundary-tag allocator over the brk arena. */
module Heap {
  import opened HeapLayout
  import opened HeapSteps
  import opened HeapBytes
  import opened FreeList

  /** What `sys_sbrk` answers: whether the query succeeds, and whether a grow request does. */
  datatype Kernel = Kernel(queryOk: bool, growOk: bool)

  function Align16(n: nat): nat { (n + 15) / 16 * 16 }

  /** User size to full block size, or 0 when the addition would overflow. */
  function SizeToNeed(size: nat): (need: nat)
    ensures need == 0 <==> size > SIZE_MAX - (HEADER_SZ + 15)
    ensures need != 0 ==>
              && need % 16 == 0 && MIN_BLOCK <= need && HEADER_SZ + size <= need <= SIZE_MAX
              && (need == MIN_BLOCK || need < HEADER_SZ + size + 16)
  {
    if size > SIZE_MAX - (HEADER_SZ + 15) then 0
    else if HEADER_SZ + Align16(size) < MIN_BLOCK then MIN_BLOCK
    else HEADER_SZ + Align16(size)
  }

  function Total(nmemb: nat, size: nat): nat { nmemb * size }

  /** `n` with its offset in the page masked off. */
  function WholePages(n: nat): (r: nat)
    ensures r <= n < r + PAGE_SZ && r % PAGE_SZ == 0 && r % 16 == 0
  {
    var q := n / 4096;
    assert n == 4096 * q + n % 4096 && 4096 * q == 16 * (256 * q);
    4096 * q
  }

  /** The growth in bytes: `need` rounded up to whole pages in 64-bit arithmetic, and at least one.
      Within a page of the largest size the rounding wraps. */
  function ChunkFor(need: nat): (chunk: nat)
    requires need <= SIZE_MAX
    ensures need + PAGE_SZ - 1 <= SIZE_MAX ==> need <= chunk && (chunk < need + PAGE_SZ || chunk == PAGE_SZ)
    ensures need + PAGE_SZ - 1 > SIZE_MAX ==> chunk == PAGE_SZ
    ensures chunk % PAGE_SZ == 0 && PAGE_SZ <= chunk && chunk % 16 == 0
  {
    var sum := need + PAGE_SZ - 1;
    var chunk := WholePages(if sum > SIZE_MAX then sum - SIZE_MAX - 1 else sum);
    if chunk < PAGE_SZ then PAGE_SZ else chunk
  }

  /** The listed block that ends at `hi` would have `need` bytes with `chunk` more. */
  ghost predicate TopFits(bs: Blocks, fl: seq<nat>, hi: nat, need: nat, chunk: nat) {
    exists b :: b in fl && b in bs && Next(bs, b) == hi && need <= 16 * bs[b] + chunk
  }

  /** Block `b` begins where new space at `hi` is joined on: at the listed block that ends there, or
      at `hi` itself. */
  ghost predicate TopBlock(bs: Blocks, fl: seq<nat>, hi: nat, b: nat) {
    if exists c :: c in fl && c in bs && Next(bs, c) == hi then b in fl && b in bs && Next(bs, b) == hi else b == hi
  }

  /** Where a request of `need` bytes is served: from the first listed block that fits, or, without
      one, at the top. */
  ghost predicate ServedAt(bs: Blocks, fl: seq<nat>, hi: nat, need: nat, b: nat) {
    if Fits(bs, fl, need) then exists i: nat :: FirstFit(bs, fl, need, i) && b == fl[i] else TopBlock(bs, fl, hi, b)
  }

  lemma FitIsFirst(bs: Blocks, fl: seq<nat>, need: nat, i: nat)
    requires FirstFit(bs, fl, need, i)
    ensures Fits(bs, fl, need)
  {
    assert fl[i] in fl;
  }

  /** When nothing fitted before, the first fit after growing is the top block. */
  lemma GrownFit(bs: Blocks, bs': Blocks, fl: seq<nat>, fl': seq<nat>, hi: nat, need: nat, i: nat, tb: nat)
    requires !Fits(bs, fl, need) && FirstFit(bs', fl', need, i)
    requires forall b :: b in fl' && b != tb ==> b in fl && b in bs && b in bs' && bs'[b] == bs[b]
    ensures fl'[i] == tb
  {
    assert fl'[i] in fl';
  }

  lemma ExtendedFit(m: seq<Cell>, bs: Blocks, fl: seq<nat>, head: nat, lo: nat, hi: nat, tb: nat, need: nat, chunk: nat)
    requires Core(m, bs, fl, head, lo, hi, 0, 0) && tb in bs && tb in fl && Next(bs, tb) == hi && chunk % 16 == 0
    ensures Fits(bs[tb := bs[tb] + chunk / 16], fl, need) <==> Fits(bs, fl, need) || need <= chunk || TopFits(bs, fl, hi, need, chunk)
  {
    hide Links, BlocksOk;
    var bs' := bs[tb := bs[tb] + chunk / 16];
    forall b | b in fl && b in bs && Next(bs, b) == hi
      ensures b == tb
    {
      assert bs[b] == bs[b] && bs[tb] == bs[tb];
    }
    assert TopFits(bs, fl, hi, need, chunk) <==> need <= 16 * bs[tb] + chunk;
    if Fits(bs, fl, need) {
      var b :| b in fl && b in bs && need <= 16 * bs[b];
      assert b in bs' && need <= 16 * bs'[b];
    }
    if need <= 16 * bs[tb] + chunk {
      assert need <= 16 * bs'[tb];
    }
  }

  lemma ListedIn(m: seq<Cell>, bs: Blocks, fl: seq<nat>, head: nat, lo: nat, hi: nat)
    requires Core(m, bs, fl, head, lo, hi, 0, 0)
    ensures forall b :: b in fl ==> b in bs
  {
    hide Links, BlocksOk, Tiles;
  }

  lemma EndFree(m: seq<Cell>, bs: Blocks, fl: seq<nat>, head: nat, lo: nat, hi: nat)
    requires Core(m, bs, fl, head, lo, hi, 0, 0)
    ensures hi !in bs
  {
    hide Links, BlocksOk;
    assert forall b :: b in bs ==> b < b + bs[b] <= hi;
  }

  lemma FreshFit(bs: Blocks, fl: seq<nat>, hi: nat, need: nat, chunk: nat)
    requires hi !in bs && chunk % 16 == 0 && forall b :: b in bs && b in fl ==> Next(bs, b) != hi
    ensures Fits(bs[hi := chunk / 16], [hi] + fl, need) <==> Fits(bs, fl, need) || need <= chunk || TopFits(bs, fl, hi, need, chunk)
  {
    var bs', fl' := bs[hi := chunk / 16], [hi] + fl;
    assert hi in fl';
    if Fits(bs, fl, need) {
      var b :| b in fl && b in bs && need <= 16 * bs[b];
      assert b in fl' && b in bs';
    }
  }

  /** Only the top block is new or longer. */
  ghost predicate GrownAt(bs: Blocks, bs': Blocks, fl: seq<nat>, fl': seq<nat>, hi: nat) {
    exists tb: nat :: TopBlock(bs, fl, hi, tb) && OnlyTop(bs, bs', fl, fl', tb)
  }

  ghost predicate OnlyTop(bs: Blocks, bs': Blocks, fl: seq<nat>, fl': seq<nat>, tb: nat) {
    forall b :: b in fl' && b != tb ==> b in fl && b in bs && b in bs' && bs'[b] == bs[b]
  }

  lemma ServedTop(bs: Blocks, bs': Blocks, fl: seq<nat>, fl': seq<nat>, hi: nat, need: nat, i: nat)
    requires !Fits(bs, fl, need) && GrownAt(bs, bs', fl, fl', hi) && FirstFit(bs', fl', need, i)
    ensures ServedAt(bs, fl, hi, need, fl'[i])
  {
    hide TopBlock, Fits;
    var tb: nat :| TopBlock(bs, fl, hi, tb) && OnlyTop(bs, bs', fl, fl', tb);
    GrownFit(bs, bs', fl, fl', hi, need, i, tb);
  }

  /** The allocator at one moment: whether it is set up, the break and its limit, the blocks, the free
      list, and the buffers of the client. */
  datatype View = View(started: bool, top: nat, limit: nat, blocks: Blocks, fl: seq<nat>, contents: map<nat, seq<Cell>>)

  /** A small request is granted in this state. */
  ghost predicate GrantedIn(v: View, k: Kernel, size: nat) {
    && (v.started || k.queryOk) && SizeToNeed(size) <= SIZE_MAX
    && (Fits(v.blocks, v.fl, SizeToNeed(size)) || (k.growOk && v.top + ChunkFor(SizeToNeed(size)) / 16 <= v.limit))
  }

  /** Where a small request leaves the break. */
  ghost function TopAfter(v: View, k: Kernel, size: nat): nat {
    if GrantedIn(v, k, size) && SizeToNeed(size) != 0 && !Fits(v.blocks, v.fl, SizeToNeed(size)) then v.top + ChunkFor(SizeToNeed(size)) / 16 else v.top
  }

  /** A request on values: search, grow if need be, search again; the layout after it and the pointer. */
  ghost function Taken(v: View, k: Kernel, size: nat): (Layout, nat) {
    var need, l := SizeToNeed(size), Layout(v.blocks, v.fl);
    if need == 0 || !(v.started || k.queryOk) then (l, NULL) else
    var cells := ChunkFor(need) / 16;
    var s := Space(l, v.top, need, k.growOk && v.top + cells <= v.limit, cells);
    (Fitted(s, need), Found(s, need))
  }

  class Arena {
    const mem: array<Cell>
    const brk: nat              // the kernel break when the process starts
    var aStart: nat
    var aEnd: nat
    var freeHead: nat
    ghost var blocks: Blocks
    ghost var fl: seq<nat>

    constructor (cells: array<Cell>, break0: nat)
      requires 0 < break0 <= cells.Length
      ensures mem == cells && brk == break0 && Valid() && Contents() == map[]
    {
      mem, brk := cells, break0;
      aStart, aEnd, freeHead, blocks, fl := NULL, NULL, NULL, map[], [];
    }

    /** Nothing has been set up yet, or the structural invariant holds. */
    ghost predicate Valid()
      reads this, mem
    {
      && 0 < brk <= mem.Length
      && if aStart == NULL then aEnd == NULL && freeHead == NULL && blocks == map[] && fl == [] else Limbo(0, 0)
    }

    /** The client's view: a private buffer of cells for each block handed out. */
    ghost function Contents(): map<nat, seq<Cell>>
      reads this, mem
    {
      Payloads(mem[..], Used(blocks, fl, 0))
    }

    /** Some free block is large enough for `need` bytes. */
    ghost predicate HasFit(need: nat)
      reads this
    {
      Fits(blocks, fl, need)
    }

    /** The kernel would move the break up for a request of `need` bytes. */
    ghost predicate CanGrow(k: Kernel, need: nat)
      requires need <= SIZE_MAX
      reads this
    {
      k.growOk && (if aStart == NULL then brk else aEnd) + ChunkFor(need) / 16 <= mem.Length
    }

    /** A small request is served: the arena can be set up, and a block fits or the break moves. */
    ghost predicate Granted(k: Kernel, size: nat)
      reads this
    {
      (aStart != NULL || k.queryOk) && (HasFit(SizeToNeed(size)) || CanGrow(k, SizeToNeed(size)))
    }

    /** The grown space is large enough: the chunk itself, or with the free block below it. */
    ghost predicate GrowsInto(need: nat)
      requires need <= SIZE_MAX
      reads this
    {
      need <= ChunkFor(need) || TopFits(blocks, fl, aEnd, need, ChunkFor(need))
    }

    /** Where the kernel break is. */
    ghost function Top(): nat
      reads this
    {
      if aStart == NULL then brk else aEnd
    }

    ghost function Now(): View
      reads this, mem
    {
      View(aStart != NULL, Top(), mem.Length, blocks, fl, Contents())
    }

    /** A buffer of that many cells is what a request of `size` bytes gets: its block is the size
        needed, or too little more to be split off. */
    predicate Tight(cells: nat, size: nat) { SizeToNeed(size) <= 16 * (cells + 1) < SizeToNeed(size) + MIN_BLOCK }

    /** How far a request moves the break: not at all when a listed block fits. */
    ghost function Growth(k: Kernel, size: nat): nat
      reads this
    {
      var need := SizeToNeed(size);
      if need != 0 && (aStart != NULL || k.queryOk) && !HasFit(need) && CanGrow(k, need) then ChunkFor(need) / 16 else 0
    }

    /** The request was served from the first listed block that fits, or at the top, and the break
        moved only if it had to. */
    twostate predicate Served(k: Kernel, size: nat, p: nat)
      reads this
    {
      && Top() == old(Top()) + old(Growth(k, size))
      && (aStart != NULL <==> old(aStart) != NULL || (SizeToNeed(size) != 0 && k.queryOk))
      && (p != NULL ==> ServedAt(old(blocks), old(fl), old(Top()), SizeToNeed(size), p - 1))
    }

    ghost function Lay(): Layout
      reads this
    {
      Layout(blocks, fl)
    }

    ghost predicate Limbo(x: nat, y: nat)
      reads this, mem
    {
      Core(mem[..], blocks, fl, freeHead, aStart, aEnd, x, y)
    }

    // ---------------------------------------------------------------------------
    // Free-list plumbing

    method FlUnlink(n: nat, ghost i: nat)
      requires Links(mem[..], freeHead, fl)
      requires i < |fl| && n == fl[i] + 1
      modifies mem, this`freeHead, this`fl
      ensures fl == RemoveAt(old(fl), i)
      ensures Links(mem[..], freeHead, fl)
      ensures SameOutside(old(mem[..]), mem[..], old(fl))
    {
      ghost var m0, head0, fl0 := mem[..], freeHead, fl;
      UnlinkedLinks(m0, head0, fl0, i);
      assert m0[n] == Cell(PrevOf(fl, i), NextOf(fl, i));
      var prev, next := mem[n].lo, mem[n].hi;
      if prev != NULL {
        mem[prev] := mem[prev].(hi := next);
      } else {
        freeHead := next;
      }
      if next != NULL {
        mem[next] := mem[next].(lo := prev);
      }
      mem[n] := Cell(NULL, NULL);
      fl := RemoveAt(fl, i);
      assert mem[..] == Unlinked(m0, prev, n, next);
    }

    method FlInsert(x: nat, ghost nx: nat)
      requires x + 3 <= nx <= aEnd <= mem.Length && mem[x].lo == 16 * (nx - x)
      requires freeHead == NULL || (freeHead < mem.Length && freeHead !in {x, x + 1, nx - 1} && (freeHead != nx || nx == aEnd))
      modifies mem, this`freeHead
      ensures freeHead == x + 1
      ensures InsertedAt(old(mem[..]), mem[..], old(freeHead), aEnd, x, nx)
    {
      mem[x + 1] := Cell(NULL, freeHead);
      if freeHead != NULL {
        mem[freeHead] := mem[freeHead].(lo := x + 1);
      }
      freeHead := x + 1;
      var f := x + mem[x].lo / 16 - 1;
      mem[f] := mem[x];
      var next := x + mem[x].lo / 16;
      if next < aEnd {
        mem[next] := mem[next].(hi := SetPrev(mem[next].hi));
      }
    }

    /** `FlInsert` of a finished free block. */
    method LinkFree(x: nat, ghost y: nat)
      requires Limbo(x, y) && x in blocks && x != y
      requires mem[x].hi == 0 && (Next(blocks, x) < aEnd ==> IsAlloc(mem[Next(blocks, x)].hi))
      modifies mem, this`freeHead, this`fl
      ensures Limbo(0, y) && fl == [x] + old(fl)
      ensures PayloadsKept(old(mem[..]), mem[..], blocks, old(fl), x)
      ensures forall k {:trigger mem[k]} :: x + 1 < k < Next(blocks, x) - 1 && k < mem.Length ==> mem[k] == old(mem[k])
    {
      hide Links, Tiles, BlocksOk, PayloadsKept, InsertedAt;
      ghost var m0, head0 := mem[..], freeHead;
      HeadApart(m0, blocks, fl, freeHead, aStart, aEnd, x);
      FlInsert(x, Next(blocks, x));
      InsertedCore(m0, mem[..], blocks, fl, head0, aStart, aEnd, x, y);
      InsertedInside(m0, mem[..], blocks, fl, head0, aStart, aEnd, x);
      assert forall k :: 0 <= k < mem.Length ==> mem[k] == mem[..][k] && old(mem[k]) == m0[k];
      fl := [x] + fl;
    }

    /** The first half of freeing and of `InsertFree`: swallow a free right neighbour. */
    method AbsorbNext(x: nat, ghost y: nat)
      requires Limbo(x, y) && x in blocks && x != y
      modifies mem, this`freeHead, this`fl, this`blocks
      ensures Limbo(x, y) && x in blocks && mem[x].hi == old(mem[x].hi)
      ensures Next(blocks, x) < aEnd ==> IsAlloc(mem[Next(blocks, x)].hi)
      ensures Used(blocks, fl, x) == old(Used(blocks, fl, x))
      ensures Kept(old(mem[..]), mem[..], old(Used(blocks, fl, x)))
      ensures Lay() == JoinedRight(old(Lay()), x)
    {
      hide Links, Tiles, BlocksOk, SameOutside, Used, Kept;
      LimboFacts(mem[..], blocks, fl, freeHead, aStart, aEnd, x, y);
      EndUnlisted(blocks, fl, aStart, aEnd, x);
      var nx := x + mem[x].lo / 16;
      if nx < aEnd && !IsAlloc(mem[nx].hi) {
        ghost var m0, head0, i := mem[..], freeHead, FindIndex(fl, nx);
        mem[x] := mem[x].(lo := mem[x].lo + mem[nx].lo);
        ghost var m1 := mem[..];
        assert m1 == m0[x := m0[x].(lo := 16 * (blocks[x] + blocks[nx]))];
        HeaderLinks(m0, blocks, fl, head0, aStart, aEnd, x, m1[x]);
        FlUnlink(nx + 1, i);
        AbsorbRight(m0, mem[..], blocks, old(fl), head0, freeHead, aStart, aEnd, x, y, i);
        blocks := Merged(blocks, x);
      } else {
        KeptRefl(mem[..], Used(blocks, fl, x));
      }
    }

    method InsertFree(r: nat, ghost y: nat)
      requires Limbo(r, y) && r in blocks && r != y && mem[r].hi == 0
      modifies mem, this`freeHead, this`fl, this`blocks
      ensures Limbo(0, y)
      ensures Used(blocks, fl, 0) == old(Used(blocks, fl, r))
      ensures Kept(old(mem[..]), mem[..], old(Used(blocks, fl, r)))
      ensures Lay() == Inserted(old(Lay()), r)
    {
      hide Links, Tiles, BlocksOk, Used, Kept;
      AbsorbNext(r, y);
      ghost var m1, fl1 := mem[..], fl;
      LinkFree(r, y);
      UsedLinked(blocks, fl1, aStart, aEnd, r);
      UsedKept(m1, mem[..], blocks, fl1, r);
      KeptTrans(old(mem[..]), m1, mem[..], old(Used(blocks, fl, r)));
    }

    // ---------------------------------------------------------------------------
    // Allocation

    /** Cuts `need` bytes from the first block on the list that is large enough. */
    method CutFirstFit(need: nat) returns (p: nat, ghost i: nat)
      requires Limbo(0, 0) && MIN_BLOCK <= need && need % 16 == 0
      modifies mem, this`freeHead, this`fl, this`blocks
      ensures Limbo(0, 0)
      ensures i <= |old(fl)| && (p == NULL <==> i == |old(fl)|)
      ensures forall j :: 0 <= j < i ==> old(fl)[j] in old(blocks) && 16 * old(blocks)[old(fl)[j]] < need
      ensures p == NULL ==> unchanged(this) && unchanged(mem) && mem[..] == old(mem[..])
      ensures p != NULL <==> old(HasFit(need))
      ensures p != NULL ==> FirstFit(old(blocks), old(fl), need, i)
      ensures p == Found(old(Lay()), need) && Lay() == Fitted(old(Lay()), need)
      ensures p != NULL ==>
                && p == old(fl)[i] + 1
                && p - 1 in blocks && need <= 16 * blocks[p - 1] < need + MIN_BLOCK
                && p - 1 !in old(Used(blocks, fl, 0))
                && Used(blocks, fl, 0) == old(Used(blocks, fl, 0))[p - 1 := blocks[p - 1]]
      ensures Kept(old(mem[..]), mem[..], old(Used(blocks, fl, 0)))
    {
      hide Links, Tiles, BlocksOk, SameOutside, Used, Kept, PayloadsKept;
      var n := freeHead;
      i := 0;
      HeadFacts(mem[..], freeHead, fl);
      while n != NULL
        invariant Limbo(0, 0) && i <= |fl|
        invariant n == if i < |fl| then fl[i] + 1 else NULL
        invariant forall j :: 0 <= j < i ==> fl[j] in blocks && 16 * blocks[fl[j]] < need
        invariant unchanged(this) && unchanged(mem) && mem[..] == old(mem[..])
        decreases |fl| - i
      {
        NodeFacts(mem[..], blocks, fl, freeHead, aStart, aEnd, i);
        if mem[n - 1].lo >= need {
          p := n;
          FirstIs(blocks, fl, need, i);
          if mem[n - 1].lo - need >= MIN_BLOCK {
            CutSplit(n - 1, need, i);
          } else {
            TakeWhole(n - 1, i);
          }
          return;
        }
        n := mem[n].hi;
        i := i + 1;
      }
      p := NULL;
      FirstIs(blocks, fl, need, i);
      KeptRefl(mem[..], Used(blocks, fl, 0));
    }

    method CutSplit(b: nat, need: nat, ghost i: nat)
      requires Limbo(0, 0) && i < |fl| && fl[i] == b && b in blocks
      requires MIN_BLOCK <= need && need % 16 == 0 && need + MIN_BLOCK <= 16 * blocks[b]
      modifies mem, this`freeHead, this`fl, this`blocks
      ensures Limbo(0, 0)
      ensures b in blocks && 16 * blocks[b] == need
      ensures b !in old(Used(blocks, fl, 0))
      ensures Used(blocks, fl, 0) == old(Used(blocks, fl, 0))[b := need / 16]
      ensures Kept(old(mem[..]), mem[..], old(Used(blocks, fl, 0)))
      ensures Lay() == Cut(old(Lay()), need, i)
    {
      hide Links, Tiles, BlocksOk, SameOutside, Used, Kept, PayloadsKept, Inserted, Cut;
      ghost var m0, fl0, head0, used0 := mem[..], fl, freeHead, Used(blocks, fl, 0);
      ghost var k := need / 16;
      NodeFacts(m0, blocks, fl, freeHead, aStart, aEnd, i);
      TakenUsed(m0, blocks, fl, freeHead, aStart, aEnd, i);
      var oldSize := mem[b].lo;
      FlUnlink(b + 1, i);
      ghost var m1 := mem[..];
      UnlinkedCore(m0, m1, blocks, fl0, head0, freeHead, aStart, aEnd, i, 0);
      UsedKept(m0, m1, blocks, fl0, 0);
      mem[b] := Cell(need, SetAlloc(mem[b].hi));
      var r := b + need / 16;
      mem[r] := Cell(oldSize - need, 0);
      ghost var m2 := mem[..];
      assert CutAt(m1, m2, blocks, b, k);
      CutCore(m1, m2, blocks, fl, freeHead, aStart, aEnd, b, k, 0);
      UsedKept(m1, m2, blocks, fl, b);
      CutUsed(blocks, fl, aStart, aEnd, b, k);
      blocks := Split(blocks, b, k);
      RestAlone(m0, old(blocks), fl0, head0, aStart, aEnd, i);
      RestInserted(old(blocks), fl0, need, i);
      InsertFree(r, 0);
      UsedAt(blocks, fl, 0, b);
      KeptMore(m2, mem[..], used0, b, k);
      KeptTrans(m0, m1, m2, used0);
      KeptTrans(m0, m2, mem[..], used0);
    }

    method TakeWhole(b: nat, ghost i: nat)
      requires Limbo(0, 0) && i < |fl| && fl[i] == b && b in blocks
      modifies mem, this`freeHead, this`fl
      ensures Limbo(0, 0)
      ensures b !in old(Used(blocks, fl, 0))
      ensures Used(blocks, fl, 0) == old(Used(blocks, fl, 0))[b := blocks[b]]
      ensures Kept(old(mem[..]), mem[..], old(Used(blocks, fl, 0)))
      ensures fl == RemoveAt(old(fl), i)
    {
      hide Links, Tiles, BlocksOk, SameOutside, Used, Kept, PayloadsKept;
      ghost var m0, fl0, head0 := mem[..], fl, freeHead;
      NodeFacts(m0, blocks, fl, freeHead, aStart, aEnd, i);
      TakenUsed(m0, blocks, fl, freeHead, aStart, aEnd, i);
      mem[b] := mem[b].(hi := SetAlloc(mem[b].hi));
      var nx := b + mem[b].lo / 16;
      if nx < aEnd {
        mem[nx] := mem[nx].(hi := ClearPrev(mem[nx].hi));
      }
      ghost var m1 := mem[..];
      assert TakenAt(m0, m1, blocks, aEnd, b);
      TakenLinks(m0, m1, blocks, fl, freeHead, aStart, aEnd, b);
      FlUnlink(b + 1, i);
      TakenCore(m0, m1, mem[..], blocks, fl0, head0, freeHead, aStart, aEnd, i);
      UsedKept(m0, mem[..], blocks, fl0, 0);
    }

    // ---------------------------------------------------------------------------
    // Release

    /** The double-free test of the source finds the ALLOC bit of that header clear. */
    predicate Reports(v: nat)
      reads mem
    {
      0 < v <= mem.Length && !IsAlloc(mem[v - 1].hi)
    }

    /** `ok` is false for a block that is already free: the double-free report.  A second free of
        this block is reported exactly when the block was not absorbed into a free left neighbour. */
    method HeapFree(v: nat) returns (ok: bool)
      requires Limbo(0, 0) && 0 < v && v - 1 in blocks
      modifies mem, this`freeHead, this`fl, this`blocks
      ensures Limbo(0, 0)
      ensures ok <==> v - 1 in old(Used(blocks, fl, 0))
      ensures !ok ==> unchanged(this) && unchanged(mem)
      ensures Used(blocks, fl, 0) == old(Used(blocks, fl, 0)) - {v - 1}
      ensures Kept(old(mem[..]), mem[..], Used(blocks, fl, 0))
      ensures ok ==> (Reports(v) <==> !old(LeftFree(blocks, fl, v - 1))) && (v - 1 in blocks <==> !old(LeftFree(blocks, fl, v - 1)))
      ensures ok ==> Lay() == Freed(old(Lay()), v - 1)
    {
      hide Links, Tiles, BlocksOk, SameOutside, Used, Kept, PayloadsKept;
      var b := v - 1;
      PrevIff(mem[..], blocks, fl, freeHead, aStart, aEnd, b);
      hide LeftFree;
      TagFacts(mem[..], blocks, fl, freeHead, aStart, aEnd, b);
      if !IsAlloc(mem[b].hi) {
        KeptRefl(mem[..], Used(blocks, fl, 0));
        return false;
      }
      ghost var used' := Used(blocks, fl, b);
      AllocToLimbo(mem[..], blocks, fl, freeHead, aStart, aEnd, b);
      AbsorbNext(b, 0);
      ghost var m1 := mem[..];
      LimboFacts(m1, blocks, fl, freeHead, aStart, aEnd, b, 0);
      if IsPrev(mem[b].hi) {
        b := AbsorbIntoPrev(b);
        LinksDistinct(old(mem[..]), old(freeHead), old(fl));
        LeftKept(old(Lay()), aStart, aEnd, v - 1, b);
      }
      ghost var m2 := mem[..];
      LimboFlags(m2, blocks, fl, freeHead, aStart, aEnd, b, ClearAlloc(m2[b].hi));
      UsedKept(m2, m2[b := m2[b].(hi := ClearAlloc(m2[b].hi))], blocks, fl, b);
      mem[b] := mem[b].(hi := ClearAlloc(mem[b].hi));
      ghost var m3, fl3 := mem[..], fl;
      assert m3 == m2[b := m2[b].(hi := ClearAlloc(m2[b].hi))];
      LinkFree(b, 0);
      UsedLinked(blocks, fl3, aStart, aEnd, b);
      UsedKept(m3, mem[..], blocks, fl3, b);
      KeptTrans(old(mem[..]), m1, m2, used');
      KeptTrans(old(mem[..]), m2, m3, used');
      KeptTrans(old(mem[..]), m3, mem[..], used');
      TagFacts(mem[..], blocks, fl, freeHead, aStart, aEnd, b);
      ok := true;
    }

    method AbsorbIntoPrev(x: nat) returns (p: nat)
      requires Limbo(x, 0) && x in blocks && IsPrev(mem[x].hi) && mem[x].hi <= 3
      requires Next(blocks, x) < aEnd ==> IsAlloc(mem[Next(blocks, x)].hi)
      modifies mem, this`freeHead, this`fl, this`blocks
      ensures Limbo(p, 0) && p in blocks && 0 < p < mem.Length && mem[p].hi == 0
      ensures Next(blocks, p) < aEnd ==> IsAlloc(mem[Next(blocks, p)].hi)
      ensures Used(blocks, fl, p) == old(Used(blocks, fl, x))
      ensures Kept(old(mem[..]), mem[..], old(Used(blocks, fl, x)))
      ensures x !in blocks && p + 3 <= x && x + 3 <= Next(blocks, p) && x < mem.Length && mem[x].hi == old(mem[x].hi)
      ensures p in old(fl) && p in old(blocks) && Next(old(blocks), p) == x
      ensures blocks == Join(old(blocks), p, x) && fl == Sans(old(fl), p)
    {
      hide Links, Tiles, BlocksOk, SameOutside, Used, Kept, PayloadsKept;
      ghost var m0, fl0, head0 := mem[..], fl, freeHead;
      LimboFacts(m0, blocks, fl, freeHead, aStart, aEnd, x, 0);
      ghost var q := LeftFacts(m0, blocks, fl, freeHead, aStart, aEnd, x);
      var psz := mem[x - 1].lo;
      p := x - psz / 16;
      ghost var i := FindIndex(fl, p);
      mem[p] := mem[p].(lo := mem[p].lo + mem[x].lo);
      ghost var m1 := mem[..];
      assert m1 == m0[p := m0[p].(lo := 16 * (blocks[p] + blocks[x]))];
      HeaderLinks(m0, blocks, fl, head0, aStart, aEnd, p, m1[p]);
      FlUnlink(p + 1, i);
      HeaderKept(m0, m1, mem[..], blocks, fl0, head0, aStart, aEnd, x, p);
      AbsorbLeft(m0, mem[..], blocks, fl0, head0, freeHead, aStart, aEnd, x, p, i);
      blocks := Merged(blocks, p);
    }

    // ---------------------------------------------------------------------------
    // Arena growth

    method ArenaInit(k: Kernel) returns (ok: bool)
      requires Valid()
      modifies this`aStart, this`aEnd
      ensures Valid() && (ok ==> Limbo(0, 0))
      ensures ok <==> old(aStart) != NULL || k.queryOk
      ensures !ok ==> aStart == NULL
      ensures old(aStart) == NULL && ok ==> aStart == aEnd == brk
      ensures old(aStart) != NULL ==> aStart == old(aStart) && aEnd == old(aEnd)
    {
      if aStart == NULL {
        if !k.queryOk {
          return false;
        }
        aStart, aEnd := brk, brk;
      }
      return true;
    }

    /** The free block that ends at the arena end, or NULL. */
    method TopFreeBlock() returns (t: nat)
      requires Limbo(0, 0)
      ensures t == NULL ==> forall b :: b in blocks && b in fl ==> Next(blocks, b) != aEnd
      ensures t != NULL ==> t in blocks && t in fl && Next(blocks, t) == aEnd
    {
      hide Links, Tiles, BlocksOk;
      var n := freeHead;
      ghost var i := 0;
      HeadFacts(mem[..], freeHead, fl);
      while n != NULL
        invariant i <= |fl| && n == if i < |fl| then fl[i] + 1 else NULL
        invariant forall j :: 0 <= j < i ==> fl[j] in blocks && Next(blocks, fl[j]) != aEnd
        decreases |fl| - i
      {
        NodeFacts(mem[..], blocks, fl, freeHead, aStart, aEnd, i);
        var blk := n - 1;
        if blk + mem[blk].lo / 16 == aEnd {
          return blk;
        }
        n := mem[n].hi;
        i := i + 1;
      }
      return NULL;
    }

    /** Moves the break up by whole pages and makes the new cells free space. */
    method ArenaGrow(need: nat, k: Kernel) returns (ok: bool)
      requires Limbo(0, 0) && aStart != NULL && MIN_BLOCK <= need <= SIZE_MAX
      modifies this, mem
      ensures Limbo(0, 0) && aStart == old(aStart)
      ensures ok <==> old(CanGrow(k, need))
      ensures ok ==> (HasFit(need) <==> old(HasFit(need)) || old(GrowsInto(need)))
      ensures ok ==> aEnd == old(aEnd) + ChunkFor(need) / 16 && GrownAt(old(blocks), blocks, old(fl), fl, old(aEnd))
      ensures ok ==> Lay() == Grown(old(Lay()), old(aEnd), ChunkFor(need) / 16)
      ensures !ok ==> unchanged(this) && unchanged(mem)
      ensures Used(blocks, fl, 0) == old(Used(blocks, fl, 0))
      ensures Kept(old(mem[..]), mem[..], old(Used(blocks, fl, 0)))
    {
      hide Core, Used, Kept, ChunkFor, Fits, TopFits;
      var chunk := ChunkFor(need);
      if !k.growOk || aEnd + chunk / 16 > mem.Length {
        KeptRefl(mem[..], Used(blocks, fl, 0));
        return false;
      }
      var tb := TopFreeBlock();
      if tb != NULL {
        OnlyLeft(mem[..], blocks, fl, freeHead, aStart, aEnd, aEnd, tb);
        ExtendedFit(mem[..], blocks, fl, freeHead, aStart, aEnd, tb, need, chunk);
        ExtendTop(tb, chunk);
        assert GrownAt(old(blocks), blocks, old(fl), fl, old(aEnd)) by {
          ListedIn(old(mem[..]), old(blocks), old(fl), old(freeHead), aStart, old(aEnd));
          assert OnlyTop(old(blocks), blocks, old(fl), fl, tb);
          assert TopBlock(old(blocks), old(fl), old(aEnd), tb);
        }
      } else {
        EndFree(mem[..], blocks, fl, freeHead, aStart, aEnd);
        FreshFit(blocks, fl, aEnd, need, chunk);
        FreshTop(chunk);
        assert GrownAt(old(blocks), blocks, old(fl), fl, old(aEnd)) by {
          ListedIn(old(mem[..]), old(blocks), old(fl), old(freeHead), aStart, old(aEnd));
          assert OnlyTop(old(blocks), blocks, old(fl), fl, old(aEnd));
          assert TopBlock(old(blocks), old(fl), old(aEnd), old(aEnd));
        }
      }
      return true;
    }

    method ExtendTop(tb: nat, chunk: nat)
      requires Limbo(0, 0) && tb in blocks && tb in fl && Next(blocks, tb) == aEnd
      requires chunk % 16 == 0 && aEnd + chunk / 16 <= mem.Length
      modifies mem, this`aEnd, this`blocks
      ensures Limbo(0, 0) && blocks == old(blocks)[tb := old(blocks)[tb] + chunk / 16] && aEnd == old(aEnd) + chunk / 16
      ensures Used(blocks, fl, 0) == old(Used(blocks, fl, 0))
      ensures Kept(old(mem[..]), mem[..], old(Used(blocks, fl, 0)))
    {
      hide Links, Tiles, BlocksOk, Used, Kept, PayloadsKept;
      ghost var m0, bs0, cells := mem[..], blocks, chunk / 16;
      ghost var i := FindIndex(fl, tb);
      NodeFacts(m0, blocks, fl, freeHead, aStart, aEnd, i);
      mem[tb] := mem[tb].(lo := mem[tb].lo + chunk);
      mem[tb + mem[tb].lo / 16 - 1] := mem[tb];
      GrownTopCore(m0, mem[..], blocks, fl, freeHead, aStart, aEnd, tb, cells);
      UsedKept(m0, mem[..], blocks, fl, 0);
      aEnd := aEnd + chunk / 16;
      blocks := blocks[tb := blocks[tb] + cells];
      UsedGrown(bs0, fl, tb, blocks[tb]);
    }

    method FreshTop(chunk: nat)
      requires Limbo(0, 0) && forall b :: b in blocks && b in fl ==> Next(blocks, b) != aEnd
      requires MIN_BLOCK <= chunk && chunk % 16 == 0 && aEnd + chunk / 16 <= mem.Length
      modifies mem, this`aEnd, this`blocks, this`freeHead, this`fl
      ensures Limbo(0, 0) && fl == [old(aEnd)] + old(fl) && blocks == old(blocks)[old(aEnd) := chunk / 16] && aEnd == old(aEnd) + chunk / 16
      ensures Used(blocks, fl, 0) == old(Used(blocks, fl, 0))
      ensures Kept(old(mem[..]), mem[..], old(Used(blocks, fl, 0)))
    {
      hide Links, Tiles, BlocksOk, Used, Kept, PayloadsKept;
      ghost var m0, bs0, fl0, cells := mem[..], blocks, fl, chunk / 16;
      var h := aEnd;
      mem[h] := Cell(chunk, 0);
      aEnd := aEnd + chunk / 16;
      mem[h + mem[h].lo / 16 - 1] := mem[h];
      ghost var m1 := mem[..];
      GrownFreshCore(m0, m1, bs0, fl, freeHead, aStart, h, cells);
      UsedKept(m0, m1, bs0, fl, 0);
      blocks := blocks[h := cells];
      UsedFresh(bs0, fl, aStart, h, cells);
      LinkFree(h, 0);
      UsedLinked(blocks, fl0, aStart, aEnd, h);
      UsedKept(m1, mem[..], blocks, fl0, h);
      KeptTrans(m0, m1, mem[..], old(Used(blocks, fl, 0)));
    }

    // ---------------------------------------------------------------------------
    // The public operations

    /** A small request fails only when the kernel refuses memory. */
    method Malloc(size: nat, k: Kernel) returns (p: nat)
      requires Valid() && size < MMAP_THRESHOLD
      modifies this, mem
      ensures Valid()
      ensures p != NULL <==> old(Granted(k, size))
      ensures p == NULL ==> Contents() == old(Contents())
      ensures p != NULL ==>
                && p - 1 !in old(Contents()) && p - 1 in Contents()
                && Contents() == old(Contents())[p - 1 := Contents()[p - 1]]
                && size <= 16 * |Contents()[p - 1]|
                && 2 <= |Contents()[p - 1]| && Tight(|Contents()[p - 1]|, size)
      ensures Served(k, size, p)
      ensures (Lay(), p) == Taken(old(Now()), k, size)
    {
      p := HeapAlloc(size, k);
    }

    method HeapAlloc(size: nat, k: Kernel) returns (p: nat)
      requires Valid()
      modifies this, mem
      ensures Valid()
      ensures p != NULL <==>
                && SizeToNeed(size) != 0
                && (old(aStart) != NULL || k.queryOk)
                && (old(HasFit(SizeToNeed(size))) || (old(CanGrow(k, SizeToNeed(size))) && old(GrowsInto(SizeToNeed(size)))))
      ensures p == NULL ==> Contents() == old(Contents())
      ensures p != NULL ==>
                && aStart != NULL
                && p - 1 !in old(Contents()) && p - 1 in Contents()
                && Contents() == old(Contents())[p - 1 := Contents()[p - 1]]
                && Tight(|Contents()[p - 1]|, size)
                && p - 1 in blocks && |Contents()[p - 1]| == blocks[p - 1] - 1
      ensures Served(k, size, p)
      ensures (Lay(), p) == Taken(old(Now()), k, size)
    {
      hide Links, Tiles, BlocksOk, Used, Kept, Payloads, ServedAt, ChunkFor, Fits, Space, Found, Fitted;
      var need := SizeToNeed(size);
      if need == 0 {
        return NULL;
      }
      var ok := ArenaInit(k);
      if !ok {
        return NULL;
      }
      ghost var m0, used0 := mem[..], Used(blocks, fl, 0);
      p := FitOrGrow(need, k);
      if p != NULL {
        TagFacts(mem[..], blocks, fl, freeHead, aStart, aEnd, p - 1);
        AllocPayloads(m0, mem[..], used0, p - 1, blocks[p - 1]);
      } else {
        KeptPayloads(m0, mem[..], used0);
      }
    }

    /** First fit, then once more after growing the arena. */
    method FitOrGrow(need: nat, k: Kernel) returns (p: nat)
      requires Limbo(0, 0) && aStart != NULL && MIN_BLOCK <= need <= SIZE_MAX && need % 16 == 0
      modifies this, mem
      ensures Limbo(0, 0) && aStart == old(aStart)
      ensures p != NULL <==> old(HasFit(need)) || (old(CanGrow(k, need)) && old(GrowsInto(need)))
      ensures p == NULL ==> Used(blocks, fl, 0) == old(Used(blocks, fl, 0))
      ensures aEnd == old(aEnd) + if !old(HasFit(need)) && old(CanGrow(k, need)) then ChunkFor(need) / 16 else 0
      ensures p != NULL ==> ServedAt(old(blocks), old(fl), old(aEnd), need, p - 1)
      ensures var l := Space(old(Lay()), old(aEnd), need, old(CanGrow(k, need)), ChunkFor(need) / 16);
              p == Found(l, need) && Lay() == Fitted(l, need)
      ensures p != NULL ==>
                && p - 1 in blocks && need <= 16 * blocks[p - 1] < need + MIN_BLOCK
                && p - 1 !in old(Used(blocks, fl, 0))
                && Used(blocks, fl, 0) == old(Used(blocks, fl, 0))[p - 1 := blocks[p - 1]]
      ensures Kept(old(mem[..]), mem[..], old(Used(blocks, fl, 0)))
    {
      hide Links, Tiles, BlocksOk, Used, Kept, CanGrow, GrowsInto, Fits, GrownAt, TopBlock, ChunkFor, Space, Found, Fitted, Grown;
      ghost var i;
      SpaceIs(Lay(), aEnd, need, CanGrow(k, need), ChunkFor(need) / 16);
      p, i := CutFirstFit(need);
      if p == NULL {
        var grown := ArenaGrow(need, k);
        if grown {
          ghost var m1, bs1, fl1 := mem[..], blocks, fl;
          p, i := CutFirstFit(need);
          KeptTrans(old(mem[..]), m1, mem[..], old(Used(blocks, fl, 0)));
          if p != NULL {
            ServedTop(old(blocks), bs1, old(fl), fl1, old(aEnd), need, i);
          }
        }
      } else {
        FitIsFirst(old(blocks), old(fl), need, i);
      }
    }

    /** Releasing a live buffer removes it and nothing else; `ok` is false for a block that
        is already free, which the source reports as a double free. */
    method Free(p: nat) returns (ok: bool)
      requires Valid() && (p == NULL || p - 1 in blocks)
      modifies this, mem
      ensures Valid() && aStart == old(aStart) && aEnd == old(aEnd)
      ensures ok <==> p == NULL || p - 1 in old(Contents())
      ensures ok && p != NULL ==> (Reports(p) <==> !old(LeftFree(blocks, fl, p - 1)))
      ensures Lay() == if ok && p != NULL then Freed(old(Lay()), p - 1) else old(Lay())
      ensures Contents() == if p == NULL then old(Contents()) else old(Contents()) - {p - 1}
    {
      hide Links, Tiles, BlocksOk, Used, Kept, Freed;
      if p == NULL {
        return true;
      }
      ghost var m0, used0 := mem[..], Used(blocks, fl, 0);
      ok := HeapFree(p);
      FreePayloads(m0, mem[..], used0, p - 1);
    }

    /** A client writing one cell of a buffer it holds. */
    method Store(p: nat, k: nat, c: Cell)
      requires Valid() && 0 < p && p - 1 in Contents() && k < |Contents()[p - 1]|
      modifies mem
      ensures Valid()
      ensures p - 1 in old(Contents()) && k < |old(Contents())[p - 1]|
      ensures Contents() == old(Contents())[p - 1 := old(Contents())[p - 1][k := c]]
    {
      hide Core, Used, Payloads;
      ghost var m0, b := mem[..], p - 1;
      Initialised(b);
      BufferFacts(m0, blocks, fl, freeHead, aStart, aEnd, b);
      mem[p + k] := c;
      BufferWrite(m0, mem[..], blocks, fl, freeHead, aStart, aEnd, b);
      assert mem[..][p..b + blocks[b]] == m0[p..b + blocks[b]][k := c];
    }

    /** How many cells the buffer at `p` holds, from its size field. */
    method BufferCells(p: nat) returns (n: nat)
      requires Valid() && 0 < p && p - 1 in Contents()
      ensures n == |Contents()[p - 1]|
    {
      hide Core, Used, Payloads;
      Initialised(p - 1);
      BufferFacts(mem[..], blocks, fl, freeHead, aStart, aEnd, p - 1);
      n := (mem[p - 1].lo - HEADER_SZ) / 16;
    }

    lemma InBounds(b: nat)
      requires Valid() && b in Contents()
      ensures b < mem.Length
    {
      hide Core, Used, Payloads;
      Initialised(b);
      BufferFacts(mem[..], blocks, fl, freeHead, aStart, aEnd, b);
    }

    lemma Initialised(b: nat)
      requires Valid() && b in Contents()
      ensures aStart != NULL && Limbo(0, 0)
    {
    }

    // ---------------------------------------------------------------------------
    // Resizing

    method Realloc(ptr: nat, size: nat, k: Kernel) returns (p: nat)
      requires Valid() && size < MMAP_THRESHOLD
      requires ptr == NULL || ptr - 1 in Contents()
      modifies this, mem
      ensures Valid()
      ensures ptr == NULL ==> (p != NULL <==> old(Granted(k, size)))
      ensures ptr == NULL && p != NULL ==>
                && p - 1 !in old(Contents()) && p - 1 in Contents()
                && Contents() == old(Contents())[p - 1 := Contents()[p - 1]]
                && size <= 16 * |Contents()[p - 1]| && Tight(|Contents()[p - 1]|, size)
      ensures ptr != NULL && size == 0 ==> p == NULL && Contents() == old(Contents()) - {ptr - 1}
      ensures ptr != NULL && size != 0 && SizeToNeed(size) <= 16 * (|old(Contents())[ptr - 1]| + 1) ==>
                && p == ptr
                && Contents() == old(Contents())[ptr - 1 := Shrunk(old(Contents())[ptr - 1], SizeToNeed(size), mem[ptr - 1].hi)]
      ensures ptr != NULL && size != 0 && SizeToNeed(size) > 16 * (|old(Contents())[ptr - 1]| + 1) ==>
                (p != NULL <==> old(Granted(k, size)))
      ensures ptr != NULL && size != 0 && SizeToNeed(size) > 16 * (|old(Contents())[ptr - 1]| + 1) && p != NULL ==>
                && p - 1 !in old(Contents()) && p - 1 in Contents()
                && Contents() == (old(Contents()) - {ptr - 1})[p - 1 := Contents()[p - 1]]
                && old(Contents())[ptr - 1] <= Contents()[p - 1]
                && size <= 16 * |Contents()[p - 1]| && Tight(|Contents()[p - 1]|, size)
      ensures p == NULL && (ptr == NULL || size != 0) ==> Contents() == old(Contents())
      ensures if ptr == NULL || (size != 0 && SizeToNeed(size) > 16 * (|old(Contents())[ptr - 1]| + 1)) then Served(k, size, p) else Top() == old(Top()) && aStart == old(aStart)
      ensures ptr == NULL ==> (Lay(), p) == Taken(old(Now()), k, size)
      ensures ptr != NULL && size == 0 ==> Lay() == Freed(old(Lay()), ptr - 1)
      ensures ptr != NULL && size != 0 ==>
                if SizeToNeed(size) > 16 * (|old(Contents())[ptr - 1]| + 1)
                then var (l, q) := Taken(old(Now()), k, size); p == q && Lay() == if q == NULL then l else Freed(l, ptr - 1)
                else Lay() == Shortened(old(Lay()), ptr - 1, SizeToNeed(size))
    {
      hide *;
      if ptr == NULL {
        p := Malloc(size, k);
      } else if size == 0 {
        var _ := FreeLive(ptr);
        p := NULL;
      } else {
        p := Resize(ptr, size, k);
      }
    }

    method FreeLive(p: nat) returns (ok: bool)
      requires Valid() && 0 < p && p - 1 in Contents()
      modifies this, mem
      ensures Valid() && Contents() == old(Contents()) - {p - 1} && Top() == old(Top())
      ensures Lay() == Freed(old(Lay()), p - 1) && aStart == old(aStart)
    {
      hide Links, Tiles, BlocksOk, Used, Freed;
      Initialised(p - 1);
      BufferFacts(mem[..], blocks, fl, freeHead, aStart, aEnd, p - 1);
      ok := Free(p);
    }

    method Resize(ptr: nat, size: nat, k: Kernel) returns (p: nat)
      requires Valid() && 0 < size < MMAP_THRESHOLD
      requires 0 < ptr && ptr - 1 in Contents()
      modifies this, mem
      ensures Valid()
      ensures SizeToNeed(size) <= 16 * (|old(Contents())[ptr - 1]| + 1) ==>
                && p == ptr
                && Contents() == old(Contents())[ptr - 1 := Shrunk(old(Contents())[ptr - 1], SizeToNeed(size), mem[ptr - 1].hi)]
      ensures SizeToNeed(size) > 16 * (|old(Contents())[ptr - 1]| + 1) ==> (p != NULL <==> old(Granted(k, size)))
      ensures SizeToNeed(size) > 16 * (|old(Contents())[ptr - 1]| + 1) && p != NULL ==>
                && p - 1 !in old(Contents()) && p - 1 in Contents()
                && Contents() == (old(Contents()) - {ptr - 1})[p - 1 := Contents()[p - 1]]
                && old(Contents())[ptr - 1] <= Contents()[p - 1]
                && size <= 16 * |Contents()[p - 1]| && Tight(|Contents()[p - 1]|, size)
      ensures if SizeToNeed(size) > 16 * (|old(Contents())[ptr - 1]| + 1) then Served(k, size, p) else Top() == old(Top()) && aStart == old(aStart)
      ensures p == NULL ==> Contents() == old(Contents())
      ensures if SizeToNeed(size) > 16 * (|old(Contents())[ptr - 1]| + 1)
              then var (l, q) := Taken(old(Now()), k, size); p == q && Lay() == if q == NULL then l else Freed(l, ptr - 1)
              else Lay() == Shortened(old(Lay()), ptr - 1, SizeToNeed(size))
    {
      hide Core, Used, Payloads, Freed, Taken, Inserted;
      ghost var b := ptr - 1;
      Initialised(b);
      BufferFacts(mem[..], blocks, fl, freeHead, aStart, aEnd, b);
      var oldSize := mem[ptr - 1].lo - HEADER_SZ;
      var need := SizeToNeed(size);
      if need <= mem[ptr - 1].lo {
        var tail := mem[ptr - 1].lo - need;
        if tail >= MIN_BLOCK {
          SplitTail(ptr - 1, need);
        }
        return ptr;
      }
      p := GrowByCopy(ptr, size, oldSize / 16, k);
    }

    method GrowByCopy(ptr: nat, size: nat, cells: nat, k: Kernel) returns (p: nat)
      requires Valid() && 0 < size < MMAP_THRESHOLD
      requires 0 < ptr && ptr - 1 in Contents() && cells == |Contents()[ptr - 1]|
      requires 16 * (cells + 1) < SizeToNeed(size)
      modifies this, mem
      ensures Valid()
      ensures p != NULL <==> old(Granted(k, size))
      ensures p != NULL ==>
                && p - 1 !in old(Contents()) && p - 1 in Contents()
                && Contents() == (old(Contents()) - {ptr - 1})[p - 1 := Contents()[p - 1]]
                && old(Contents())[ptr - 1] <= Contents()[p - 1]
                && size <= 16 * |Contents()[p - 1]| && Tight(|Contents()[p - 1]|, size)
      ensures Served(k, size, p)
      ensures var (l, q) := Taken(old(Now()), k, size); p == q && Lay() == if q == NULL then l else Freed(l, ptr - 1)
      ensures p == NULL ==> Contents() == old(Contents())
    {
      hide Links, Tiles, BlocksOk, Used, Payloads, Freed, Taken;
      ghost var b := ptr - 1;
      p := HeapAlloc(size, k);
      if p == NULL {
        return;
      }
      assert Contents()[b] == old(Contents()[b]);
      CopyCells(p, ptr, cells);
      ghost var c1 := Contents();
      var _ := FreeLive(ptr);
      assert Contents()[p - 1] == c1[p - 1];
    }

    /** `memcpy` from one buffer to another. */
    method CopyCells(dst: nat, src: nat, n: nat)
      requires Valid() && 0 < dst && 0 < src && dst != src && dst - 1 in Contents() && src - 1 in Contents()
      requires n == |Contents()[src - 1]| && n <= |Contents()[dst - 1]|
      modifies mem
      ensures Valid()
      ensures dst - 1 in Contents() && src - 1 in old(Contents())
      ensures Contents() == old(Contents())[dst - 1 := Contents()[dst - 1]]
      ensures |Contents()[dst - 1]| == |old(Contents())[dst - 1]|
      ensures old(Contents())[src - 1] <= Contents()[dst - 1]
    {
      hide Core, Used, Payloads;
      ghost var m0, b, c := mem[..], src - 1, dst - 1;
      ghost var len := |Contents()[c]|;
      Initialised(b);
      BufferFacts(m0, blocks, fl, freeHead, aStart, aEnd, b);
      BufferFacts(m0, blocks, fl, freeHead, aStart, aEnd, c);
      BuffersDisjoint(m0, blocks, fl, freeHead, aStart, aEnd, b, c);
      MemCopy(dst, src, n);
      BufferWrite(m0, mem[..], blocks, fl, freeHead, aStart, aEnd, c);
      assert mem[..][dst..dst + len][..n] == mem[dst..dst + n];
    }

    method MemCopy(dst: nat, src: nat, n: nat)
      requires dst + n <= mem.Length && src + n <= mem.Length && (dst + n <= src || src + n <= dst)
      modifies mem
      ensures mem[dst..dst + n] == old(mem[src..src + n])
      ensures forall a :: 0 <= a < mem.Length && !(dst <= a < dst + n) ==> mem[a] == old(mem[a])
    {
      for i := 0 to n
        invariant mem[dst..dst + i] == old(mem[src..src + i])
        invariant forall a :: 0 <= a < mem.Length && !(dst <= a < dst + i) ==> mem[a] == old(mem[a])
      {
        mem[dst + i] := mem[src + i];
      }
    }

    /** The split branch of an in-place shrink. */
    method SplitTail(b: nat, need: nat)
      requires Limbo(0, 0) && b in Contents()
      requires MIN_BLOCK <= need && need % 16 == 0 && need + MIN_BLOCK <= 16 * (|Contents()[b]| + 1)
      modifies mem, this`freeHead, this`fl, this`blocks
      ensures Limbo(0, 0) && b < mem.Length
      ensures Contents() == old(Contents())[b := old(Contents())[b][..need / 16 - 2] + [Cell(need, mem[b].hi)]]
      ensures Lay() == Shortened(old(Lay()), b, need)
    {
      hide Core, Used, Kept, Payloads, Shortened;
      BufferFacts(mem[..], blocks, fl, freeHead, aStart, aEnd, b);
      assert b in Used(blocks, fl, 0) by { UsedFacts(blocks, fl, b); }
      assert Used(blocks, fl, 0)[b] == blocks[b] by { UsedAt(blocks, fl, 0, b); }
      FreeTail(b, need);
      ghost var u: Blocks := old(Used(blocks, fl, 0)) - {b};
      FinishShrink(b, need, old(mem[..]), u);
      ShrunkPayloads(old(mem[..]), mem[..], old(Used(blocks, fl, 0)), b, need / 16);
    }

    method FreeTail(b: nat, need: nat)
      requires Limbo(0, 0) && b in blocks && b !in fl
      requires MIN_BLOCK <= need && need % 16 == 0 && need + MIN_BLOCK <= 16 * blocks[b]
      modifies mem, this`freeHead, this`fl, this`blocks
      ensures Limbo(0, b)
      ensures Used(blocks, fl, 0) == (old(Used(blocks, fl, 0)) - {b})[b := need / 16]
      ensures Kept(old(mem[..]), mem[..], (old(Used(blocks, fl, 0)) - {b})[b := need / 16])
      ensures Lay() == Shortened(old(Lay()), b, need)
    {
      hide Links, Tiles, BlocksOk, SameOutside, Used, Kept, PayloadsKept, Inserted;
      ghost var m0, k := mem[..], need / 16;
      LimboOf(b);
      var r := b + need / 16;
      mem[r] := Cell(mem[b].lo - need, 0);
      ghost var m1 := mem[..];
      CutCore(m0, m1, blocks, fl, freeHead, aStart, aEnd, b, k, b);
      UsedKept(m0, m1, blocks, fl, b);
      CutUsed(blocks, fl, aStart, aEnd, b, k);
      ghost var u := Used(blocks, fl, b);
      KeptFront(m0, m1, u, b, k);
      blocks := Split(blocks, b, k);
      InsertFree(r, b);
      KeptTrans(m0, m1, mem[..], u[b := k]);
    }

    lemma LimboOf(b: nat)
      requires Limbo(0, 0) && b in blocks && b !in fl
      ensures Limbo(b, 0) && 0 < b && b + 3 <= Next(blocks, b) <= aEnd <= mem.Length
      ensures mem[b].lo == 16 * blocks[b] && mem[b].hi <= 3 && IsAlloc(mem[b].hi)
    {
      hide Links, Tiles, BlocksOk;
      TagFacts(mem[..], blocks, fl, freeHead, aStart, aEnd, b);
      AllocToLimbo(mem[..], blocks, fl, freeHead, aStart, aEnd, b);
    }

    method FinishShrink(b: nat, need: nat, ghost m0: seq<Cell>, ghost u: Blocks)
      requires Limbo(0, b) && MIN_BLOCK <= need && need % 16 == 0 && b !in u
      requires Used(blocks, fl, 0) == u[b := need / 16] && Kept(m0, mem[..], u[b := need / 16])
      modifies mem
      ensures Limbo(0, 0)
      ensures Kept(m0, mem[..], u)
      ensures b + need / 16 <= mem.Length && mem[b + need / 16 - 1] == Cell(need, mem[b].hi)
      ensures forall a :: b < a < b + need / 16 - 1 ==> mem[a] == m0[a]
    {
      hide Links, Tiles, BlocksOk, Used, Kept, PayloadsKept;
      ghost var m2, k := mem[..], need / 16;
      UsedAt(blocks, fl, 0, b);
      StaleFacts(m2, blocks, fl, freeHead, aStart, aEnd, b);
      SizeWrite(m2, blocks, fl, freeHead, aStart, aEnd, b);
      mem[b] := mem[b].(lo := need);
      ghost var m3 := mem[..];
      assert m3 == m2[b := m2[b].(lo := 16 * blocks[b])];
      mem[b + mem[b].lo / 16 - 1] := mem[b];
      PayloadWrite(m3, mem[..], blocks, fl, freeHead, aStart, aEnd, 0, b);
      SplitTailKept(m0, m2, m3, mem[..], blocks, fl, aStart, aEnd, u, b, k);
    }

    method Calloc(nmemb: nat, size: nat, k: Kernel) returns (p: nat)
      requires Valid() && (Total(nmemb, size) < MMAP_THRESHOLD || SIZE_MAX < Total(nmemb, size))
      modifies this, mem
      ensures Valid()
      ensures p != NULL <==> Total(nmemb, size) <= SIZE_MAX && old(Granted(k, Total(nmemb, size)))
      ensures p == NULL ==> Contents() == old(Contents())
      ensures p != NULL ==>
                && p - 1 !in old(Contents()) && p - 1 in Contents()
                && Contents() == old(Contents())[p - 1 := Contents()[p - 1]]
                && Total(nmemb, size) <= 16 * |Contents()[p - 1]|
                && ZeroBelow(Contents()[p - 1], Total(nmemb, size)) && Tight(|Contents()[p - 1]|, Total(nmemb, size))
      ensures if Total(nmemb, size) <= SIZE_MAX then Served(k, Total(nmemb, size), p) else Top() == old(Top()) && aStart == old(aStart)
      ensures if Total(nmemb, size) <= SIZE_MAX then (Lay(), p) == Taken(old(Now()), k, Total(nmemb, size)) else Lay() == old(Lay())
    {
      hide *;
      var total := Total(nmemb, size);
      if total > SIZE_MAX {
        return NULL;
      }
      p := ZeroedAlloc(total, k);
    }

    method ZeroedAlloc(total: nat, k: Kernel) returns (p: nat)
      requires Valid() && total < MMAP_THRESHOLD
      modifies this, mem
      ensures Valid()
      ensures p != NULL <==> old(Granted(k, total))
      ensures p == NULL ==> Contents() == old(Contents())
      ensures p != NULL ==>
                && p - 1 !in old(Contents()) && p - 1 in Contents()
                && Contents() == old(Contents())[p - 1 := Contents()[p - 1]]
                && total <= 16 * |Contents()[p - 1]|
                && ZeroBelow(Contents()[p - 1], total) && Tight(|Contents()[p - 1]|, total)
      ensures Served(k, total, p)
      ensures (Lay(), p) == Taken(old(Now()), k, total)
    {
      hide *;
      p := Malloc(total, k);
      if p != NULL {
        ZeroBytes(p, total);
        assert Contents() == old(Contents())[p - 1 := Contents()[p - 1]];
      }
    }

    /** `memset(p, 0, n)` on a buffer of at least `n` bytes. */
    method ZeroBytes(p: nat, n: nat)
      requires Valid() && 0 < p && p - 1 in Contents() && n <= 16 * |Contents()[p - 1]|
      modifies mem
      ensures Valid() && p - 1 in Contents()
      ensures Contents() == old(Contents())[p - 1 := Contents()[p - 1]]
      ensures |Contents()[p - 1]| == |old(Contents())[p - 1]|
      ensures ZeroBelow(Contents()[p - 1], n) && SameFrom(old(Contents())[p - 1], Contents()[p - 1], n)
    {
      hide Core, Used, Payloads;
      ghost var c0 := Contents();
      ghost var xs := c0[p - 1];
      for i := 0 to n / 16
        invariant Valid() && p - 1 in Contents()
        invariant Contents() == c0[p - 1 := Contents()[p - 1]]
        invariant |Contents()[p - 1]| == |xs|
        invariant forall j :: 0 <= j < |xs| ==> Contents()[p - 1][j] == if j < i then Cell(0, 0) else xs[j]
      {
        Store(p, i, Cell(0, 0));
      }
      if n % 16 != 0 {
        Initialised(p - 1);
        BufferFacts(mem[..], blocks, fl, freeHead, aStart, aEnd, p - 1);
        var last := mem[p + n / 16];
        assert last == Contents()[p - 1][n / 16];
        Store(p, n / 16, ClearLow(last, n % 16));
      }
      ZeroedBytes(xs, Contents()[p - 1], n);
    }

    // ---------------------------------------------------------------------------
    // Self-check

    /** The verdict of `malloc_selfcheck` on one listed block. */
    function CheckBlock(blk: nat): (code: int)
      requires 0 < aStart && aEnd <= mem.Length && blk < mem.Length
      reads this, mem
    {
      var h := mem[blk];
      if IsAlloc(h.hi) then -2
      else if h.lo < MIN_BLOCK then -3
      else if h.lo % 16 != 0 then -4
      else if blk < aStart || blk + h.lo / 16 > aEnd then -5
      else if mem[blk + h.lo / 16 - 1] != h then -6
      else if IsPrev(h.hi) && PrevIsFree(blk) then -7
      else if blk + h.lo / 16 < aEnd && !IsAlloc(mem[blk + h.lo / 16].hi) then -8
      else 0
    }

    predicate PrevIsFree(blk: nat)
      requires 0 < blk < mem.Length
      reads this, mem
    {
      var pb := blk - mem[blk - 1].lo / 16;
      0 < aStart <= pb && !IsAlloc(mem[pb].hi)
    }

    /** In every valid state the walk finds nothing wrong; only its cycle guard can trip. */
    method SelfCheck() returns (code: int)
      requires Valid()
      ensures code == if |fl| > 1000000 then -1 else 0
    {
      hide Core;
      if aStart == NULL {
        return 0;
      }
      code := 0;
      var n, f := 0, freeHead;
      assert freeHead == if 0 < |fl| then fl[0] + 1 else NULL by { HeadFacts'(); }
      while f != NULL && code == 0
        invariant n <= |fl| && n <= 1000001 && (code == 0 ==> n <= 1000000)
        invariant code == 0 || (code == -1 && n == 1000001)
        invariant code == 0 ==> f == if n < |fl| then fl[n] + 1 else NULL
        decreases if code == 0 then |fl| - n + 1 else 0
      {
        NodeFacts(mem[..], blocks, fl, freeHead, aStart, aEnd, n);
        StartFacts(mem[..], blocks, fl, freeHead, aStart, aEnd, fl[n]);
        n := n + 1;
        if n > 1000000 {
          code := -1;
        } else {
          code := CheckBlock(f - 1);
          f := mem[f].hi;
        }
      }
    }

    lemma HeadFacts'()
      requires Limbo(0, 0)
      ensures freeHead == if 0 < |fl| then fl[0] + 1 else NULL
    {
      HeadFacts(mem[..], freeHead, fl);
    }
  }

  /** The buffer after an in-place shrink to a block of `need` bytes: when the tail is split
      off, a footer lands on the last cell that remains. */
  ghost function Shrunk(xs: seq<Cell>, need: nat, flags: nat): seq<Cell>
    requires MIN_BLOCK <= need <= 16 * (|xs| + 1)
  {
    if 16 * (|xs| + 1) - need < MIN_BLOCK then xs else xs[..need / 16 - 2] + [Cell(need, flags)]
  }
}
