/** The allocator on values: the blocks and the order of the free list, without tags, links or
    footers.  The heap in memory does exactly this. */
module FreeList {
  import opened HeapLayout
  import opened HeapSteps

  datatype Layout = Layout(blocks: Blocks, fl: seq<nat>)

  function Size(bs: Blocks, b: nat): nat { if b in bs then bs[b] else 0 }

  /** Block `c` becomes part of block `b`. */
  function Join(bs: Blocks, b: nat, c: nat): Blocks { (bs - {c})[b := Size(bs, b) + Size(bs, c)] }

  /** Block `b` keeps its first `k` cells. */
  function Parted(bs: Blocks, b: nat, k: nat): Blocks
    requires k <= Size(bs, b)
  {
    bs[b := k][b + k := Size(bs, b) - k]
  }

  ghost function Sans(fl: seq<nat>, b: nat): seq<nat> { if b in fl then RemoveAt(fl, FindIndex(fl, b)) else fl }

  ghost function LeftBlock(bs: Blocks, fl: seq<nat>, b: nat): (p: nat)
    requires LeftFree(bs, fl, b)
    ensures p in fl && p in bs && Next(bs, p) == b
  {
    var p :| p in fl && p in bs && Next(bs, p) == b;
    p
  }

  /** Block `b` takes in the free block behind it. */
  ghost function JoinedRight(l: Layout, b: nat): Layout {
    var n := b + Size(l.blocks, b);
    if n in l.fl then Layout(Join(l.blocks, b, n), Sans(l.fl, n)) else l
  }

  /** Block `b` with the free block behind it, at the head of the list. */
  ghost function Inserted(l: Layout, b: nat): Layout {
    var r := JoinedRight(l, b);
    Layout(r.blocks, [b] + r.fl)
  }

  /** Block `b` goes to the head of the list, joined with its free neighbours. */
  ghost function Freed(l: Layout, b: nat): Layout {
    var r := JoinedRight(l, b);
    if LeftFree(l.blocks, l.fl, b) then
      var p := LeftBlock(l.blocks, l.fl, b);
      Layout(Join(r.blocks, p, b), [p] + Sans(r.fl, p))
    else Layout(r.blocks, [b] + r.fl)
  }

  /** The number of the first block with `need` bytes, or the length of the list. */
  function First(bs: Blocks, fl: seq<nat>, need: nat): (i: nat)
    ensures i <= |fl|
  {
    if fl == [] || need <= 16 * Size(bs, fl[0]) then 0 else 1 + First(bs, fl[1..], need)
  }

  /** `need` bytes are cut from block `i` of the list; a rest that can be a block goes to the head. */
  ghost function Cut(l: Layout, need: nat, i: nat): Layout
    requires i < |l.fl|
  {
    var b := l.fl[i];
    if need + MIN_BLOCK <= 16 * Size(l.blocks, b)
    then Layout(Parted(l.blocks, b, need / 16), [b + need / 16] + RemoveAt(l.fl, i))
    else Layout(l.blocks, RemoveAt(l.fl, i))
  }

  /** `cells` more at `hi`: part of the free block that ends there, or a block of their own. */
  ghost function Grown(l: Layout, hi: nat, cells: nat): Layout {
    if LeftFree(l.blocks, l.fl, hi) then
      var p := LeftBlock(l.blocks, l.fl, hi);
      Layout(l.blocks[p := l.blocks[p] + cells], l.fl)
    else Layout(l.blocks[hi := cells], [hi] + l.fl)
  }

  /** The first fit is cut, if there is one. */
  ghost function Fitted(l: Layout, need: nat): Layout {
    var i := First(l.blocks, l.fl, need);
    if i < |l.fl| then Cut(l, need, i) else l
  }

  /** The block a search hands out; 0 when none fits. */
  ghost function Found(l: Layout, need: nat): nat {
    var i := First(l.blocks, l.fl, need);
    if i < |l.fl| then l.fl[i] + 1 else NULL
  }

  /** Search, and once more with `cells` more at the top if there may be more. */
  ghost function Space(l: Layout, hi: nat, need: nat, more: bool, cells: nat): Layout {
    if First(l.blocks, l.fl, need) < |l.fl| || !more then l else Grown(l, hi, cells)
  }

  lemma SpaceIs(l: Layout, hi: nat, need: nat, more: bool, cells: nat)
    ensures Space(l, hi, need, more, cells) == if Found(l, need) == NULL && more then Grown(l, hi, cells) else l
    ensures Found(l, need) == NULL ==> Fitted(l, need) == l
  {
    hide Grown, Cut;
  }

  /** Block `b` in use is cut down to `need` bytes if the rest can be a block. */
  ghost function Shortened(l: Layout, b: nat, need: nat): Layout {
    if need + MIN_BLOCK <= 16 * Size(l.blocks, b)
    then Inserted(Layout(Parted(l.blocks, b, need / 16), l.fl), b + need / 16)
    else l
  }

  // -----------------------------------------------------------------------------
  // First fit

  /** Some listed block has `need` bytes. */
  ghost predicate Fits(bs: Blocks, fl: seq<nat>, need: nat) {
    exists b :: b in fl && b in bs && need <= 16 * bs[b]
  }

  /** Block `i` of the list is the first with `need` bytes. */
  ghost predicate FirstFit(bs: Blocks, fl: seq<nat>, need: nat, i: nat) {
    && i < |fl| && fl[i] in bs && need <= 16 * bs[fl[i]]
    && forall j :: 0 <= j < i ==> fl[j] in bs && 16 * bs[fl[j]] < need
  }

  lemma {:induction false} FirstIs(bs: Blocks, fl: seq<nat>, need: nat, i: nat)
    requires i <= |fl| && forall j :: 0 <= j < i ==> 16 * Size(bs, fl[j]) < need
    requires i < |fl| ==> need <= 16 * Size(bs, fl[i])
    ensures First(bs, fl, need) == i
  {
    if 0 < i {
      assert forall j :: 0 <= j < i - 1 ==> fl[1..][j] == fl[j + 1];
      FirstIs(bs, fl[1..], need, i - 1);
    }
  }

  lemma {:induction false} FirstSays(bs: Blocks, fl: seq<nat>, need: nat)
    ensures var i := First(bs, fl, need);
            && (forall j :: 0 <= j < i ==> 16 * Size(bs, fl[j]) < need)
            && (i < |fl| ==> need <= 16 * Size(bs, fl[i]))
  {
    if fl != [] && 16 * Size(bs, fl[0]) < need {
      FirstSays(bs, fl[1..], need);
    }
  }

  // -----------------------------------------------------------------------------
  // Neighbours

  lemma EndUnlisted(bs: Blocks, fl: seq<nat>, lo: nat, hi: nat, x: nat)
    requires Tiles(bs, lo, hi) && x in bs && forall b :: b in fl ==> b in bs
    ensures Next(bs, x) >= hi ==> Next(bs, x) !in fl
  {
    assert forall b :: b in bs ==> b < b + bs[b] <= hi;
  }

  lemma OnlyLeft(m: seq<Cell>, bs: Blocks, fl: seq<nat>, head: nat, lo: nat, hi: nat, b: nat, p: nat)
    requires Core(m, bs, fl, head, lo, hi, 0, 0) && p in fl && p in bs && Next(bs, p) == b
    ensures LeftFree(bs, fl, b) && LeftBlock(bs, fl, b) == p
  {
    hide Links, BlocksOk;
    LeftUnique(bs, lo, hi, p, LeftBlock(bs, fl, b));
  }

  lemma LeftUnique(bs: Blocks, lo: nat, hi: nat, p: nat, q: nat)
    requires Tiles(bs, lo, hi) && p in bs && q in bs && Next(bs, p) == Next(bs, q)
    ensures p == q
  {
    assert bs[p] >= 3 && bs[q] >= 3;
  }

  /** A block that lies before `b` once `b` has taken in what is behind it lay there before. */
  lemma LeftKept(l: Layout, lo: nat, hi: nat, b: nat, p: nat)
    requires Tiles(l.blocks, lo, hi) && b in l.blocks && Distinct(l.fl)
    requires p in JoinedRight(l, b).fl && p in JoinedRight(l, b).blocks && Next(JoinedRight(l, b).blocks, p) == b
    ensures LeftFree(l.blocks, l.fl, b) && LeftBlock(l.blocks, l.fl, b) == p
  {
    var n := Next(l.blocks, b);
    assert l.blocks[b] >= 3;
    if n in l.fl {
      RemoveAtMembers(l.fl, FindIndex(l.fl, n));
    }
    assert p in l.fl && p in l.blocks && Next(l.blocks, p) == b;
    LeftUnique(l.blocks, lo, hi, p, LeftBlock(l.blocks, l.fl, b));
  }

  /** The rest of a free block that is cut has no free block behind it. */
  lemma RestAlone(m: seq<Cell>, bs: Blocks, fl: seq<nat>, head: nat, lo: nat, hi: nat, i: nat)
    requires Core(m, bs, fl, head, lo, hi, 0, 0) && i < |fl| && fl[i] in bs
    ensures Next(bs, fl[i]) !in fl && Next(bs, fl[i]) !in RemoveAt(fl, i)
  {
    hide Links;
    NodeFacts(m, bs, fl, head, lo, hi, i);
    var n := Next(bs, fl[i]);
    EndUnlisted(bs, fl, lo, hi, fl[i]);
    if n < hi {
      assert BlockOk(m, bs, fl, hi, n, 0, 0);
    }
    assert n !in fl;
  }

  /** So when it goes on the list it goes there as it is. */
  lemma RestInserted(bs: Blocks, fl: seq<nat>, need: nat, i: nat)
    requires i < |fl| && fl[i] in bs && MIN_BLOCK <= need && need % 16 == 0 && need + MIN_BLOCK <= 16 * bs[fl[i]] && Next(bs, fl[i]) !in RemoveAt(fl, i)
    ensures Inserted(Layout(Split(bs, fl[i], need / 16), RemoveAt(fl, i)), fl[i] + need / 16) == Cut(Layout(bs, fl), need, i)
  {
    hide RemoveAt;
  }

  lemma LinksDistinct(m: seq<Cell>, head: nat, fl: seq<nat>)
    requires Links(m, head, fl)
    ensures Distinct(fl)
  {
  }

  ghost predicate Distinct(fl: seq<nat>) { forall i, j :: 0 <= i < j < |fl| ==> fl[i] != fl[j] }

  // -----------------------------------------------------------------------------
  // Laws

  /** What every heap between two operations is like: a tiling, no free block next to another, none
      listed twice. */
  ghost predicate Coalesced(l: Layout, lo: nat, hi: nat) {
    && Tiles(l.blocks, lo, hi)
    && Distinct(l.fl)
    && (forall b :: b in l.fl ==> b in l.blocks && Next(l.blocks, b) !in l.fl)
  }

  lemma CoreCoalesced(m: seq<Cell>, bs: Blocks, fl: seq<nat>, head: nat, lo: nat, hi: nat)
    requires Core(m, bs, fl, head, lo, hi, 0, 0)
    ensures Coalesced(Layout(bs, fl), lo, hi)
  {
    hide Links, Tiles, BlocksOk;
    LinksDistinct(m, head, fl);
    forall b | b in fl
      ensures b in bs && Next(bs, b) !in fl
    {
      var i :| 0 <= i < |fl| && fl[i] == b;
      RestAlone(m, bs, fl, head, lo, hi, i);
    }
  }

  /** Taking a block and freeing it at once gives back the same blocks, and the same list but for the
      block, which is now in front. */
  lemma TakenAndFreed(l: Layout, lo: nat, hi: nat, need: nat, i: nat)
    requires Coalesced(l, lo, hi) && i < |l.fl| && MIN_BLOCK <= need && need % 16 == 0 && need <= 16 * Size(l.blocks, l.fl[i])
    ensures Freed(Cut(l, need, i), l.fl[i]) == Layout(l.blocks, [l.fl[i]] + RemoveAt(l.fl, i))
  {
    hide Tiles, Freed, RemoveAt;
    RemoveAtMembers(l.fl, i);
    assert l.fl[i] in l.fl;
    if need + MIN_BLOCK <= 16 * Size(l.blocks, l.fl[i]) {
      PartBack(l, lo, hi, need / 16, i);
    } else {
      WholeBack(l, i);
    }
  }

  lemma WholeBack(l: Layout, i: nat)
    requires i < |l.fl| && l.fl[i] in l.blocks && (forall b :: b in l.fl ==> b in l.blocks && Next(l.blocks, b) !in l.fl)
    requires forall x :: x in RemoveAt(l.fl, i) <==> x in l.fl && x != l.fl[i]
    ensures Freed(Layout(l.blocks, RemoveAt(l.fl, i)), l.fl[i]) == Layout(l.blocks, [l.fl[i]] + RemoveAt(l.fl, i))
  {
    hide RemoveAt;
    assert l.fl[i] in l.fl;
    assert Next(l.blocks, l.fl[i]) !in RemoveAt(l.fl, i);
    assert !LeftFree(l.blocks, RemoveAt(l.fl, i), l.fl[i]);
  }

  lemma PartBack(l: Layout, lo: nat, hi: nat, k: nat, i: nat)
    requires Coalesced(l, lo, hi) && i < |l.fl| && l.fl[i] in l.blocks && 0 < k < l.blocks[l.fl[i]]
    requires forall x :: x in RemoveAt(l.fl, i) <==> x in l.fl && x != l.fl[i]
    ensures Freed(Layout(Parted(l.blocks, l.fl[i], k), [l.fl[i] + k] + RemoveAt(l.fl, i)), l.fl[i]) == Layout(l.blocks, [l.fl[i]] + RemoveAt(l.fl, i))
  {
    hide RemoveAt, Tiles, Distinct;
    var b, bs := l.fl[i], l.blocks;
    var c := Layout(Parted(bs, b, k), [b + k] + RemoveAt(l.fl, i));
    assert b in l.fl;
    SplitFresh(bs, lo, hi, b, k);
    PartAlone(l, lo, hi, k, i);
    OnlyFirst(b + k, RemoveAt(l.fl, i));
    assert c.fl[0] == b + k;
    assert Join(c.blocks, b, b + k) == bs;
  }

  lemma PartAlone(l: Layout, lo: nat, hi: nat, k: nat, i: nat)
    requires Coalesced(l, lo, hi) && i < |l.fl| && l.fl[i] in l.blocks && 0 < k < l.blocks[l.fl[i]] && l.fl[i] + k !in l.blocks
    requires forall x :: x in RemoveAt(l.fl, i) <==> x in l.fl && x != l.fl[i]
    ensures !LeftFree(Parted(l.blocks, l.fl[i], k), [l.fl[i] + k] + RemoveAt(l.fl, i), l.fl[i])
  {
    hide RemoveAt, Tiles, Distinct;
    var b, bs := l.fl[i], l.blocks;
    var bs', fl' := Parted(bs, b, k), [b + k] + RemoveAt(l.fl, i);
    assert b in l.fl;
    forall p | p in fl' && p in bs'
      ensures Next(bs', p) != b
    {
      if p != b + k {
        assert p in RemoveAt(l.fl, i);
        assert p in l.fl && p != b && p in bs && bs'[p] == bs[p];
        assert Next(bs, p) !in l.fl && Next(bs', p) == Next(bs, p);
      } else {
        assert bs'[p] == bs[b] - k;
      }
    }
  }

  lemma OnlyFirst(b: nat, fl: seq<nat>)
    requires b !in fl
    ensures Sans([b] + fl, b) == fl
  {
    assert ([b] + fl)[0] == b;
    var i := FindIndex([b] + fl, b);
    assert i == 0;
  }

  /** The block just freed is the next to be handed out, to every request it is large enough for: at
      its own start, or at that of the free block before it. */
  lemma LastInFirstOut(l: Layout, b: nat, need: nat)
    requires b in l.blocks && b !in l.fl && need <= 16 * l.blocks[b]
    ensures Found(Freed(l, b), need) == (if LeftFree(l.blocks, l.fl, b) then LeftBlock(l.blocks, l.fl, b) else b) + 1
  {
    var f := Freed(l, b);
    assert l.blocks[b] <= Size(f.blocks, f.fl[0]);
  }
}
