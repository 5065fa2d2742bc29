/** The boundary-tag layout of the userland heap and its structural invariant.

    Everything the allocator addresses (headers, free-list nodes, footers, payloads) is
    16-byte aligned and a multiple of 16 bytes long.  The arena is therefore a sequence of
    16-byte cells, an address is a cell number (byte address / 16), and a tag, a list node
    and a piece of payload are three readings of the same cell:

      - as a tag,  `lo` is the block size in bytes and `hi` the flag word;
      - as a node, `lo` and `hi` are the previous and next node addresses (0 = none);
      - as payload, two arbitrary words.
 */
module HeapLayout {

  const HEADER_SZ: nat := 16
  const MIN_BLOCK: nat := 48
  const PAGE_SZ: nat := 4096
  const MMAP_THRESHOLD: nat := 128 * 1024
  const SIZE_MAX: nat := 0xFFFF_FFFF_FFFF_FFFF
  const NULL: nat := 0

  datatype Cell = Cell(lo: nat, hi: nat)

  // Flag word: bit 0 is ALLOC, bit 1 is PREV.
  predicate IsAlloc(flags: nat) { flags % 2 == 1 }

  predicate IsPrev(flags: nat) { flags / 2 % 2 == 1 }

  function SetAlloc(flags: nat): nat { if IsAlloc(flags) then flags else flags + 1 }

  function ClearAlloc(flags: nat): nat { if IsAlloc(flags) then flags - 1 else flags }

  function SetPrev(flags: nat): nat { if IsPrev(flags) then flags else flags + 2 }

  function ClearPrev(flags: nat): nat { if IsPrev(flags) then flags - 2 else flags }

  // -----------------------------------------------------------------------------
  // Tiling: which cells start a block, and how many cells each block spans

  type Blocks = map<nat, nat>

  ghost function Next(bs: Blocks, b: nat): nat
    requires b in bs
  {
    b + bs[b]
  }

  /** The blocks cut `[lo, hi)` into consecutive pieces of at least 48 bytes. */
  ghost predicate Tiles(bs: Blocks, lo: nat, hi: nat) {
    && 0 < lo <= hi
    && (lo < hi ==> lo in bs)
    && (forall b {:trigger bs[b]} :: b in bs ==> lo <= b && MIN_BLOCK <= 16 * bs[b] && b + bs[b] <= hi)
    && (forall b {:trigger Next(bs, b)} :: b in bs ==> Next(bs, b) == hi || Next(bs, b) in bs)
    && (forall b, c {:trigger bs[b], bs[c]} :: b in bs && c in bs && b < c ==> b + bs[b] <= c)
  }

  /** Blocks `b` and its right neighbour become one block at `b`. */
  ghost function Merged(bs: Blocks, b: nat): Blocks
    requires b in bs && Next(bs, b) in bs
  {
    (bs - {Next(bs, b)})[b := bs[b] + bs[Next(bs, b)]]
  }

  /** Block `b` keeps its first `k` cells; the rest becomes a block of its own. */
  ghost function Split(bs: Blocks, b: nat, k: nat): Blocks
    requires b in bs && k < bs[b]
  {
    bs[b := k][b + k := bs[b] - k]
  }

  lemma MergedTiles(bs: Blocks, lo: nat, hi: nat, b: nat)
    requires Tiles(bs, lo, hi) && b in bs && Next(bs, b) in bs
    ensures Tiles(Merged(bs, b), lo, hi)
    ensures Next(Merged(bs, b), b) == Next(bs, Next(bs, b))
  {
    assert bs[b] >= 3 && bs[Next(bs, b)] >= 3;
    var bs' := Merged(bs, b);
    forall x | x in bs'
      ensures Next(bs', x) == hi || Next(bs', x) in bs'
    {
      MergedNext(bs, lo, hi, b, x);
    }
  }

  lemma MergedNext(bs: Blocks, lo: nat, hi: nat, b: nat, x: nat)
    requires Tiles(bs, lo, hi) && b in bs && Next(bs, b) in bs && x in Merged(bs, b)
    ensures Next(Merged(bs, b), x) == hi || Next(Merged(bs, b), x) in Merged(bs, b)
  {
    var c := Next(bs, b);
    assert bs[b] >= 3 && bs[c] >= 3 && bs[x] >= 3;
    assert Next(bs, x) == hi || Next(bs, x) in bs;
    assert Next(bs, c) == hi || Next(bs, c) in bs;
  }

  lemma SplitTiles(bs: Blocks, lo: nat, hi: nat, b: nat, k: nat)
    requires Tiles(bs, lo, hi) && b in bs
    requires MIN_BLOCK <= 16 * k && k < bs[b] && MIN_BLOCK <= 16 * (bs[b] - k)
    ensures b + k !in bs
    ensures Tiles(Split(bs, b, k), lo, hi)
  {
    SplitFresh(bs, lo, hi, b, k);
    var bs' := Split(bs, b, k);
    forall x | x in bs'
      ensures Next(bs', x) == hi || Next(bs', x) in bs'
    {
      SplitNext(bs, lo, hi, b, k, x);
    }
    forall x, y | x in bs' && y in bs' && x < y
      ensures x + bs'[x] <= y
    {
      SplitApart(bs, lo, hi, b, k, x, y);
    }
  }

  lemma SplitFresh(bs: Blocks, lo: nat, hi: nat, b: nat, k: nat)
    requires Tiles(bs, lo, hi) && b in bs && 0 < k < bs[b]
    ensures b + k !in bs
  {
    assert forall c :: c in bs ==> c <= b || b + bs[b] <= c;
  }

  lemma SplitNext(bs: Blocks, lo: nat, hi: nat, b: nat, k: nat, x: nat)
    requires Tiles(bs, lo, hi) && b in bs && k < bs[b] && b + k !in bs && x in Split(bs, b, k)
    ensures Next(Split(bs, b, k), x) == hi || Next(Split(bs, b, k), x) in Split(bs, b, k)
  {
    var bs' := Split(bs, b, k);
    if x == b + k {
      assert Next(bs', x) == Next(bs, b);
    } else if x != b {
      assert Next(bs', x) == Next(bs, x);
    }
  }

  lemma SplitApart(bs: Blocks, lo: nat, hi: nat, b: nat, k: nat, x: nat, y: nat)
    requires Tiles(bs, lo, hi) && b in bs && k < bs[b] && b + k !in bs
    requires x in Split(bs, b, k) && y in Split(bs, b, k) && x < y
    ensures x + Split(bs, b, k)[x] <= y
  {
    assert x in bs ==> bs[x] >= 3;
    assert y in bs ==> bs[y] >= 3;
    assert bs[b] >= 3;
  }

  /** Every block but the first has a left neighbour ending where it starts. */
  lemma LeftNeighbour(bs: Blocks, lo: nat, hi: nat, x: nat) returns (p: nat)
    requires Tiles(bs, lo, hi) && x in bs && x != lo
    ensures p in bs && Next(bs, p) == x
  {
    assert bs[x] >= 3;
    p := lo;
    while Next(bs, p) != x
      invariant p in bs && p < x
      decreases x - p
    {
      assert bs[p] >= 3 && bs[x] >= 3;
      p := Next(bs, p);
    }
  }

  /** A tiling really is a partition: every cell of the arena lies in exactly one block. */
  lemma CoveringBlock(bs: Blocks, lo: nat, hi: nat, a: nat) returns (b: nat)
    requires Tiles(bs, lo, hi) && lo <= a < hi
    ensures b in bs && b <= a < Next(bs, b)
    ensures forall c :: c in bs && c <= a < Next(bs, c) ==> c == b
  {
    b := lo;
    while Next(bs, b) <= a
      invariant b in bs && b <= a
      decreases a - b
    {
      assert bs[b] >= 3;
      b := Next(bs, b);
    }
    forall c | c in bs && c <= a < Next(bs, c)
      ensures c == b
    {
      assert bs[c] >= 3 && bs[b] >= 3;
    }
  }

  // -----------------------------------------------------------------------------
  // The intrusive doubly linked free list

  /** Following the links from `head` visits exactly the blocks `fl`, in order. */
  ghost predicate Links(m: seq<Cell>, head: nat, fl: seq<nat>) {
    && (forall i :: 0 <= i < |fl| ==> 0 < fl[i] && fl[i] + 1 < |m|)
    && (forall i, j :: 0 <= i < j < |fl| ==> fl[i] != fl[j])
    && head == (if fl == [] then NULL else fl[0] + 1)
    && (forall i :: 0 <= i < |fl| ==> LinkAt(m, fl, i))
  }

  /** The list survives any change that leaves its link cells alone. */
  lemma LinksKept(m: seq<Cell>, m': seq<Cell>, head: nat, fl: seq<nat>)
    requires Links(m, head, fl) && |m'| == |m|
    requires forall b :: b in fl && b + 1 < |m| ==> m'[b + 1] == m[b + 1]
    ensures Links(m', head, fl)
  {
    forall i | 0 <= i < |fl|
      ensures LinkAt(m', fl, i)
    {
      assert LinkAt(m, fl, i) && fl[i] in fl;
    }
  }

  ghost predicate LinkAt(m: seq<Cell>, fl: seq<nat>, i: nat)
    requires i < |fl| && fl[i] + 1 < |m|
  {
    m[fl[i] + 1] == Cell(PrevOf(fl, i), NextOf(fl, i))
  }

  ghost function PrevOf(fl: seq<nat>, i: nat): nat
    requires i < |fl|
  {
    if i == 0 then NULL else fl[i - 1] + 1
  }

  ghost function NextOf(fl: seq<nat>, i: nat): nat
    requires i < |fl|
  {
    if i == |fl| - 1 then NULL else fl[i + 1] + 1
  }

  ghost function RemoveAt(fl: seq<nat>, i: nat): (r: seq<nat>)
    requires i < |fl|
  {
    fl[..i] + fl[i + 1..]
  }

  ghost function FindIndex(fl: seq<nat>, b: nat): (i: nat)
    requires b in fl
    ensures i < |fl| && fl[i] == b
  {
    var i :| 0 <= i < |fl| && fl[i] == b;
    i
  }

  lemma RemoveAtMembers(fl: seq<nat>, i: nat)
    requires i < |fl|
    requires forall a, b :: 0 <= a < b < |fl| ==> fl[a] != fl[b]
    ensures forall x :: x in RemoveAt(fl, i) <==> x in fl && x != fl[i]
  {
    var r := RemoveAt(fl, i);
    forall x
      ensures x in r <==> x in fl && x != fl[i]
    {
      if x in fl && x != fl[i] {
        var k :| 0 <= k < |fl| && fl[k] == x;
        assert r[if k < i then k else k - 1] == x;
      }
    }
  }

  /** The cells after node `n` with neighbours `p` and `q` has been taken out. */
  ghost function Unlinked(m: seq<Cell>, p: nat, n: nat, q: nat): seq<Cell>
    requires p < |m| && n < |m| && q < |m|
  {
    var m1 := if p == NULL then m else m[p := m[p].(hi := q)];
    var m2 := if q == NULL then m1 else m1[q := m1[q].(lo := p)];
    m2[n := Cell(NULL, NULL)]
  }

  lemma UnlinkedLink(m: seq<Cell>, head: nat, fl: seq<nat>, i: nat, j: nat)
    requires Links(m, head, fl) && i < |fl| && j < |fl| && j != i
    ensures PrevOf(fl, i) < |m| && NextOf(fl, i) < |m|
    ensures LinkAt(Unlinked(m, PrevOf(fl, i), fl[i] + 1, NextOf(fl, i)), RemoveAt(fl, i), if j < i then j else j - 1)
  {
    assert LinkAt(m, fl, j) && LinkAt(m, fl, i);
  }

  lemma UnlinkedLinks(m: seq<Cell>, head: nat, fl: seq<nat>, i: nat)
    requires Links(m, head, fl) && i < |fl|
    ensures PrevOf(fl, i) < |m| && NextOf(fl, i) < |m|
    ensures LinkAt(m, fl, i)
    ensures Links(Unlinked(m, PrevOf(fl, i), fl[i] + 1, NextOf(fl, i)), if i == 0 then NextOf(fl, i) else head, RemoveAt(fl, i))
    ensures SameOutside(m, Unlinked(m, PrevOf(fl, i), fl[i] + 1, NextOf(fl, i)), fl)
  {
    assert PrevOf(fl, i) < |m| && NextOf(fl, i) < |m|;
    var m' := Unlinked(m, PrevOf(fl, i), fl[i] + 1, NextOf(fl, i));
    var r := RemoveAt(fl, i);
    forall j | 0 <= j < |r|
      ensures LinkAt(m', r, j)
    {
      UnlinkedLink(m, head, fl, i, if j < i then j else j + 1);
    }
  }

  /** Only link cells of the listed blocks may differ. */
  ghost predicate SameOutside(m: seq<Cell>, m': seq<Cell>, fl: seq<nat>) {
    && |m| == |m'|
    && forall k {:trigger m'[k]} :: 0 <= k < |m| && (forall j :: 0 <= j < |fl| ==> k != fl[j] + 1) ==> m'[k] == m[k]
  }

  // -----------------------------------------------------------------------------
  // The whole invariant

  /** Block `b` carries the right tags.  `y` is a block whose size field is out of date and
      `x` a block that is out of the list and not yet finished (see `Core`). */
  ghost predicate BlockOk(m: seq<Cell>, bs: Blocks, fl: seq<nat>, hi: nat, b: nat, x: nat, y: nat)
    requires b in bs && 3 <= bs[b] && Next(bs, b) <= hi <= |m|
  {
    && (b != y ==> m[b].lo == 16 * bs[b])
    && m[b].hi <= 3
    && (b in fl <==> !IsAlloc(m[b].hi))
    && (b in fl ==> m[b].hi == 0 && m[Next(bs, b) - 1] == m[b])
    && (Next(bs, b) < hi ==> (IsPrev(m[Next(bs, b)].hi) <==> b in fl))
    && (Next(bs, b) < hi && Next(bs, b) != x && b in fl ==> IsAlloc(m[Next(bs, b)].hi))
  }

  ghost predicate BlocksOk(m: seq<Cell>, bs: Blocks, fl: seq<nat>, hi: nat, x: nat, y: nat) {
    forall b {:trigger bs[b]} :: b in bs && b != x ==>
      3 <= bs[b] && Next(bs, b) <= hi <= |m| && BlockOk(m, bs, fl, hi, b, x, y)
  }

  /** The structural invariant with two exceptions allowed while an operation is under way:
      block `x` is in no list and its footer and right neighbour are unfinished, and block
      `y` has a stale size field.  Between operations both are 0, which is no block. */
  ghost predicate Core(m: seq<Cell>, bs: Blocks, fl: seq<nat>, head: nat, lo: nat, hi: nat, x: nat, y: nat) {
    && hi <= |m|
    && Tiles(bs, lo, hi)
    && Links(m, head, fl)
    && (forall b :: b in fl ==> b in bs)
    && BlocksOk(m, bs, fl, hi, x, y)
    && (lo < hi ==> !IsPrev(m[lo].hi))
    && (x in bs ==> x !in fl && m[x].hi <= 3 && (x != y ==> m[x].lo == 16 * bs[x]))
    && (y in bs ==> y !in fl)
  }

  // -----------------------------------------------------------------------------
  // What the client sees: one private buffer per block in use

  /** The blocks in use, other than `x`. */
  ghost function Used(bs: Blocks, fl: seq<nat>, x: nat): Blocks {
    map b | b in bs && b !in fl && b != x :: bs[b]
  }

  ghost function Payload(m: seq<Cell>, b: nat, n: nat): seq<Cell> {
    if 0 < n && b + n <= |m| then m[b + 1..b + n] else []
  }

  /** The payload cells of each of the blocks `used`. */
  ghost function Payloads(m: seq<Cell>, used: Blocks): map<nat, seq<Cell>> {
    map b | b in used :: Payload(m, b, used[b])
  }

  /** Every cell of the payload of every block in use (other than `x`) is as it was. */
  ghost predicate PayloadsKept(m: seq<Cell>, m': seq<Cell>, bs: Blocks, fl: seq<nat>, x: nat) {
    && |m| == |m'|
    && forall b, k :: b in bs && b !in fl && b != x && b < k < b + bs[b] && k < |m| ==> m'[k] == m[k]
  }

  ghost predicate Kept(m: seq<Cell>, m': seq<Cell>, used: Blocks) {
    && |m| == |m'|
    && forall b, k {:trigger used[b], m'[k]} :: b in used && b < k < b + used[b] && k < |m| ==> m'[k] == m[k]
  }

  lemma KeptPayloads(m: seq<Cell>, m': seq<Cell>, used: Blocks)
    requires Kept(m, m', used)
    ensures Payloads(m', used) == Payloads(m, used)
  {
    forall b | b in used
      ensures Payload(m', b, used[b]) == Payload(m, b, used[b])
    {
    }
  }
}
