/** What each step of an allocator operation does to the cells, and that it takes one
    state of the structural invariant to another. */
module HeapSteps {
  import opened HeapLayout

  // -----------------------------------------------------------------------------
  // Putting a block on the list and taking one off

  /** The cells after block `x`, ending at `nx`, has been put at the front of the list: its
      node, the back link of the old first node, its footer, and the PREV bit to its right. */
  ghost predicate InsertedAt(m: seq<Cell>, m': seq<Cell>, head: nat, hi: nat, x: nat, nx: nat) {
    && |m'| == |m| && hi <= |m| && x + 3 <= nx <= hi && head < |m|
    && m'[x] == m[x] && m'[nx - 1] == m[x]
    && m'[x + 1] == Cell(NULL, head)
    && (nx < hi ==> m'[nx] == m[nx].(hi := SetPrev(m[nx].hi)))
    && (head != NULL ==> m'[head] == m[head].(lo := x + 1))
    && forall k {:trigger m'[k]} :: 0 <= k < |m| && k != x + 1 && k != head && k != nx - 1 && k != nx ==> m'[k] == m[k]
  }

  lemma Neighbour(bs: Blocks, lo: nat, hi: nat, b: nat)
    requires Tiles(bs, lo, hi) && b in bs
    ensures 3 <= bs[b] && Next(bs, b) <= hi
    ensures Next(bs, b) < hi ==> Next(bs, b) in bs && 3 <= bs[Next(bs, b)]
  {
  }

  lemma InsertedLink(m: seq<Cell>, m': seq<Cell>, fl: seq<nat>, head: nat, hi: nat, x: nat, nx: nat, j: nat)
    requires j < |fl| && fl[j] + 1 < |m| && 0 < fl[j] && fl[j] != x && LinkAt(m, fl, j)
    requires fl != [] && head == fl[0] + 1 && (j > 0 ==> fl[j] != fl[0])
    requires InsertedAt(m, m', head, hi, x, nx)
    requires fl[j] + 1 != nx && fl[j] + 1 != nx - 1
    ensures LinkAt(m', [x] + fl, j + 1)
  {
    var r := [x] + fl;
    assert r[j + 1] == fl[j] && (j + 1 < |fl| ==> r[j + 2] == fl[j + 1]) && (j > 0 ==> r[j] == fl[j - 1]);
  }

  lemma InsertedLinks(m: seq<Cell>, m': seq<Cell>, fl: seq<nat>, head: nat, hi: nat, x: nat, nx: nat)
    requires Links(m, head, fl) && 0 < x && x !in fl && x + 1 < |m|
    requires InsertedAt(m, m', head, hi, x, nx)
    requires forall b :: b in fl ==> b + 1 != nx && b + 1 != nx - 1
    ensures Links(m', x + 1, [x] + fl)
  {
    var r := [x] + fl;
    forall j | 0 <= j < |r|
      ensures LinkAt(m', r, j)
    {
      if j > 0 {
        assert fl[j - 1] in fl && LinkAt(m, fl, j - 1);
        InsertedLink(m, m', fl, head, hi, x, nx, j - 1);
      }
    }
  }

  lemma InsertedBlock(m: seq<Cell>, m': seq<Cell>, bs: Blocks, fl: seq<nat>, head: nat, lo: nat, hi: nat, x: nat, y: nat, b: nat)
    requires Tiles(bs, lo, hi) && x in bs && b in bs && x != b
    requires head == NULL || (head - 1 in bs && head - 1 in fl && head - 1 != x)
    requires InsertedAt(m, m', head, hi, x, Next(bs, x))
    requires 3 <= bs[b] && BlockOk(m, bs, fl, hi, b, x, y)
    requires m[x].hi == 0 && (Next(bs, x) < hi ==> IsAlloc(m[Next(bs, x)].hi))
    ensures BlockOk(m', bs, [x] + fl, hi, b, 0, y)
    ensures b !in fl ==> forall k :: b < k < b + bs[b] ==> m'[k] == m[k]
  {
    Neighbour(bs, lo, hi, x);
    Neighbour(bs, lo, hi, b);
    if head != NULL {
      Neighbour(bs, lo, hi, head - 1);
    }
  }

  lemma HeadListed(m: seq<Cell>, head: nat, fl: seq<nat>)
    requires Links(m, head, fl)
    ensures head == NULL || head - 1 in fl
  {
    assert fl != [] ==> fl[0] in fl;
  }

  /** The first node on the list shares no cell with a block `x` off the list. */
  lemma HeadApart(m: seq<Cell>, bs: Blocks, fl: seq<nat>, head: nat, lo: nat, hi: nat, x: nat)
    requires Tiles(bs, lo, hi) && Links(m, head, fl) && x in bs && x !in fl
    requires forall b :: b in fl ==> b in bs
    ensures x + 3 <= Next(bs, x) <= hi
    ensures head == NULL || (head < hi && head !in {x, x + 1, Next(bs, x) - 1, Next(bs, x)})
  {
    HeadListed(m, head, fl);
    Neighbour(bs, lo, hi, x);
    if head != NULL {
      Neighbour(bs, lo, hi, head - 1);
    }
  }

  /** The cells between the link cell and the footer of the inserted block stay. */
  lemma InsertedInside(m: seq<Cell>, m': seq<Cell>, bs: Blocks, fl: seq<nat>, head: nat, lo: nat, hi: nat, x: nat)
    requires Tiles(bs, lo, hi) && Links(m, head, fl) && x in bs && x !in fl && hi <= |m|
    requires forall b :: b in fl ==> b in bs
    requires InsertedAt(m, m', head, hi, x, Next(bs, x))
    ensures |m'| == |m| && forall k :: x + 1 < k < Next(bs, x) - 1 && k < |m| ==> m'[k] == m[k]
  {
    HeadListed(m, head, fl);
    Neighbour(bs, lo, hi, x);
    if head != NULL {
      Neighbour(bs, lo, hi, head - 1);
    }
  }

  lemma InsertedSelf(m: seq<Cell>, m': seq<Cell>, bs: Blocks, fl: seq<nat>, head: nat, lo: nat, hi: nat, x: nat, y: nat)
    requires Tiles(bs, lo, hi) && x in bs && x != y && hi <= |m|
    requires InsertedAt(m, m', head, hi, x, Next(bs, x))
    requires m[x].lo == 16 * bs[x] && m[x].hi == 0
    requires Next(bs, x) < hi ==> IsAlloc(m[Next(bs, x)].hi)
    ensures 3 <= bs[x] && BlockOk(m', bs, [x] + fl, hi, x, 0, y)
  {
    Neighbour(bs, lo, hi, x);
  }

  lemma InsertedBlocks(m: seq<Cell>, m': seq<Cell>, bs: Blocks, fl: seq<nat>, head: nat, lo: nat, hi: nat, x: nat, y: nat)
    requires Tiles(bs, lo, hi) && BlocksOk(m, bs, fl, hi, x, y) && x in bs && x != y && hi <= |m|
    requires head == NULL || (head - 1 in bs && head - 1 in fl && head - 1 != x)
    requires m[x].lo == 16 * bs[x] && m[x].hi == 0 && (Next(bs, x) < hi ==> IsAlloc(m[Next(bs, x)].hi))
    requires InsertedAt(m, m', head, hi, x, Next(bs, x))
    ensures BlocksOk(m', bs, [x] + fl, hi, 0, y)
    ensures PayloadsKept(m, m', bs, fl, x)
  {
    var r := [x] + fl;
    InsertedSelf(m, m', bs, fl, head, lo, hi, x, y);
    forall b | b in bs
      ensures 3 <= bs[b] && Next(bs, b) <= hi <= |m'| && BlockOk(m', bs, r, hi, b, 0, y)
      ensures b != x && b !in fl ==> forall k :: b < k < b + bs[b] ==> m'[k] == m[k]
    {
      if b != x {
        Neighbour(bs, lo, hi, b);
        InsertedBlock(m, m', bs, fl, head, lo, hi, x, y, b);
      }
    }
  }

  /** Putting a finished free block on the list ends its limbo. */
  lemma InsertedCore(m: seq<Cell>, m': seq<Cell>, bs: Blocks, fl: seq<nat>, head: nat, lo: nat, hi: nat, x: nat, y: nat)
    requires Core(m, bs, fl, head, lo, hi, x, y) && x in bs && x != y
    requires m[x].hi == 0 && (Next(bs, x) < hi ==> IsAlloc(m[Next(bs, x)].hi))
    requires InsertedAt(m, m', head, hi, x, Next(bs, x))
    ensures Core(m', bs, [x] + fl, x + 1, lo, hi, 0, y)
    ensures PayloadsKept(m, m', bs, fl, x)
  {
    hide PayloadsKept, BlockOk, BlocksOk, Links;
    InsertedApart(bs, fl, lo, hi, x);
    HeadListed(m, head, fl);
    TilesIn(bs, lo, hi, x);
    InsertedLinks(m, m', fl, head, hi, x, Next(bs, x));
    InsertedBlocks(m, m', bs, fl, head, lo, hi, x, y);
    InsertedFirst(m, m', bs, fl, head, lo, hi, x);
  }

  lemma TilesIn(bs: Blocks, lo: nat, hi: nat, x: nat)
    requires Tiles(bs, lo, hi) && x in bs
    ensures 0 < lo <= x && x + 3 <= Next(bs, x) <= hi
  {
    Neighbour(bs, lo, hi, x);
  }

  lemma InsertedApart(bs: Blocks, fl: seq<nat>, lo: nat, hi: nat, x: nat)
    requires Tiles(bs, lo, hi) && x in bs && x !in fl && forall b :: b in fl ==> b in bs
    ensures forall b :: b in fl ==> b + 1 != Next(bs, x) && b + 1 != Next(bs, x) - 1
  {
    forall b | b in fl
      ensures b + 1 != Next(bs, x) && b + 1 != Next(bs, x) - 1
    {
      Neighbour(bs, lo, hi, b);
    }
  }

  /** The first block of the arena still has no free block to its left. */
  lemma InsertedFirst(m: seq<Cell>, m': seq<Cell>, bs: Blocks, fl: seq<nat>, head: nat, lo: nat, hi: nat, x: nat)
    requires Tiles(bs, lo, hi) && x in bs && InsertedAt(m, m', head, hi, x, Next(bs, x))
    requires head == NULL || (head - 1 in bs && head - 1 in fl)
    ensures lo < hi ==> m'[lo].hi == m[lo].hi
  {
    Neighbour(bs, lo, hi, x);
  }

  lemma UnlinkedBlock(m: seq<Cell>, m': seq<Cell>, bs: Blocks, fl: seq<nat>, lo: nat, hi: nat, b: nat)
    requires Tiles(bs, lo, hi) && b in bs && hi <= |m|
    requires forall c :: c in fl ==> c in bs
    requires SameOutside(m, m', fl)
    ensures m'[b] == m[b] && (b + bs[b] < hi ==> m'[b + bs[b]] == m[b + bs[b]]) && m'[b + bs[b] - 1] == m[b + bs[b] - 1]
    ensures b !in fl ==> forall k :: b < k < b + bs[b] ==> m'[k] == m[k]
  {
    Neighbour(bs, lo, hi, b);
    forall j | 0 <= j < |fl|
      ensures b != fl[j] + 1 && b + bs[b] - 1 != fl[j] + 1
      ensures b + bs[b] < hi ==> b + bs[b] != fl[j] + 1
      ensures b !in fl ==> !(b < fl[j] + 1 < b + bs[b])
    {
      Neighbour(bs, lo, hi, fl[j]);
    }
  }

  lemma UnlinkedBlockOk(m: seq<Cell>, m': seq<Cell>, bs: Blocks, fl: seq<nat>, r: seq<nat>, hi: nat, b: nat, x: nat, y: nat)
    requires b in bs && 3 <= bs[b] && b + bs[b] <= hi <= |m| == |m'| && b != x
    requires b in r <==> b in fl
    requires BlockOk(m, bs, fl, hi, b, 0, y)
    requires m'[b] == m[b] && (b + bs[b] < hi ==> m'[b + bs[b]] == m[b + bs[b]]) && m'[b + bs[b] - 1] == m[b + bs[b] - 1]
    ensures 0 < b ==> BlockOk(m', bs, r, hi, b, x, y)
  {
  }

  /** Taking node `i` out of the list leaves its block in limbo. */
  lemma UnlinkedCore(m: seq<Cell>, m': seq<Cell>, bs: Blocks, fl: seq<nat>, head: nat, head': nat, lo: nat, hi: nat, i: nat, y: nat)
    requires Core(m, bs, fl, head, lo, hi, 0, y) && i < |fl|
    requires SameOutside(m, m', fl) && Links(m', head', RemoveAt(fl, i))
    ensures Core(m', bs, RemoveAt(fl, i), head', lo, hi, fl[i], y)
    ensures PayloadsKept(m, m', bs, fl, 0)
    ensures m'[fl[i]] == m[fl[i]]
  {
    var r, x := RemoveAt(fl, i), fl[i];
    RemoveAtMembers(fl, i);
    forall b | b in bs
      ensures b != x ==> BlockOk(m', bs, r, hi, b, x, y)
      ensures m'[b] == m[b]
      ensures b !in fl ==> forall k :: b < k < b + bs[b] ==> m'[k] == m[k]
    {
      UnlinkedBlock(m, m', bs, fl, lo, hi, b);
      if b != x {
        UnlinkedBlockOk(m, m', bs, fl, r, hi, b, x, y);
      }
    }
  }

  lemma AllocToLimbo(m: seq<Cell>, bs: Blocks, fl: seq<nat>, head: nat, lo: nat, hi: nat, b: nat)
    requires Core(m, bs, fl, head, lo, hi, 0, 0) && b in bs && b !in fl
    ensures Core(m, bs, fl, head, lo, hi, b, 0)
  {
    forall c | c in bs && c != b
      ensures BlockOk(m, bs, fl, hi, c, b, 0)
    {
      assert BlockOk(m, bs, fl, hi, c, 0, 0);
    }
    assert BlockOk(m, bs, fl, hi, b, 0, 0);
  }

  // Absorbing the right neighbour

  lemma AbsorbedBlock(m: seq<Cell>, m': seq<Cell>, bs: Blocks, fl: seq<nat>, r: seq<nat>, lo: nat, hi: nat, x: nat, z: nat, y: nat, b: nat, v: nat)
    requires Tiles(bs, lo, hi) && z in bs && Next(bs, z) in bs && b in bs && b != z && b != Next(bs, z) && hi <= |m| == |m'|
    requires 3 <= bs[b] && BlockOk(m, bs, fl, hi, b, x, y)
    requires x == z || x == Next(bs, z)
    requires forall c :: c in fl ==> c in bs
    requires b in r <==> b in fl
    requires SameOutside(m[z := m[z].(lo := v)], m', fl)
    ensures BlockOk(m', Merged(bs, z), r, hi, b, z, y)
    ensures b !in fl ==> forall k :: b < k < b + bs[b] ==> m'[k] == m[k]
  {
    UnlinkedBlock(m[z := m[z].(lo := v)], m', bs, fl, lo, hi, b);
    Neighbour(bs, lo, hi, z);
    Neighbour(bs, lo, hi, b);
  }

  lemma AbsorbedBlocks(m: seq<Cell>, m': seq<Cell>, bs: Blocks, fl: seq<nat>, r: seq<nat>, lo: nat, hi: nat, x: nat, z: nat, y: nat, v: nat)
    requires Tiles(bs, lo, hi) && z in bs && Next(bs, z) in bs && hi <= |m| == |m'|
    requires BlocksOk(m, bs, fl, hi, x, y)
    requires x == z || x == Next(bs, z)
    requires forall c :: c in fl ==> c in bs
    requires forall b :: b in bs && b != z && b != Next(bs, z) ==> (b in r <==> b in fl)
    requires SameOutside(m[z := m[z].(lo := v)], m', fl)
    ensures BlocksOk(m', Merged(bs, z), r, hi, z, y)
    ensures forall b, k :: b in bs && b != z && b != Next(bs, z) && b !in fl && b < k < b + bs[b] && k < |m| ==> m'[k] == m[k]
  {
    forall b | b in bs && b != z && b != Next(bs, z)
      ensures 3 <= bs[b] && b + bs[b] <= hi
      ensures BlockOk(m', Merged(bs, z), r, hi, b, z, y)
      ensures b !in fl ==> forall k :: b < k < b + bs[b] ==> m'[k] == m[k]
    {
      Neighbour(bs, lo, hi, b);
      AbsorbedBlock(m, m', bs, fl, r, lo, hi, x, z, y, b, v);
    }
  }

  /** Blocks `z` and its right neighbour are merged; one of them was in limbo, the other was
      on the list and has been unlinked.  The merged block is in limbo. */
  lemma AbsorbedCore(m: seq<Cell>, m': seq<Cell>, bs: Blocks, fl: seq<nat>, head: nat, head': nat, lo: nat, hi: nat, x: nat, z: nat, y: nat, i: nat)
    requires Core(m, bs, fl, head, lo, hi, x, y) && x in bs && x != y && i < |fl|
    requires z in bs && Next(bs, z) in bs
    requires (x == z && fl[i] == Next(bs, z)) || (x == Next(bs, z) && fl[i] == z)
    requires |m'| == |m|
    requires SameOutside(m[z := m[z].(lo := 16 * (bs[z] + bs[Next(bs, z)]))], m', fl)
    requires Links(m', head', RemoveAt(fl, i))
    ensures Core(m', Merged(bs, z), RemoveAt(fl, i), head', lo, hi, z, y)
    ensures PayloadsKept(m, m', bs, fl, x)
    ensures m'[z].hi == m[z].hi
    ensures Next(Merged(bs, z), z) == Next(bs, Next(bs, z))
  {
    var m1 := m[z := m[z].(lo := 16 * (bs[z] + bs[Next(bs, z)]))];
    var bs', r := Merged(bs, z), RemoveAt(fl, i);
    RemoveAtMembers(fl, i);
    assert fl[i] in fl;
    AbsorbedBlocks(m, m', bs, fl, r, lo, hi, x, z, y, 16 * (bs[z] + bs[Next(bs, z)]));
    MergedTiles(bs, lo, hi, z);
    UnlinkedBlock(m1, m', bs, fl, lo, hi, z);
    UnlinkedBlock(m1, m', bs, fl, lo, hi, lo);
  }

  // -----------------------------------------------------------------------------
  // Changing the flag word of the block in limbo

  lemma LimboFlags(m: seq<Cell>, bs: Blocks, fl: seq<nat>, head: nat, lo: nat, hi: nat, x: nat, f: nat)
    requires Core(m, bs, fl, head, lo, hi, x, 0) && x in bs
    requires f <= 3 && (IsPrev(f) <==> IsPrev(m[x].hi))
    ensures Core(m[x := m[x].(hi := f)], bs, fl, head, lo, hi, x, 0)
    ensures PayloadsKept(m, m[x := m[x].(hi := f)], bs, fl, x)
  {
    var m' := m[x := m[x].(hi := f)];
    Neighbour(bs, lo, hi, x);
    HeaderLinks(m, bs, fl, head, lo, hi, x, m'[x]);
    LimboFlagsBlocks(m, bs, fl, lo, hi, x, f);
  }

  lemma HeaderLinks(m: seq<Cell>, bs: Blocks, fl: seq<nat>, head: nat, lo: nat, hi: nat, x: nat, c: Cell)
    requires Tiles(bs, lo, hi) && Links(m, head, fl) && x in bs && hi <= |m|
    requires forall b :: b in fl ==> b in bs
    ensures Links(m[x := c], head, fl)
  {
    var m' := m[x := c];
    Neighbour(bs, lo, hi, x);
    forall b | b in fl
      ensures m'[b + 1] == m[b + 1]
    {
      Neighbour(bs, lo, hi, b);
    }
    LinksKept(m, m', head, fl);
  }

  lemma LimboFlagsBlocks(m: seq<Cell>, bs: Blocks, fl: seq<nat>, lo: nat, hi: nat, x: nat, f: nat)
    requires Tiles(bs, lo, hi) && x in bs && hi <= |m|
    requires BlocksOk(m, bs, fl, hi, x, 0)
    requires f <= 3 && (IsPrev(f) <==> IsPrev(m[x].hi))
    ensures BlocksOk(m[x := m[x].(hi := f)], bs, fl, hi, x, 0)
    ensures forall b, k :: b in bs && b != x && b < k < b + bs[b] && k < |m| ==> m[x := m[x].(hi := f)][k] == m[k]
  {
    var m' := m[x := m[x].(hi := f)];
    Neighbour(bs, lo, hi, x);
    forall b | b in bs && b != x
      ensures 3 <= bs[b] && b + bs[b] <= hi && BlockOk(m', bs, fl, hi, b, x, 0)
      ensures !(b < x < b + bs[b])
    {
      Neighbour(bs, lo, hi, b);
      assert BlockOk(m, bs, fl, hi, b, x, 0);
    }
  }

  // -----------------------------------------------------------------------------
  // Cutting a block in two

  /** `m'` has a fresh free header `k` cells into block `b`; only `b`'s header differs otherwise. */
  ghost predicate CutAt(m: seq<Cell>, m': seq<Cell>, bs: Blocks, b: nat, k: nat)
    requires b in bs && k < bs[b]
  {
    && |m'| == |m| && b + bs[b] <= |m|
    && m'[b + k] == Cell(16 * (bs[b] - k), 0)
    && m'[b].hi <= 3 && IsAlloc(m'[b].hi) && (IsPrev(m'[b].hi) <==> IsPrev(m[b].hi))
    && forall a {:trigger m'[a]} :: 0 <= a < |m| && a != b && a != b + k ==> m'[a] == m[a]
  }

  lemma CutBlock(m: seq<Cell>, m': seq<Cell>, bs: Blocks, fl: seq<nat>, lo: nat, hi: nat, b: nat, k: nat, y: nat, c: nat)
    requires Tiles(bs, lo, hi) && b in bs && hi <= |m| && 3 <= k && k + 3 <= bs[b] && b + k !in bs
    requires c in bs && c != b && 3 <= bs[c] && BlockOk(m, bs, fl, hi, c, b, 0)
    requires CutAt(m, m', bs, b, k)
    requires c in fl && c + bs[c] == b ==> IsAlloc(m'[b].hi)
    ensures BlockOk(m', Split(bs, b, k), fl, hi, c, b + k, y)
    ensures forall a :: c < a < c + bs[c] ==> m'[a] == m[a]
  {
    Neighbour(bs, lo, hi, b);
    Neighbour(bs, lo, hi, c);
  }

  lemma CutSelf(m: seq<Cell>, m': seq<Cell>, bs: Blocks, fl: seq<nat>, hi: nat, b: nat, k: nat, y: nat)
    requires b in bs && b !in fl && 3 <= k && k + 3 <= bs[b] && b + bs[b] <= hi <= |m|
    requires CutAt(m, m', bs, b, k)
    requires y == b || m'[b].lo == 16 * k
    ensures BlockOk(m', Split(bs, b, k), fl, hi, b, b + k, y)
  {
  }

  lemma CutBlocks(m: seq<Cell>, m': seq<Cell>, bs: Blocks, fl: seq<nat>, lo: nat, hi: nat, b: nat, k: nat, y: nat)
    requires Tiles(bs, lo, hi) && b in bs && b !in fl && hi <= |m| && 3 <= k && k + 3 <= bs[b] && b + k !in bs
    requires BlocksOk(m, bs, fl, hi, b, 0)
    requires CutAt(m, m', bs, b, k)
    requires y == b || (y == 0 && m'[b].lo == 16 * k)
    ensures BlocksOk(m', Split(bs, b, k), fl, hi, b + k, y)
    ensures forall c, a :: c in bs && c != b && c < a < c + bs[c] && a < |m| ==> m'[a] == m[a]
  {
    var bs' := Split(bs, b, k);
    Neighbour(bs, lo, hi, b);
    CutSelf(m, m', bs, fl, hi, b, k, y);
    forall c | c in bs' && c != b + k
      ensures 3 <= bs'[c] && Next(bs', c) <= hi <= |m'| && BlockOk(m', bs', fl, hi, c, b + k, y)
    {
      if c != b {
        Neighbour(bs, lo, hi, c);
        CutBlock(m, m', bs, fl, lo, hi, b, k, y, c);
      }
    }
    forall c, a | c in bs && c != b && c < a < c + bs[c] && a < |m|
      ensures m'[a] == m[a]
    {
      Neighbour(bs, lo, hi, c);
    }
  }

  lemma CutLinks(m: seq<Cell>, m': seq<Cell>, bs: Blocks, fl: seq<nat>, head: nat, lo: nat, hi: nat, b: nat, k: nat)
    requires Tiles(bs, lo, hi) && Links(m, head, fl) && b in bs && b !in fl && 3 <= k && k + 3 <= bs[b]
    requires forall c :: c in fl ==> c in bs
    requires CutAt(m, m', bs, b, k)
    ensures Links(m', head, fl)
  {
    Neighbour(bs, lo, hi, b);
    forall c | c in fl
      ensures m'[c + 1] == m[c + 1]
    {
      Neighbour(bs, lo, hi, c);
    }
    LinksKept(m, m', head, fl);
  }

  /** Block `b`, off the list, is cut at `k`: the front is in use, the rest is in limbo. */
  lemma CutCore(m: seq<Cell>, m': seq<Cell>, bs: Blocks, fl: seq<nat>, head: nat, lo: nat, hi: nat, b: nat, k: nat, y: nat)
    requires Core(m, bs, fl, head, lo, hi, b, 0) && b in bs && 3 <= k && k + 3 <= bs[b]
    requires CutAt(m, m', bs, b, k)
    requires y == b || (y == 0 && m'[b].lo == 16 * k)
    ensures b + k !in bs
    ensures Core(m', Split(bs, b, k), fl, head, lo, hi, b + k, y)
    ensures PayloadsKept(m, m', bs, fl, b)
  {
    SplitTiles(bs, lo, hi, b, k);
    CutLinks(m, m', bs, fl, head, lo, hi, b, k);
    CutBlocks(m, m', bs, fl, lo, hi, b, k, y);
    Neighbour(bs, lo, hi, b);
  }

  // -----------------------------------------------------------------------------
  // Handing out a whole free block

  /** `m'` marks block `b` in use and clears PREV to its right; list cells may differ. */
  ghost predicate TakenAt(m: seq<Cell>, m1: seq<Cell>, bs: Blocks, hi: nat, b: nat)
    requires b in bs
  {
    && |m1| == |m| && b + 3 <= b + bs[b] <= hi <= |m|
    && m1[b] == m[b].(hi := SetAlloc(m[b].hi))
    && (Next(bs, b) < hi ==> m1[Next(bs, b)] == m[Next(bs, b)].(hi := ClearPrev(m[Next(bs, b)].hi)))
    && (forall a {:trigger m1[a]} :: 0 <= a < |m| && a != b && a != Next(bs, b) ==> m1[a] == m[a])
  }

  lemma TakenLinks(m: seq<Cell>, m1: seq<Cell>, bs: Blocks, fl: seq<nat>, head: nat, lo: nat, hi: nat, b: nat)
    requires Tiles(bs, lo, hi) && Links(m, head, fl) && b in bs
    requires forall c :: c in fl ==> c in bs
    requires TakenAt(m, m1, bs, hi, b)
    ensures Links(m1, head, fl)
  {
    Neighbour(bs, lo, hi, b);
    forall c | c in fl
      ensures m1[c + 1] == m[c + 1]
    {
      Neighbour(bs, lo, hi, c);
    }
    LinksKept(m, m1, head, fl);
  }

  lemma TakenBlock(m: seq<Cell>, m1: seq<Cell>, m': seq<Cell>, bs: Blocks, fl: seq<nat>, r: seq<nat>, lo: nat, hi: nat, b: nat, c: nat)
    requires Tiles(bs, lo, hi) && b in bs && c in bs && b in fl && b !in r && hi <= |m|
    requires forall d :: d in fl ==> d in bs
    requires 3 <= bs[c] && BlockOk(m, bs, fl, hi, c, 0, 0) && 3 <= bs[b] && BlockOk(m, bs, fl, hi, b, 0, 0)
    requires TakenAt(m, m1, bs, hi, b) && SameOutside(m1, m', fl)
    requires c != b ==> (c in r <==> c in fl)
    ensures BlockOk(m', bs, r, hi, c, 0, 0)
    ensures c !in fl ==> forall k :: c < k < c + bs[c] ==> m'[k] == m[k]
  {
    UnlinkedBlock(m1, m', bs, fl, lo, hi, c);
    Neighbour(bs, lo, hi, b);
    Neighbour(bs, lo, hi, c);
  }

  lemma TakenCore(m: seq<Cell>, m1: seq<Cell>, m': seq<Cell>, bs: Blocks, fl: seq<nat>, head: nat, head': nat, lo: nat, hi: nat, i: nat)
    requires Core(m, bs, fl, head, lo, hi, 0, 0) && i < |fl| && fl[i] in bs
    requires TakenAt(m, m1, bs, hi, fl[i])
    requires SameOutside(m1, m', fl) && Links(m', head', RemoveAt(fl, i))
    ensures Core(m', bs, RemoveAt(fl, i), head', lo, hi, 0, 0)
    ensures PayloadsKept(m, m', bs, fl, 0)
  {
    var r, x := RemoveAt(fl, i), fl[i];
    RemoveAtMembers(fl, i);
    assert x in fl;
    forall c | c in bs
      ensures 3 <= bs[c] && c + bs[c] <= hi && BlockOk(m', bs, r, hi, c, 0, 0)
      ensures c !in fl ==> forall k :: c < k < c + bs[c] ==> m'[k] == m[k]
    {
      Neighbour(bs, lo, hi, c);
      TakenBlock(m, m1, m', bs, fl, r, lo, hi, x, c);
    }
    UnlinkedBlock(m1, m', bs, fl, lo, hi, lo);
  }

  // -----------------------------------------------------------------------------
  // Growing the arena by `n` cells

  lemma GrownTopCore(m: seq<Cell>, m': seq<Cell>, bs: Blocks, fl: seq<nat>, head: nat, lo: nat, hi: nat, t: nat, n: nat)
    requires Core(m, bs, fl, head, lo, hi, 0, 0) && t in fl && t in bs && Next(bs, t) == hi && hi + n <= |m|
    requires |m'| == |m|
    requires m'[t] == m[t].(lo := 16 * (bs[t] + n)) && m'[hi + n - 1] == m'[t]
    requires forall a {:trigger m'[a]} :: 0 <= a < |m| && a != t && a != hi + n - 1 ==> m'[a] == m[a]
    ensures Core(m', bs[t := bs[t] + n], fl, head, lo, hi + n, 0, 0)
    ensures PayloadsKept(m, m', bs, fl, 0)
  {
    Neighbour(bs, lo, hi, t);
    var bs' := bs[t := bs[t] + n];
    GrownTopBlocks(m, m', bs, fl, lo, hi, t, n);
    forall b | b in fl
      ensures m'[b + 1] == m[b + 1]
    {
      Neighbour(bs, lo, hi, b);
    }
    LinksKept(m, m', head, fl);
    GrownTopTiles(bs, lo, hi, t, n);
  }

  lemma GrownTopTiles(bs: Blocks, lo: nat, hi: nat, t: nat, n: nat)
    requires Tiles(bs, lo, hi) && t in bs && Next(bs, t) == hi
    ensures Tiles(bs[t := bs[t] + n], lo, hi + n)
  {
    var bs' := bs[t := bs[t] + n];
    forall b | b in bs'
      ensures Next(bs', b) == hi + n || Next(bs', b) in bs'
    {
      if b != t {
        Neighbour(bs, lo, hi, b);
        Neighbour(bs, lo, hi, t);
        assert Next(bs, b) == hi || Next(bs, b) in bs;
      }
    }
  }

  lemma GrownTopBlock(m: seq<Cell>, m': seq<Cell>, bs: Blocks, fl: seq<nat>, lo: nat, hi: nat, t: nat, n: nat, b: nat)
    requires Tiles(bs, lo, hi) && t in fl && t in bs && Next(bs, t) == hi && hi + n <= |m| == |m'|
    requires b in bs && 3 <= bs[b] && BlockOk(m, bs, fl, hi, b, 0, 0)
    requires m'[t] == m[t].(lo := 16 * (bs[t] + n)) && m'[hi + n - 1] == m'[t]
    requires forall a {:trigger m'[a]} :: 0 <= a < |m| && a != t && a != hi + n - 1 ==> m'[a] == m[a]
    ensures BlockOk(m', bs[t := bs[t] + n], fl, hi + n, b, 0, 0)
    ensures b !in fl ==> forall k :: b < k < b + bs[b] ==> m'[k] == m[k]
  {
    Neighbour(bs, lo, hi, t);
    Neighbour(bs, lo, hi, b);
  }

  lemma GrownTopBlocks(m: seq<Cell>, m': seq<Cell>, bs: Blocks, fl: seq<nat>, lo: nat, hi: nat, t: nat, n: nat)
    requires Tiles(bs, lo, hi) && BlocksOk(m, bs, fl, hi, 0, 0) && t in fl && t in bs && Next(bs, t) == hi && hi + n <= |m|
    requires |m'| == |m|
    requires m'[t] == m[t].(lo := 16 * (bs[t] + n)) && m'[hi + n - 1] == m'[t]
    requires forall a {:trigger m'[a]} :: 0 <= a < |m| && a != t && a != hi + n - 1 ==> m'[a] == m[a]
    ensures BlocksOk(m', bs[t := bs[t] + n], fl, hi + n, 0, 0)
    ensures PayloadsKept(m, m', bs, fl, 0)
  {
    var bs' := bs[t := bs[t] + n];
    forall b | b in bs
      ensures 3 <= bs[b] && b + bs[b] <= hi && BlockOk(m', bs', fl, hi + n, b, 0, 0)
      ensures b !in fl ==> forall k :: b < k < b + bs[b] ==> m'[k] == m[k]
    {
      Neighbour(bs, lo, hi, b);
      GrownTopBlock(m, m', bs, fl, lo, hi, t, n, b);
    }
  }

  /** A fresh block above an arena whose last block is in use. */
  lemma GrownFreshCore(m: seq<Cell>, m': seq<Cell>, bs: Blocks, fl: seq<nat>, head: nat, lo: nat, hi: nat, n: nat)
    requires Core(m, bs, fl, head, lo, hi, 0, 0) && 3 <= n && hi + n <= |m|
    requires forall b :: b in bs && b in fl ==> Next(bs, b) != hi
    requires |m'| == |m| && m'[hi] == Cell(16 * n, 0)
    requires forall a {:trigger m'[a]} :: 0 <= a < hi ==> m'[a] == m[a]
    ensures 0 < hi && hi !in bs
    ensures Core(m', bs[hi := n], fl, head, lo, hi + n, hi, 0)
    ensures PayloadsKept(m, m', bs, fl, 0)
  {
    assert hi !in bs;
    forall b | b in fl
      ensures m'[b + 1] == m[b + 1]
    {
      Neighbour(bs, lo, hi, b);
    }
    LinksKept(m, m', head, fl);
    GrownFreshBlocks(m, m', bs, fl, lo, hi, n);
    GrownFreshTiles(bs, lo, hi, n);
  }

  lemma GrownFreshBlocks(m: seq<Cell>, m': seq<Cell>, bs: Blocks, fl: seq<nat>, lo: nat, hi: nat, n: nat)
    requires Tiles(bs, lo, hi) && BlocksOk(m, bs, fl, hi, 0, 0) && 3 <= n && hi + n <= |m| && hi !in bs
    requires forall b :: b in bs && b in fl ==> Next(bs, b) != hi
    requires |m'| == |m| && m'[hi] == Cell(16 * n, 0)
    requires forall a {:trigger m'[a]} :: 0 <= a < hi ==> m'[a] == m[a]
    ensures BlocksOk(m', bs[hi := n], fl, hi + n, hi, 0)
    ensures PayloadsKept(m, m', bs, fl, 0)
  {
    var bs' := bs[hi := n];
    forall b | b in bs
      ensures 3 <= bs[b] && b + bs[b] <= hi && BlockOk(m', bs', fl, hi + n, b, hi, 0)
    {
      Neighbour(bs, lo, hi, b);
      GrownFreshBlock(m, m', bs, fl, hi, n, b);
    }
  }

  lemma GrownFreshBlock(m: seq<Cell>, m': seq<Cell>, bs: Blocks, fl: seq<nat>, hi: nat, n: nat, b: nat)
    requires b in bs && 3 <= bs[b] && 0 < b && b + bs[b] <= hi && hi + n <= |m| && hi !in bs
    requires b in fl ==> Next(bs, b) != hi
    requires BlockOk(m, bs, fl, hi, b, 0, 0)
    requires |m'| == |m| && 3 <= n && m'[hi] == Cell(16 * n, 0)
    requires forall a {:trigger m'[a]} :: 0 <= a < hi ==> m'[a] == m[a]
    ensures BlockOk(m', bs[hi := n], fl, hi + n, b, hi, 0)
  {
  }

  lemma GrownFreshTiles(bs: Blocks, lo: nat, hi: nat, n: nat)
    requires Tiles(bs, lo, hi) && 3 <= n && hi !in bs
    ensures Tiles(bs[hi := n], lo, hi + n)
  {
    var bs' := bs[hi := n];
    forall b | b in bs'
      ensures Next(bs', b) == hi + n || Next(bs', b) in bs'
    {
      if b != hi {
        assert Next(bs, b) == hi || Next(bs, b) in bs;
      }
    }
  }

  // -----------------------------------------------------------------------------
  // Writing inside the payload of a block in use

  lemma PayloadWrite(m: seq<Cell>, m': seq<Cell>, bs: Blocks, fl: seq<nat>, head: nat, lo: nat, hi: nat, y: nat, b: nat)
    requires Core(m, bs, fl, head, lo, hi, 0, y) && b in bs && b !in fl
    requires WrittenIn(m, m', b, Next(bs, b))
    ensures Core(m', bs, fl, head, lo, hi, 0, y)
    ensures PayloadsKept(m, m', bs, fl, b)
  {
    hide Links, BlocksOk, BlockOk, WrittenIn, PayloadsKept;
    PayloadWriteLinks(m, m', bs, fl, lo, hi, b);
    LinksKept(m, m', head, fl);
    PayloadWriteBlocks(m, m', bs, fl, lo, hi, y, b);
  }

  lemma PayloadWriteLinks(m: seq<Cell>, m': seq<Cell>, bs: Blocks, fl: seq<nat>, lo: nat, hi: nat, b: nat)
    requires Tiles(bs, lo, hi) && hi <= |m| && b in bs && b !in fl && WrittenIn(m, m', b, Next(bs, b))
    requires forall d :: d in fl ==> d in bs
    ensures |m'| == |m|
    ensures forall d :: d in fl && d + 1 < |m| ==> m'[d + 1] == m[d + 1]
  {
    Neighbour(bs, lo, hi, b);
    forall d | d in fl
      ensures m'[d + 1] == m[d + 1]
    {
      Neighbour(bs, lo, hi, d);
    }
  }

  /** Only cells strictly between a header at `b` and the block end `e` may differ. */
  ghost predicate WrittenIn(m: seq<Cell>, m': seq<Cell>, b: nat, e: nat) {
    |m'| == |m| && forall k {:trigger m'[k]} :: 0 <= k < |m| && (k <= b || e <= k) ==> m'[k] == m[k]
  }

  lemma PayloadWriteBlock(m: seq<Cell>, m': seq<Cell>, bs: Blocks, fl: seq<nat>, lo: nat, hi: nat, y: nat, b: nat, d: nat)
    requires Tiles(bs, lo, hi) && hi <= |m| && b in bs && b !in fl && d in bs
    requires WrittenIn(m, m', b, Next(bs, b))
    requires 3 <= bs[d] && BlockOk(m, bs, fl, hi, d, 0, y)
    ensures BlockOk(m', bs, fl, hi, d, 0, y)
    ensures m'[d] == m[d]
    ensures d != b ==> forall k :: d < k < d + bs[d] ==> m'[k] == m[k]
  {
    Neighbour(bs, lo, hi, b);
    Neighbour(bs, lo, hi, d);
  }

  lemma PayloadWriteBlocks(m: seq<Cell>, m': seq<Cell>, bs: Blocks, fl: seq<nat>, lo: nat, hi: nat, y: nat, b: nat)
    requires Tiles(bs, lo, hi) && BlocksOk(m, bs, fl, hi, 0, y) && hi <= |m|
    requires b in bs && b !in fl && WrittenIn(m, m', b, Next(bs, b))
    ensures BlocksOk(m', bs, fl, hi, 0, y)
    ensures PayloadsKept(m, m', bs, fl, b)
    ensures forall d :: d in bs && d < |m| ==> m'[d] == m[d]
  {
    forall d | d in bs
      ensures 3 <= bs[d] && Next(bs, d) <= hi <= |m'| && BlockOk(m', bs, fl, hi, d, 0, y)
      ensures m'[d] == m[d]
      ensures d != b ==> forall k :: d < k < d + bs[d] ==> m'[k] == m[k]
    {
      Neighbour(bs, lo, hi, d);
      PayloadWriteBlock(m, m', bs, fl, lo, hi, y, b, d);
    }
  }

  /** Bringing the stale size field of the block in use `y` up to date. */
  lemma SizeWrite(m: seq<Cell>, bs: Blocks, fl: seq<nat>, head: nat, lo: nat, hi: nat, y: nat)
    requires Core(m, bs, fl, head, lo, hi, 0, y) && y in bs
    ensures Core(m[y := m[y].(lo := 16 * bs[y])], bs, fl, head, lo, hi, 0, 0)
    ensures PayloadsKept(m, m[y := m[y].(lo := 16 * bs[y])], bs, fl, 0)
  {
    var m' := m[y := m[y].(lo := 16 * bs[y])];
    Neighbour(bs, lo, hi, y);
    HeaderLinks(m, bs, fl, head, lo, hi, y, m'[y]);
    forall d | d in bs
      ensures 3 <= bs[d] && d + bs[d] <= hi && BlockOk(m', bs, fl, hi, d, 0, 0)
      ensures !(d < y < d + bs[d])
    {
      Neighbour(bs, lo, hi, d);
      assert BlockOk(m, bs, fl, hi, d, 0, y);
    }
  }

  // -----------------------------------------------------------------------------
  // What the operations need to know at each point

  lemma UsedKept(m: seq<Cell>, m': seq<Cell>, bs: Blocks, fl: seq<nat>, x: nat)
    requires PayloadsKept(m, m', bs, fl, x)
    ensures Kept(m, m', Used(bs, fl, x))
  {
  }

  lemma KeptRefl(m: seq<Cell>, used: Blocks)
    ensures Kept(m, m, used)
  {
  }

  lemma NoBlockAtZero(bs: Blocks, lo: nat, hi: nat)
    requires Tiles(bs, lo, hi)
    ensures 0 !in bs
  {
    forall b | b in bs
      ensures b != 0
    {
      assert bs[b] >= 3;
    }
  }

  lemma UsedAt(bs: Blocks, fl: seq<nat>, x: nat, b: nat)
    requires b in Used(bs, fl, x)
    ensures b in bs && b !in fl && bs[b] == Used(bs, fl, x)[b]
  {
  }

  lemma KeptMore(m: seq<Cell>, m': seq<Cell>, used: Blocks, b: nat, k: nat)
    requires Kept(m, m', used[b := k]) && b !in used
    ensures Kept(m, m', used)
  {
    forall c, a | c in used && c < a < c + used[c] && a < |m|
      ensures m'[a] == m[a]
    {
      assert used[b := k][c] == used[c];
    }
  }

  lemma HeadFacts(m: seq<Cell>, head: nat, fl: seq<nat>)
    requires Links(m, head, fl)
    ensures head == if 0 < |fl| then fl[0] + 1 else NULL
  {
  }

  lemma UsedGrown(bs: Blocks, fl: seq<nat>, t: nat, n: nat)
    requires t in fl
    ensures Used(bs[t := n], fl, 0) == Used(bs, fl, 0)
  {
  }

  lemma UsedFresh(bs: Blocks, fl: seq<nat>, lo: nat, h: nat, n: nat)
    requires Tiles(bs, lo, h) && h !in bs
    ensures Used(bs[h := n], fl, h) == Used(bs, fl, 0)
  {
    NoBlockAtZero(bs, lo, h);
  }

  lemma AllocPayloads(m: seq<Cell>, m': seq<Cell>, used: Blocks, b: nat, n: nat)
    requires Kept(m, m', used) && b !in used
    ensures b !in Payloads(m, used)
    ensures Payloads(m', used[b := n]) == Payloads(m, used)[b := Payload(m', b, n)]
  {
    KeptPayloads(m, m', used);
  }

  lemma WritePayloads(m: seq<Cell>, m': seq<Cell>, bs: Blocks, fl: seq<nat>, b: nat)
    requires PayloadsKept(m, m', bs, fl, b) && 0 !in bs && b in bs && b !in fl
    ensures b in Payloads(m, Used(bs, fl, 0))
    ensures Payloads(m', Used(bs, fl, 0)) == Payloads(m, Used(bs, fl, 0))[b := Payload(m', b, bs[b])]
  {
    UsedFacts(bs, fl, b);
    UsedKept(m, m', bs, fl, b);
    KeptPayloads(m, m', Used(bs, fl, b));
    var used := Used(bs, fl, 0);
    forall c | c in used && c != b
      ensures Payload(m', c, used[c]) == Payload(m, c, used[c])
    {
      assert c in Used(bs, fl, b) && Used(bs, fl, b)[c] == used[c];
      assert Payloads(m', Used(bs, fl, b))[c] == Payloads(m, Used(bs, fl, b))[c];
    }
  }

  /** What a client buffer looks like in memory. */
  lemma BufferFacts(m: seq<Cell>, bs: Blocks, fl: seq<nat>, head: nat, lo: nat, hi: nat, b: nat)
    requires Core(m, bs, fl, head, lo, hi, 0, 0) && b in Payloads(m, Used(bs, fl, 0))
    ensures b in bs && b !in fl && 0 !in bs && 0 < b && b + 3 <= Next(bs, b) <= hi <= |m|
    ensures Payloads(m, Used(bs, fl, 0))[b] == m[b + 1..b + bs[b]]
    ensures m[b].lo == 16 * bs[b] && m[b].hi <= 3 && IsAlloc(m[b].hi)
  {
    hide Links, BlocksOk;
    UsedAt(bs, fl, 0, b);
    NoBlockAtZero(bs, lo, hi);
    TagFacts(m, bs, fl, head, lo, hi, b);
  }

  lemma KeptFront(m: seq<Cell>, m': seq<Cell>, u: Blocks, b: nat, k: nat)
    requires Kept(m, m', u) && b !in u
    requires forall a :: b < a < b + k && a < |m| ==> m'[a] == m[a]
    ensures Kept(m, m', u[b := k])
  {
    var u' := u[b := k];
    forall c, a | c in u' && c < a < c + u'[c] && a < |m|
      ensures m'[a] == m[a]
    {
      if c != b {
        assert u'[c] == u[c];
      }
    }
  }

  lemma StaleFacts(m: seq<Cell>, bs: Blocks, fl: seq<nat>, head: nat, lo: nat, hi: nat, b: nat)
    requires Core(m, bs, fl, head, lo, hi, 0, b) && b in bs
    ensures 0 < b && b !in fl && b + 3 <= Next(bs, b) <= hi <= |m|
  {
    NoBlockAtZero(bs, lo, hi);
    Neighbour(bs, lo, hi, b);
  }

  /** The last two writes of an in-place shrink: the size field, and a footer on the last
      payload cell.  All else in use stays. */
  lemma SplitTailKept(m0: seq<Cell>, m2: seq<Cell>, m3: seq<Cell>, m4: seq<Cell>, bs: Blocks, fl: seq<nat>, lo: nat, hi: nat, u: Blocks, b: nat, k: nat)
    requires b !in u && 3 <= k && b + k <= |m2|
    requires Kept(m0, m2, u[b := k])
    requires m3 == m2[b := m2[b].(lo := 16 * k)] && PayloadsKept(m2, m3, bs, fl, 0)
    requires m4 == m3[b + k - 1 := m3[b]] && PayloadsKept(m3, m4, bs, fl, b)
    requires Tiles(bs, lo, hi) && b in bs && Used(bs, fl, 0) == u[b := k]
    ensures Kept(m0, m4, u)
    ensures forall a :: b < a < b + k - 1 ==> m4[a] == m0[a]
  {
    hide Tiles;
    NoBlockAtZero(bs, lo, hi);
    UsedFacts(bs, fl, b);
    UsedKept(m2, m3, bs, fl, 0);
    UsedKept(m3, m4, bs, fl, b);
    assert u[b := k] - {b} == u;
    KeptMore(m0, m2, u, b, k);
    KeptMore(m2, m3, u, b, k);
    KeptTrans(m0, m2, m3, u);
    KeptTrans(m0, m3, m4, u);
    forall a | b < a < b + k - 1
      ensures m4[a] == m0[a]
    {
      assert u[b := k][b] == k && m2[a] == m0[a];
    }
  }

  lemma ShrunkPayloads(m: seq<Cell>, m': seq<Cell>, used: Blocks, b: nat, k: nat)
    requires b in used && 3 <= k <= used[b] && b + used[b] <= |m|
    requires Kept(m, m', used - {b})
    requires forall a :: b < a < b + k - 1 ==> m'[a] == m[a]
    ensures Payloads(m', (used - {b})[b := k]) == Payloads(m, used)[b := Payload(m, b, used[b])[..k - 2] + [m'[b + k - 1]]]
  {
    KeptPayloads(m, m', used - {b});
    assert Payload(m', b, k) == Payload(m, b, used[b])[..k - 2] + [m'[b + k - 1]];
    forall c | c in used && c != b
      ensures Payload(m', c, used[c]) == Payload(m, c, used[c])
    {
      assert Payloads(m', used - {b})[c] == Payloads(m, used - {b})[c];
    }
  }

  lemma BuffersApart(bs: Blocks, lo: nat, hi: nat, b: nat, c: nat)
    requires Tiles(bs, lo, hi) && b in bs && c in bs && b != c
    ensures Next(bs, b) <= c || Next(bs, c) <= b
  {
  }

  /** Writing inside one buffer changes that buffer and nothing else. */
  lemma BufferWrite(m: seq<Cell>, m': seq<Cell>, bs: Blocks, fl: seq<nat>, head: nat, lo: nat, hi: nat, b: nat)
    requires Core(m, bs, fl, head, lo, hi, 0, 0) && b in Payloads(m, Used(bs, fl, 0))
    requires WrittenIn(m, m', b, b + 1 + |Payloads(m, Used(bs, fl, 0))[b]|)
    ensures Core(m', bs, fl, head, lo, hi, 0, 0)
    ensures b + 1 + |Payloads(m, Used(bs, fl, 0))[b]| <= |m'|
    ensures Payloads(m', Used(bs, fl, 0)) == Payloads(m, Used(bs, fl, 0))[b := m'[b + 1..b + 1 + |Payloads(m, Used(bs, fl, 0))[b]|]]
  {
    hide Links, Tiles, BlocksOk, Used, PayloadsKept, Payloads;
    BufferFacts(m, bs, fl, head, lo, hi, b);
    PayloadWrite(m, m', bs, fl, head, lo, hi, 0, b);
    WritePayloads(m, m', bs, fl, b);
  }

  lemma BuffersDisjoint(m: seq<Cell>, bs: Blocks, fl: seq<nat>, head: nat, lo: nat, hi: nat, b: nat, c: nat)
    requires Core(m, bs, fl, head, lo, hi, 0, 0) && b != c
    requires b in Payloads(m, Used(bs, fl, 0)) && c in Payloads(m, Used(bs, fl, 0))
    ensures b + |Payloads(m, Used(bs, fl, 0))[b]| < c || c + |Payloads(m, Used(bs, fl, 0))[c]| < b
  {
    hide Links, BlocksOk, Used, Payloads;
    BufferFacts(m, bs, fl, head, lo, hi, b);
    BufferFacts(m, bs, fl, head, lo, hi, c);
    BuffersApart(bs, lo, hi, b, c);
  }

  lemma FreePayloads(m: seq<Cell>, m': seq<Cell>, used: Blocks, b: nat)
    requires Kept(m, m', used - {b})
    ensures Payloads(m', used - {b}) == Payloads(m, used) - {b}
  {
    KeptPayloads(m, m', used - {b});
  }

  lemma UsedLinked(bs: Blocks, fl: seq<nat>, lo: nat, hi: nat, x: nat)
    requires Tiles(bs, lo, hi)
    ensures Used(bs, [x] + fl, 0) == Used(bs, fl, x)
  {
    NoBlockAtZero(bs, lo, hi);
  }

  lemma KeptTrans(m: seq<Cell>, m1: seq<Cell>, m': seq<Cell>, used: Blocks)
    requires Kept(m, m1, used) && Kept(m1, m', used)
    ensures Kept(m, m', used)
  {
    forall b, k | b in used && b < k < b + used[b] && k < |m|
      ensures m'[k] == m[k]
    {
      assert m1[k] == m[k];
    }
  }

  /** The tags of a block off the list and of its right neighbour read as intended. */
  lemma LimboFacts(m: seq<Cell>, bs: Blocks, fl: seq<nat>, head: nat, lo: nat, hi: nat, x: nat, y: nat)
    requires Core(m, bs, fl, head, lo, hi, x, y) && x in bs && (x != y || y == 0)
    ensures 0 < x && x + 3 <= Next(bs, x) <= hi <= |m| && m[x].lo == 16 * bs[x]
    ensures Next(bs, x) < hi ==>
              && Next(bs, x) in bs
              && (Next(bs, x) in fl <==> !IsAlloc(m[Next(bs, x)].hi))
              && (Next(bs, x) in fl ==> m[Next(bs, x)].lo == 16 * bs[Next(bs, x)])
  {
    Neighbour(bs, lo, hi, x);
    if Next(bs, x) < hi {
      assert BlockOk(m, bs, fl, hi, Next(bs, x), x, y);
    }
  }

  /** Between operations the ALLOC bit says exactly whether a block is in use. */
  lemma TagFacts(m: seq<Cell>, bs: Blocks, fl: seq<nat>, head: nat, lo: nat, hi: nat, b: nat)
    requires Core(m, bs, fl, head, lo, hi, 0, 0) && b in bs
    ensures 0 < b && b + 3 <= Next(bs, b) <= hi <= |m| && m[b].lo == 16 * bs[b] && m[b].hi <= 3
    ensures IsAlloc(m[b].hi) <==> b !in fl
    ensures b in Used(bs, fl, 0) <==> b !in fl
    ensures Used(bs, fl, b) == Used(bs, fl, 0) - {b}
  {
    hide Links, Used;
    Neighbour(bs, lo, hi, b);
    assert BlockOk(m, bs, fl, hi, b, 0, 0);
    NoBlockAtZero(bs, lo, hi);
    UsedFacts(bs, fl, b);
  }

  lemma UsedFacts(bs: Blocks, fl: seq<nat>, b: nat)
    requires b in bs && 0 !in bs
    ensures b in Used(bs, fl, 0) <==> b !in fl
    ensures Used(bs, fl, b) == Used(bs, fl, 0) - {b}
  {
  }

  /** PREV set on a block off the list leads to its free left neighbour through the footer. */
  lemma LeftFacts(m: seq<Cell>, bs: Blocks, fl: seq<nat>, head: nat, lo: nat, hi: nat, x: nat) returns (p: nat)
    requires Core(m, bs, fl, head, lo, hi, x, 0) && x in bs && IsPrev(m[x].hi)
    ensures p in bs && p in fl && Next(bs, p) == x
    ensures m[x - 1].lo == 16 * bs[p] && m[p].lo == 16 * bs[p] && m[p].hi == 0
  {
    p := LeftNeighbour(bs, lo, hi, x);
    Neighbour(bs, lo, hi, p);
    assert BlockOk(m, bs, fl, hi, p, x, 0);
  }

  /** Some listed block ends where `b` starts. */
  ghost predicate LeftFree(bs: Blocks, fl: seq<nat>, b: nat) {
    exists c :: c in fl && c in bs && Next(bs, c) == b
  }

  /** The PREV bit says whether the left neighbour is free. */
  lemma PrevIff(m: seq<Cell>, bs: Blocks, fl: seq<nat>, head: nat, lo: nat, hi: nat, b: nat)
    requires Core(m, bs, fl, head, lo, hi, 0, 0) && b in bs
    ensures b < |m| && (IsPrev(m[b].hi) <==> LeftFree(bs, fl, b))
  {
    hide Links;
    Neighbour(bs, lo, hi, b);
    if b != lo {
      var p := LeftNeighbour(bs, lo, hi, b);
      Neighbour(bs, lo, hi, p);
      assert BlockOk(m, bs, fl, hi, p, 0, 0);
      forall c | c in fl && c in bs && Next(bs, c) == b
        ensures c == p
      {
        Neighbour(bs, lo, hi, c);
      }
    } else {
      forall c | c in bs
        ensures Next(bs, c) != b
      {
        Neighbour(bs, lo, hi, c);
      }
    }
  }

  /** The header of an absorbed block is left as it was. */
  lemma HeaderKept(m0: seq<Cell>, m1: seq<Cell>, m: seq<Cell>, bs: Blocks, fl: seq<nat>, head: nat, lo: nat, hi: nat, x: nat, p: nat)
    requires Core(m0, bs, fl, head, lo, hi, x, 0) && x in bs && p in bs && Next(bs, p) == x
    requires |m1| == |m0| && m1[x] == m0[x] && SameOutside(m1, m, fl)
    ensures x < |m| && m[x] == m0[x] && x !in Merged(bs, p) && p + 3 <= x && x + 3 <= Next(Merged(bs, p), p)
  {
    hide Links, BlocksOk;
    Neighbour(bs, lo, hi, p);
    Neighbour(bs, lo, hi, x);
    UnlinkedBlock(m1, m, bs, fl, lo, hi, x);
  }

  lemma MergedUsed(bs: Blocks, fl: seq<nat>, i: nat, z: nat, x: nat)
    requires z in bs && Next(bs, z) in bs && i < |fl| && bs[z] > 0
    requires forall a, b :: 0 <= a < b < |fl| ==> fl[a] != fl[b]
    requires (x == z && fl[i] == Next(bs, z)) || (x == Next(bs, z) && fl[i] == z)
    ensures Used(Merged(bs, z), RemoveAt(fl, i), z) == Used(bs, fl, x)
  {
    RemoveAtMembers(fl, i);
    assert fl[i] in fl;
  }

  /** Absorbing the free right neighbour of `x`; the block after it is in use. */
  lemma AbsorbRight(m: seq<Cell>, m': seq<Cell>, bs: Blocks, fl: seq<nat>, head: nat, head': nat, lo: nat, hi: nat, x: nat, y: nat, i: nat)
    requires Core(m, bs, fl, head, lo, hi, x, y) && x in bs && x != y && i < |fl|
    requires Next(bs, x) in bs && fl[i] == Next(bs, x)
    requires |m'| == |m|
    requires SameOutside(m[x := m[x].(lo := 16 * (bs[x] + bs[Next(bs, x)]))], m', fl)
    requires Links(m', head', RemoveAt(fl, i))
    ensures Core(m', Merged(bs, x), RemoveAt(fl, i), head', lo, hi, x, y)
    ensures m'[x].hi == m[x].hi
    ensures Next(Merged(bs, x), x) < hi ==> IsAlloc(m'[Next(Merged(bs, x), x)].hi)
    ensures Used(Merged(bs, x), RemoveAt(fl, i), x) == Used(bs, fl, x)
    ensures Kept(m, m', Used(bs, fl, x))
  {
    hide Links, PayloadsKept, SameOutside;
    var nx := Next(bs, x);
    Neighbour(bs, lo, hi, x);
    Neighbour(bs, lo, hi, nx);
    AbsorbedCore(m, m', bs, fl, head, head', lo, hi, x, x, y, i);
    UsedKept(m, m', bs, fl, x);
    MergedUsed'(m, bs, fl, head, i, x, x);
    if Next(bs, nx) < hi {
      AfterFree(m, bs, fl, hi, x, y, nx);
      AfterAbsorb(m', bs, fl, hi, x, y, i);
    }
  }

  lemma MergedUsed'(m: seq<Cell>, bs: Blocks, fl: seq<nat>, head: nat, i: nat, z: nat, x: nat)
    requires Links(m, head, fl)
    requires z in bs && Next(bs, z) in bs && i < |fl| && bs[z] > 0
    requires (x == z && fl[i] == Next(bs, z)) || (x == Next(bs, z) && fl[i] == z)
    ensures Used(Merged(bs, z), RemoveAt(fl, i), z) == Used(bs, fl, x)
    ensures fl[i] in fl
    ensures forall c :: c in RemoveAt(fl, i) ==> c in fl
  {
    MergedUsed(bs, fl, i, z, x);
    RemoveAtMembers(fl, i);
    assert fl[i] in fl;
  }

  lemma AfterFree(m: seq<Cell>, bs: Blocks, fl: seq<nat>, hi: nat, x: nat, y: nat, b: nat)
    requires BlocksOk(m, bs, fl, hi, x, y) && b in bs && b in fl && b != x && x < b
    requires Next(bs, b) < hi && Next(bs, b) in bs
    ensures Next(bs, b) !in fl
  {
    assert BlockOk(m, bs, fl, hi, b, x, y);
    assert bs[Next(bs, b)] == bs[Next(bs, b)];
  }

  lemma AfterAbsorb(m': seq<Cell>, bs: Blocks, fl: seq<nat>, hi: nat, x: nat, y: nat, i: nat)
    requires x in bs && Next(bs, x) in bs && i < |fl| && fl[i] == Next(bs, x) && 0 < bs[x] && 0 < bs[Next(bs, x)]
    requires BlocksOk(m', Merged(bs, x), RemoveAt(fl, i), hi, x, y)
    requires Next(bs, Next(bs, x)) < hi && Next(bs, Next(bs, x)) in bs && Next(bs, Next(bs, x)) !in fl
    requires forall c :: c in RemoveAt(fl, i) ==> c in fl
    ensures Next(bs, Next(bs, x)) < |m'| && IsAlloc(m'[Next(bs, Next(bs, x))].hi)
  {
    var nn := Next(bs, Next(bs, x));
    assert nn in Merged(bs, x) && Merged(bs, x)[nn] == bs[nn];
  }

  /** Block `x` disappears into its free left neighbour `p`. */
  lemma AbsorbLeft(m: seq<Cell>, m': seq<Cell>, bs: Blocks, fl: seq<nat>, head: nat, head': nat, lo: nat, hi: nat, x: nat, p: nat, i: nat)
    requires Core(m, bs, fl, head, lo, hi, x, 0) && x in bs && i < |fl|
    requires p in bs && fl[i] == p && Next(bs, p) == x
    requires Next(bs, x) < hi ==> IsAlloc(m[Next(bs, x)].hi)
    requires |m'| == |m|
    requires SameOutside(m[p := m[p].(lo := 16 * (bs[p] + bs[x]))], m', fl)
    requires Links(m', head', RemoveAt(fl, i))
    ensures Core(m', Merged(bs, p), RemoveAt(fl, i), head', lo, hi, p, 0)
    ensures m'[p].hi == m[p].hi
    ensures Next(Merged(bs, p), p) < hi ==> IsAlloc(m'[Next(Merged(bs, p), p)].hi)
    ensures Used(Merged(bs, p), RemoveAt(fl, i), p) == Used(bs, fl, x)
    ensures Kept(m, m', Used(bs, fl, x))
  {
    hide Links, PayloadsKept, SameOutside;
    Neighbour(bs, lo, hi, x);
    Neighbour(bs, lo, hi, p);
    AbsorbedCore(m, m', bs, fl, head, head', lo, hi, x, p, 0, i);
    UsedKept(m, m', bs, fl, x);
    MergedUsed'(m, bs, fl, head, i, p, x);
    if Next(bs, x) < hi {
      var nn := Next(bs, x);
      assert BlockOk(m, bs, fl, hi, nn, x, 0);
      assert nn in Merged(bs, p) && Merged(bs, p)[nn] == bs[nn];
    }
  }

  /** The first node worth looking at when the list is walked. */
  lemma NodeFacts(m: seq<Cell>, bs: Blocks, fl: seq<nat>, head: nat, lo: nat, hi: nat, i: nat)
    requires Core(m, bs, fl, head, lo, hi, 0, 0) && i < |fl|
    ensures fl[i] in bs && fl[i] in fl && 0 < fl[i] && fl[i] + 3 <= Next(bs, fl[i]) <= hi <= |m|
    ensures m[fl[i]] == Cell(16 * bs[fl[i]], 0) && m[Next(bs, fl[i]) - 1] == m[fl[i]]
    ensures m[fl[i] + 1].hi == NextOf(fl, i)
    ensures Next(bs, fl[i]) < hi ==> Next(bs, fl[i]) in bs && IsAlloc(m[Next(bs, fl[i])].hi) && m[Next(bs, fl[i])].hi <= 3
  {
    assert fl[i] in fl && LinkAt(m, fl, i);
    Neighbour(bs, lo, hi, fl[i]);
    assert BlockOk(m, bs, fl, hi, fl[i], 0, 0);
    if Next(bs, fl[i]) < hi {
      assert BlockOk(m, bs, fl, hi, Next(bs, fl[i]), 0, 0);
    }
  }

  lemma StartFacts(m: seq<Cell>, bs: Blocks, fl: seq<nat>, head: nat, lo: nat, hi: nat, b: nat)
    requires Core(m, bs, fl, head, lo, hi, 0, 0) && b in bs
    ensures 0 < lo <= b && hi <= |m| && MIN_BLOCK <= 16 * bs[b]
  {
  }

  lemma TakenUsed(m: seq<Cell>, bs: Blocks, fl: seq<nat>, head: nat, lo: nat, hi: nat, i: nat)
    requires Tiles(bs, lo, hi) && Links(m, head, fl) && i < |fl| && fl[i] in bs
    ensures Used(bs, RemoveAt(fl, i), fl[i]) == Used(bs, fl, 0)
    ensures Used(bs, RemoveAt(fl, i), 0) == Used(bs, fl, 0)[fl[i] := bs[fl[i]]]
    ensures fl[i] !in Used(bs, fl, 0)
  {
    RemoveAtMembers(fl, i);
    assert fl[i] in fl;
    NoBlockAtZero(bs, lo, hi);
  }

  lemma CutUsed(bs: Blocks, fl: seq<nat>, lo: nat, hi: nat, b: nat, k: nat)
    requires Tiles(bs, lo, hi) && b in bs && b !in fl && k < bs[b] && b + k !in bs
    ensures Used(Split(bs, b, k), fl, b + k) == Used(bs, fl, b)[b := k]
    ensures Used(bs, fl, b) == Used(bs, fl, 0) - {b}
  {
    NoBlockAtZero(bs, lo, hi);
    hide Tiles;
    CutSplitUsed(bs, fl, b, k);
  }

  lemma CutSplitUsed(bs: Blocks, fl: seq<nat>, b: nat, k: nat)
    requires b in bs && b !in fl && k < bs[b] && b + k !in bs
    ensures Used(Split(bs, b, k), fl, b + k) == Used(bs, fl, b)[b := k]
  {
  }
}
