/** User memory as bytes at virtual addresses, and the copies between it and kernel buffers. */
module UserBytes {
  import opened Common
  import opened PageTable
  import opened Ownership
  import opened AddressSpaces
  import opened Frames
  import opened Teardown
  import opened Records
  import opened Fork

  const USER_BYTES: nat := 0x8000_0000_0000
  const WORD: nat := 0x1_0000_0000_0000_0000

  /** 64-bit addition. */
  function Add64(a: nat, b: nat): nat { (a + b) % WORD }

  /** The byte a user program sees at address `a`. */
  function ByteAt(m: Memory, s: nat, a: nat): Option<byte> {
    var e := Leaf(m, s, PageOf(a / FRAME_BYTES));
    if e.flags.present && e.frame < |m| && IsData(m[e.frame]) then Some(m[e.frame].bytes[a % FRAME_BYTES]) else None
  }

  /** Distinct user pages of `s` lie in distinct data frames, all its own. */
  ghost predicate Private(m: Memory, s: nat, ow: Owners) {
    && (forall v :: UserPage(v) && Leaf(m, s, v).flags.present ==>
          && Leaf(m, s, v).frame in ow && ow[Leaf(m, s, v).frame] == DataOf(s)
          && Leaf(m, s, v).frame < |m| && IsData(m[Leaf(m, s, v).frame]))
    && (forall v, w :: UserPage(v) && UserPage(w) && v != w && Leaf(m, s, v).flags.present && Leaf(m, s, w).flags.present ==>
          Leaf(m, s, v).frame != Leaf(m, s, w).frame)
  }

  /** The bytes from `va` on are now `data`; every other byte of `s` is as it was. */
  ghost predicate BytesSet(m: Memory, m': Memory, s: nat, va: nat, data: seq<byte>) {
    forall a: nat {:trigger ByteAt(m', s, a)} :: a < USER_BYTES ==>
      ByteAt(m', s, a) == if va <= a < va + |data| then Some(data[a - va]) else ByteAt(m, s, a)
  }

  ghost predicate BytesSame(m: Memory, m': Memory, s: nat) {
    forall a: nat {:trigger ByteAt(m', s, a)} :: a < USER_BYTES ==> ByteAt(m', s, a) == ByteAt(m, s, a)
  }

  /** Data frames that do not belong to `s` are untouched. */
  ghost predicate OthersData(m: Memory, m': Memory, ow: Owners, s: nat) {
    |m'| == |m| && forall f {:trigger m'[f]} :: f in ow && ow[f] != DataOf(s) && f < |m| ==> m'[f] == m[f]
  }

  /** A space whose mapped pages are all recorded is private. */
  lemma BackedPrivate(m: Memory, sp: Spaces, ow: Owners, s: nat)
    requires Inv(m, sp, ow) && s in sp && Backed(m, s, sp[s])
    ensures Private(m, s, ow)
  {
    hide NoHuge, Leaf, PageOf, UserPage, NodesOwned, OwnersAreNodes, OwnersAreData;
    forall v | UserPage(v) && Leaf(m, s, v).flags.present
      ensures Leaf(m, s, v).frame in ow && ow[Leaf(m, s, v).frame] == DataOf(s)
      ensures Leaf(m, s, v).frame < |m| && IsData(m[Leaf(m, s, v).frame])
    {
      var i :| 0 <= i < |sp[s]| && PageOf(sp[s][i].virt) == v && sp[s][i].frame == Leaf(m, s, v).frame;
      assert sp[s][i].frame in ow;
    }
    forall v, w | UserPage(v) && UserPage(w) && v != w && Leaf(m, s, v).flags.present && Leaf(m, s, w).flags.present
      ensures Leaf(m, s, v).frame != Leaf(m, s, w).frame
    {
      var i :| 0 <= i < |sp[s]| && PageOf(sp[s][i].virt) == v && sp[s][i].frame == Leaf(m, s, v).frame;
      var j :| 0 <= j < |sp[s]| && PageOf(sp[s][j].virt) == w && sp[s][j].frame == Leaf(m, s, w).frame;
      if i < j {
        assert sp[s][i].frame != sp[s][j].frame;
      } else {
        assert sp[s][j].frame != sp[s][i].frame;
      }
    }
  }

  lemma AgreesPrivate(m: Memory, sp: Spaces, ow: Owners, s: nat)
    requires Inv(m, sp, ow) && s in sp && Agrees(m, s, sp[s])
    ensures Private(m, s, ow)
  {
    hide *;
    AgreesBacked(m, s, sp[s]);
    BackedPrivate(m, sp, ow, s);
  }

  /** Other private spaces do not notice. */
  lemma OthersSee(m: Memory, m': Memory, sp: Spaces, ow: Owners, s: nat, t: nat)
    requires LeavesSame(m, m', sp) && OthersData(m, m', ow, s) && t in sp && t != s && Private(m, t, ow)
    ensures BytesSame(m, m', t)
  {
    hide Leaf, PageOf, UserPage;
    forall a: nat | a < USER_BYTES
      ensures ByteAt(m', t, a) == ByteAt(m, t, a)
    {
      UserAddress(a);
      var v := PageOf(a / FRAME_BYTES);
      assert Leaf(m', t, v) == Leaf(m, t, v);
      if Leaf(m, t, v).flags.present {
        assert m'[Leaf(m, t, v).frame] == m[Leaf(m, t, v).frame];
      }
    }
  }

  lemma UserAddress(a: nat)
    requires a < USER_BYTES
    ensures a / FRAME_BYTES < USER_PAGES && UserPage(PageOf(a / FRAME_BYTES)) && PageNumber(PageOf(a / FRAME_BYTES)) == a / FRAME_BYTES
    ensures a == a / FRAME_BYTES * FRAME_BYTES + a % FRAME_BYTES
  {
    hide PageOf, PageNumber, UserPage;
    assert a / FRAME_BYTES < USER_PAGES;
    PageRoundTrip(a / FRAME_BYTES);
  }

  function Splice(b: seq<byte>, off: nat, data: seq<byte>): (r: seq<byte>)
    requires off + |data| <= |b|
    ensures |r| == |b|
    ensures forall i :: 0 <= i < |r| ==> r[i] == if off <= i < off + |data| then data[i - off] else b[i]
  {
    b[..off] + data + b[off + |data|..]
  }

  lemma ChunkWritten(m: Memory, m': Memory, s: nat, ow: Owners, va: nat, data: seq<byte>)
    requires Private(m, s, ow) && va < USER_BYTES && va % FRAME_BYTES + |data| <= FRAME_BYTES
    requires |m'| == |m| && forall v :: UserPage(v) ==> Leaf(m', s, v) == Leaf(m, s, v)
    requires UserPage(PageOf(va / FRAME_BYTES)) && Leaf(m, s, PageOf(va / FRAME_BYTES)).flags.present
    requires var f := Leaf(m, s, PageOf(va / FRAME_BYTES)).frame;
             && (forall g :: 0 <= g < |m| && g != f ==> m'[g] == m[g])
             && f < |m| && IsData(m[f]) && m'[f] == Data(Splice(m[f].bytes, va % FRAME_BYTES, data))
    ensures BytesSet(m, m', s, va, data)
  {
    hide Leaf, PageOf, UserPage, PageNumber, Splice;
    UserAddress(va);
    forall a: nat | a < USER_BYTES
      ensures ByteAt(m', s, a) == if va <= a < va + |data| then Some(data[a - va]) else ByteAt(m, s, a)
    {
      UserAddress(a);
      var v := PageOf(a / FRAME_BYTES);
      assert Leaf(m', s, v) == Leaf(m, s, v);
      if a / FRAME_BYTES == va / FRAME_BYTES {
        assert a - va == a % FRAME_BYTES - va % FRAME_BYTES;
      } else {
        assert v != PageOf(va / FRAME_BYTES);
        assert !(va <= a < va + |data|);
        if Leaf(m, s, v).flags.present {
          assert Leaf(m, s, v).frame != Leaf(m, s, PageOf(va / FRAME_BYTES)).frame;
        }
      }
    }
  }

  lemma StillPrivate(m: Memory, m': Memory, s: nat, ow: Owners)
    requires Private(m, s, ow) && |m'| == |m| && forall v :: UserPage(v) ==> Leaf(m', s, v) == Leaf(m, s, v)
    requires forall g :: 0 <= g < |m| && IsData(m[g]) ==> IsData(m'[g])
    ensures Private(m', s, ow)
  {
    hide Leaf, PageOf, UserPage;
  }

  /** Writes a chunk that stays inside one mapped page, through the frame behind it.  The
      null test of the source never fires: a mapped page has a frame other than 0. */
  method Poke(mc: Machine, s: nat, va: nat, data: seq<byte>)
    requires mc.Ready() && s in mc.spaces && Private(mc.mem, s, mc.owner)
    requires va < USER_BYTES && va % FRAME_BYTES + |data| <= FRAME_BYTES
    requires Leaf(mc.mem, s, PageOf(va / FRAME_BYTES)).flags.present
    modifies mc`mem
    ensures mc.Ready() && Private(mc.mem, s, mc.owner)
    ensures LeavesSame(old(mc.mem), mc.mem, mc.spaces) && OthersData(old(mc.mem), mc.mem, mc.owner, s)
    ensures BytesSet(old(mc.mem), mc.mem, s, va, data) && GrewAt(old(mc.mem), mc.mem, s, {})
  {
    hide Inv, KernelShared, RecordsBounded, Pmm.FreeSet, Pmm.Sized, Partition, Leaf, UserPage, PageOf, PageNumber, Splice, BytesSet,
         VirtToPhys, GrewAt;
    UserAddress(va);
    var v, off := PageOf(va / FRAME_BYTES), va % FRAME_BYTES;
    FrameOfPage(mc, s, v, off);
    var phys := VirtToPhys(mc.mem, s, v, off);
    assert phys != 0;
    var f := phys / FRAME_BYTES;
    ghost var m1 := mc.mem;
    mc.mem := mc.mem[f := Data(Splice(mc.mem[f].bytes, off, data))];
    FrameWritten(m1, mc.mem, mc.spaces, mc.owner, f, mc.mem[f]);
    FrameKeepsKernel(m1, mc.mem, mc.spaces, mc.owner, mc.kroot, f, mc.mem[f]);
    StillPrivate(m1, mc.mem, s, mc.owner);
    SameTables(m1, mc.mem, mc.spaces, mc.owner, s, f);
    ChunkWritten(m1, mc.mem, s, mc.owner, va, data);
  }

  /** Writing a data frame moves no table. */
  lemma SameTables(m: Memory, m': Memory, sp: Spaces, ow: Owners, s: nat, f: nat)
    requires Inv(m, sp, ow) && s in sp && |m'| == |m| && f in ow && ow[f].DataOf? && forall g :: 0 <= g < |m| && g != f ==> m'[g] == m[g]
    ensures GrewAt(m, m', s, {})
  {
    hide NoHuge, OwnersAreNodes, DataOwned, OwnersAreData, Node, UserPath;
    Untouched(m, m', sp, ow, s, {f});
  }

  lemma FrameOfPage(mc: Machine, s: nat, v: Page, off: nat)
    requires mc.Ready() && s in mc.spaces && Private(mc.mem, s, mc.owner) && UserPage(v) && off < FRAME_BYTES
    requires Leaf(mc.mem, s, v).flags.present
    ensures var f := Leaf(mc.mem, s, v).frame;
            && f in mc.owner && mc.owner[f] == DataOf(s) && f != 0 && f != mc.kroot && f < |mc.mem| && IsData(mc.mem[f])
            && VirtToPhys(mc.mem, s, v, off) == f * FRAME_BYTES + off
            && VirtToPhys(mc.mem, s, v, off) / FRAME_BYTES == f && VirtToPhys(mc.mem, s, v, off) != 0
  {
    hide Leaf, UserPage, NoHuge, VirtToPhys;
    WalksReadLeaf(mc.mem, s, v, off);
    assert Leaf(mc.mem, s, v).frame in mc.pool;
  }
}
