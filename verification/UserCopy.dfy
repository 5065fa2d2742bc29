/** Copies between kernel buffers and user memory, with the check that comes before them. */
module UserCopy {
  import opened Common
  import opened PageTable
  import opened Ownership
  import opened AddressSpaces
  import opened Frames
  import opened UserBytes

  predicate Accessible(e: Pte, needWrite: bool) {
    e.flags.present && e.flags.user && (needWrite ==> e.flags.write)
  }

  /** A nonempty range in the lower half, every byte of it backed by an accessible page. */
  ghost predicate RangeOk(m: Memory, s: nat, start: nat, len: nat, needWrite: bool) {
    && 0 < len && start + len <= USER_BYTES
    && forall a: nat {:trigger ByteAt(m, s, a)} :: start <= a < start + len ==>
         Accessible(Leaf(m, s, PageOf(a / FRAME_BYTES)), needWrite)
  }

  ghost predicate PagesOk(m: Memory, s: nat, first: nat, end: nat, needWrite: bool) {
    forall q: nat {:trigger PageOf(q)} :: first <= q < end ==> Accessible(Leaf(m, s, PageOf(q)), needWrite)
  }

  /** Checking page by page is checking byte by byte. */
  lemma PagesAreBytes(m: Memory, s: nat, start: nat, len: nat, needWrite: bool)
    requires 0 < len && start + len <= USER_BYTES
    ensures PagesOk(m, s, start / FRAME_BYTES, (start + len - 1) / FRAME_BYTES + 1, needWrite) <==> RangeOk(m, s, start, len, needWrite)
  {
    hide Leaf, PageOf, Accessible, ByteAt;
    var first, last := start / FRAME_BYTES, (start + len - 1) / FRAME_BYTES;
    if RangeOk(m, s, start, len, needWrite) {
      forall q: nat | first <= q < last + 1
        ensures Accessible(Leaf(m, s, PageOf(q)), needWrite)
      {
        var a := if q == first then start else q * FRAME_BYTES;
        assert start <= a < start + len && a / FRAME_BYTES == q;
        assert ByteAt(m, s, a) == ByteAt(m, s, a);
      }
    }
    if PagesOk(m, s, first, last + 1, needWrite) {
      forall a: nat | start <= a < start + len
        ensures Accessible(Leaf(m, s, PageOf(a / FRAME_BYTES)), needWrite)
      {
        assert first <= a / FRAME_BYTES < last + 1;
      }
    }
  }

  method UserRangeOk(mc: Machine, s: nat, start: nat, len: nat, needWrite: bool) returns (ok: bool)
    requires mc.Ready() && s in mc.spaces && start < WORD && len < WORD
    ensures ok <==> RangeOk(mc.mem, s, start, len, needWrite)
  {
    hide Inv, KernelShared, RecordsBounded, Pmm.FreeSet, Pmm.Sized, Partition, Leaf, PageOf, UserPage, RangeOk, GetPte, Accessible;
    OutOfRange(mc.mem, s, start, len, needWrite);
    if len == 0 || USER_BYTES <= start || USER_BYTES < len || Add64(start, len) < start || USER_BYTES < Add64(start, len) {
      return false;
    }
    PagesAreBytes(mc.mem, s, start, len, needWrite);
    var first, last := start / FRAME_BYTES, (start + len - 1) / FRAME_BYTES;
    var q := first;
    while q <= last
      invariant first <= q <= last + 1 && PagesOk(mc.mem, s, first, q, needWrite)
    {
      PageReads(mc, s, q);
      var e := GetPte(mc.mem, s, PageOf(q));
      if !Accessible(e, needWrite) {
        return false;
      }
      q := q + 1;
    }
    return true;
  }

  lemma OutOfRange(m: Memory, s: nat, start: nat, len: nat, needWrite: bool)
    requires start < WORD && len < WORD
    ensures len == 0 || USER_BYTES <= start || USER_BYTES < len || Add64(start, len) < start || USER_BYTES < Add64(start, len) ==>
              !RangeOk(m, s, start, len, needWrite)
    ensures !(len == 0 || USER_BYTES <= start || USER_BYTES < len || Add64(start, len) < start || USER_BYTES < Add64(start, len)) ==>
              0 < len && start + len <= USER_BYTES
  {
    hide Leaf, PageOf, Accessible, ByteAt;
  }

  lemma PageReads(mc: Machine, s: nat, q: nat)
    requires mc.Ready() && s in mc.spaces && q < USER_PAGES
    ensures GetPte(mc.mem, s, PageOf(q)) == Leaf(mc.mem, s, PageOf(q))
  {
    hide Leaf, UserPage, NoHuge, PageOf, GetPte;
    PageRoundTrip(q);
    WalksReadLeaf(mc.mem, s, PageOf(q), 0);
  }

  /** Length of the piece of a copy that stays inside the page of `va`. */
  function Chunk(va: nat, left: nat): (n: nat)
    ensures 0 < left ==> 0 < n
    ensures n <= left && va % FRAME_BYTES + n <= FRAME_BYTES
  {
    var room := FRAME_BYTES - va % FRAME_BYTES;
    if room > left then left else room
  }

  /** All bytes of the range are visible. */
  lemma RangeVisible(m: Memory, s: nat, ow: Owners, start: nat, len: nat, needWrite: bool, a: nat)
    requires RangeOk(m, s, start, len, needWrite) && Private(m, s, ow) && start <= a < start + len
    ensures Leaf(m, s, PageOf(a / FRAME_BYTES)).flags.present && ByteAt(m, s, a).Some?
  {
    hide Leaf, PageOf, UserPage;
    UserAddress(a);
    assert ByteAt(m, s, a) == ByteAt(m, s, a);
  }

  /** Everything a copy of the first `done` bytes has done. */
  ghost predicate Copied(m0: Memory, m: Memory, sp: Spaces, ow: Owners, s: nat, dst: nat, data: seq<byte>) {
    && LeavesSame(m0, m, sp) && OthersData(m0, m, ow, s) && BytesSet(m0, m, s, dst, data)
  }

  lemma CopiedOn(m0: Memory, m1: Memory, m2: Memory, sp: Spaces, ow: Owners, s: nat, dst: nat, src: seq<byte>, i: nat, j: nat)
    requires s in sp && i <= j <= |src| && dst + |src| <= USER_BYTES
    requires Copied(m0, m1, sp, ow, s, dst, src[..i]) && Copied(m1, m2, sp, ow, s, dst + i, src[i..j])
    ensures Copied(m0, m2, sp, ow, s, dst, src[..j])
  {
    hide Leaf, UserPage, ByteAt;
    forall a: nat | a < USER_BYTES
      ensures ByteAt(m2, s, a) == if dst <= a < dst + j then Some(src[..j][a - dst]) else ByteAt(m0, s, a)
    {
      assert ByteAt(m1, s, a) == if dst <= a < dst + i then Some(src[..i][a - dst]) else ByteAt(m0, s, a);
    }
    forall f | f in ow && ow[f] != DataOf(s) && f < |m0|
      ensures m2[f] == m0[f]
    {
      assert m1[f] == m0[f];
    }
  }

  lemma CopiedNone(m: Memory, sp: Spaces, ow: Owners, s: nat, dst: nat)
    ensures Copied(m, m, sp, ow, s, dst, [])
  {
    hide Leaf, UserPage, ByteAt;
  }

  lemma StillOk(m0: Memory, m: Memory, sp: Spaces, s: nat, start: nat, len: nat, w: bool)
    requires LeavesSame(m0, m, sp) && s in sp && RangeOk(m0, s, start, len, w)
    ensures RangeOk(m, s, start, len, w)
  {
    hide Leaf, PageOf, UserPage, ByteAt;
    forall a: nat | start <= a < start + len
      ensures Accessible(Leaf(m, s, PageOf(a / FRAME_BYTES)), w)
    {
      UserAddress(a);
      assert ByteAt(m0, s, a) == ByteAt(m0, s, a);
    }
  }

  /** `copy_to_user`: false means no byte was written, true means exactly the target bytes of
      this space are now `src`. */
  method CopyToUser(mc: Machine, s: nat, dst: nat, src: seq<byte>) returns (ok: bool)
    requires mc.Ready() && s in mc.spaces && Private(mc.mem, s, mc.owner) && dst < WORD && |src| < WORD
    modifies mc`mem
    ensures mc.Ready() && Private(mc.mem, s, mc.owner)
    ensures ok <==> RangeOk(old(mc.mem), s, dst, |src|, true)
    ensures !ok ==> mc.mem == old(mc.mem)
    ensures ok ==> LeavesSame(old(mc.mem), mc.mem, mc.spaces) && BytesSet(old(mc.mem), mc.mem, s, dst, src)
    ensures ok ==> OthersData(old(mc.mem), mc.mem, mc.owner, s)
    ensures forall t :: t in mc.spaces && t != s && Private(old(mc.mem), t, mc.owner) ==> BytesSame(old(mc.mem), mc.mem, t)
  {
    hide Leaf, PageOf, UserPage, ByteAt, Machine.Ready, RangeOk, Copied, LeavesSame, Private, BytesSame, Accessible;
    ok := UserRangeOk(mc, s, dst, |src|, true);
    if !ok {
      SameBytes(mc.mem);
      return;
    }
    RangeFits(mc.mem, s, dst, |src|, true);
    var done := 0;
    CopiedNone(mc.mem, mc.spaces, mc.owner, s, dst);
    assert src[..0] == [];
    while done < |src|
      invariant done <= |src| && mc.Ready() && Private(mc.mem, s, mc.owner)
      invariant RangeOk(mc.mem, s, dst, |src|, true)
      invariant Copied(old(mc.mem), mc.mem, mc.spaces, mc.owner, s, dst, src[..done])
    {
      var va := dst + done;
      var chunk := Chunk(va, |src| - done);
      ghost var m1 := mc.mem;
      RangeVisible(mc.mem, s, mc.owner, dst, |src|, true, va);
      Poke(mc, s, va, src[done..done + chunk]);
      IsCopied(m1, mc.mem, mc.spaces, mc.owner, s, va, src[done..done + chunk]);
      CopiedOn(old(mc.mem), m1, mc.mem, mc.spaces, mc.owner, s, dst, src, done, done + chunk);
      StillOk(m1, mc.mem, mc.spaces, s, dst, |src|, true);
      done := done + chunk;
    }
    assert src[..done] == src;
    CopiedViews(old(mc.mem), mc.mem, mc.spaces, mc.owner, s, dst, src);
  }

  lemma SameBytes(m: Memory)
    ensures forall t: nat :: BytesSame(m, m, t)
  {
    hide ByteAt;
  }

  lemma RangeFits(m: Memory, s: nat, start: nat, len: nat, w: bool)
    requires RangeOk(m, s, start, len, w)
    ensures 0 < len && start + len <= USER_BYTES
  {
  }

  lemma IsCopied(m0: Memory, m: Memory, sp: Spaces, ow: Owners, s: nat, dst: nat, data: seq<byte>)
    requires LeavesSame(m0, m, sp) && OthersData(m0, m, ow, s) && BytesSet(m0, m, s, dst, data)
    ensures Copied(m0, m, sp, ow, s, dst, data)
  {
    hide LeavesSame, OthersData, BytesSet;
  }

  lemma CopiedViews(m0: Memory, m: Memory, sp: Spaces, ow: Owners, s: nat, dst: nat, data: seq<byte>)
    requires Copied(m0, m, sp, ow, s, dst, data)
    ensures LeavesSame(m0, m, sp) && OthersData(m0, m, ow, s) && BytesSet(m0, m, s, dst, data)
    ensures forall t :: t in sp && t != s && Private(m0, t, ow) ==> BytesSame(m0, m, t)
  {
    hide LeavesSame, BytesSet, Private, BytesSame;
    forall t | t in sp && t != s && Private(m0, t, ow)
      ensures BytesSame(m0, m, t)
    {
      OthersSee(m0, m, sp, ow, s, t);
    }
  }

  /** Buffer `b` holds the user bytes from `src` on. */
  ghost predicate Holds(m: Memory, s: nat, src: nat, b: seq<byte>) {
    forall k: nat {:trigger b[k]} :: k < |b| ==> ByteAt(m, s, src + k) == Some(b[k])
  }

  /** `copy_from_user`: false leaves the buffer alone, true fills its first `len` bytes. */
  method CopyFromUser(mc: Machine, s: nat, dst: array<byte>, src: nat, len: nat) returns (ok: bool)
    requires mc.Ready() && s in mc.spaces && Private(mc.mem, s, mc.owner) && src < WORD && len < WORD && len <= dst.Length
    requires dst as object != mc.pmm.bitmap
    modifies dst
    ensures ok <==> RangeOk(mc.mem, s, src, len, false)
    ensures !ok ==> dst[..] == old(dst[..])
    ensures ok ==> Holds(mc.mem, s, src, dst[..len]) && dst[len..] == old(dst[len..])
  {
    hide Leaf, PageOf, UserPage, ByteAt, Machine.Ready, RangeOk, LeavesSame, Private, Accessible, Chunk;
    ok := UserRangeOk(mc, s, src, len, false);
    if !ok {
      return;
    }
    RangeFits(mc.mem, s, src, len, false);
    var done := 0;
    while done < len
      invariant mc.Ready() && done <= len && Holds(mc.mem, s, src, dst[..done]) && dst[len..] == old(dst[len..])
    {
      var va := src + done;
      var chunk := Chunk(va, len - done);
      RangeVisible(mc.mem, s, mc.owner, src, len, false, va);
      var piece := Peek(mc, s, va, chunk);
      ghost var before := dst[..done];
      for i := 0 to chunk
        invariant mc.Ready() && dst[..done] == before && dst[len..] == old(dst[len..])
        invariant dst[done..done + i] == piece[..i]
      {
        dst[done + i] := piece[i];
      }
      assert dst[..done + chunk] == before + piece by {
        assert dst[done..done + chunk] == piece[..chunk] == piece;
        assert dst[..done + chunk] == dst[..done] + dst[done..done + chunk];
      }
      HoldsMore(mc.mem, s, src, before, piece);
      done := done + chunk;
    }
  }

  lemma HoldsMore(m: Memory, s: nat, src: nat, b: seq<byte>, c: seq<byte>)
    requires Holds(m, s, src, b) && Holds(m, s, src + |b|, c)
    ensures Holds(m, s, src, b + c)
  {
    hide ByteAt;
    forall k: nat | k < |b + c|
      ensures ByteAt(m, s, src + k) == Some((b + c)[k])
    {
      if k < |b| {
        assert (b + c)[k] == b[k];
      } else {
        assert (b + c)[k] == c[k - |b|];
        assert src + |b| + (k - |b|) == src + k;
      }
    }
  }

  /** Reads a chunk that stays inside one mapped page. */
  method Peek(mc: Machine, s: nat, va: nat, n: nat) returns (data: seq<byte>)
    requires mc.Ready() && s in mc.spaces && Private(mc.mem, s, mc.owner)
    requires va < USER_BYTES && va % FRAME_BYTES + n <= FRAME_BYTES && va + n <= USER_BYTES
    requires Leaf(mc.mem, s, PageOf(va / FRAME_BYTES)).flags.present
    ensures |data| == n && Holds(mc.mem, s, va, data)
  {
    hide Inv, KernelShared, RecordsBounded, Pmm.FreeSet, Pmm.Sized, Partition, Leaf, UserPage, PageOf, PageNumber, VirtToPhys;
    UserAddress(va);
    var v, off := PageOf(va / FRAME_BYTES), va % FRAME_BYTES;
    FrameOfPage(mc, s, v, off);
    var phys := VirtToPhys(mc.mem, s, v, off);
    assert phys != 0;
    var f := phys / FRAME_BYTES;
    data := mc.mem[f].bytes[off..off + n];
    forall k: nat | k < n
      ensures ByteAt(mc.mem, s, va + k) == Some(data[k])
    {
      assert (va + k) / FRAME_BYTES == va / FRAME_BYTES && (va + k) % FRAME_BYTES == off + k;
    }
  }

  /** What was written is what is read back. */
  method WriteThenRead(mc: Machine, s: nat, at: nat, src: seq<byte>, back: array<byte>) returns (ok: bool)
    requires mc.Ready() && s in mc.spaces && Private(mc.mem, s, mc.owner) && at < WORD && |src| < WORD && back.Length == |src|
    requires back as object != mc.pmm.bitmap
    modifies mc`mem, back
    ensures ok <==> RangeOk(old(mc.mem), s, at, |src|, true)
    ensures ok ==> back[..] == src
  {
    hide Leaf, PageOf, UserPage, ByteAt, Machine.Ready, RangeOk, LeavesSame, Private, Accessible;
    ok := CopyToUser(mc, s, at, src);
    if ok {
      StillOk(old(mc.mem), mc.mem, mc.spaces, s, at, |src|, true);
      Weaker(mc.mem, s, at, |src|);
      var again := CopyFromUser(mc, s, back, at, |src|);
      assert back[..|src|] == back[..];
      RangeFits(mc.mem, s, at, |src|, false);
      forall k | 0 <= k < |src|
        ensures back[..][k] == src[k]
      {
        assert ByteAt(mc.mem, s, at + k) == Some(back[..|src|][k]);
      }
    }
  }

  lemma Weaker(m: Memory, s: nat, start: nat, len: nat)
    requires RangeOk(m, s, start, len, true)
    ensures RangeOk(m, s, start, len, false)
  {
    hide Leaf, PageOf, ByteAt;
    forall a: nat | start <= a < start + len
      ensures Accessible(Leaf(m, s, PageOf(a / FRAME_BYTES)), false)
    {
      assert ByteAt(m, s, a) == ByteAt(m, s, a);
    }
  }
}
