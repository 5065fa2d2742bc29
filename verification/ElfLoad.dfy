/** Loading an accepted image into a fresh address space. */
module ElfLoad {
  import opened Common
  import opened Frames
  import opened PageTable
  import opened Ownership
  import opened AddressSpaces
  import opened Teardown
  import opened Records
  import opened Fork
  import opened UserBytes
  import opened ElfImage
  import opened Costs
  import opened LoadPlan
  import UserCopy

  // -----------------------------------------------------------------------------
  // Pages and permissions

  /** `seg_page_flags`, with PRESENT and USER added where the page is mapped. */
  function SegFlags(ph: Phdr, nx: bool): Flags {
    Flags(false, ph.Write(), false, false, !ph.Exec() && nx)
  }

  /** Segment `i` touches page `q`, and that page of it has been mapped: all of segments below
      `n`, and segment `n` up to page `hi`. */
  predicate Sees(phs: seq<Phdr>, base: nat, n: nat, hi: nat, i: nat, q: nat) {
    && i < |phs| && IsLoad(phs[i]) && First(phs[i], base) <= q <= Last(phs[i], base)
    && (i < n || (i == n && q < hi))
  }

  ghost predicate Touched(phs: seq<Phdr>, base: nat, n: nat, hi: nat, q: nat) {
    exists i: nat :: Sees(phs, base, n, hi, i, q)
  }

  ghost predicate Writable(phs: seq<Phdr>, base: nat, n: nat, hi: nat, q: nat) {
    exists i: nat :: Sees(phs, base, n, hi, i, q) && phs[i].Write()
  }

  ghost predicate Executable(phs: seq<Phdr>, base: nat, n: nat, hi: nat, q: nat) {
    exists i: nat :: Sees(phs, base, n, hi, i, q) && phs[i].Exec()
  }

  /** A page with flags `f0` before the load has flags `f` now: it is mapped exactly when it was or
      is touched; a touched page is writable (executable) exactly when it was or some segment
      touching it is; an untouched page is as it was. */
  ghost predicate PagePerms(f0: Flags, f: Flags, phs: seq<Phdr>, base: nat, n: nat, hi: nat, nx: bool, q: nat) {
    && (Touched(phs, base, n, hi, q) ==>
          && f.present && f.user
          && (f.write <==> (f0.present && f0.write) || Writable(phs, base, n, hi, q))
          && (nx ==> (f.nx <==> (f0.present ==> f0.nx) && !Executable(phs, base, n, hi, q))))
    && (!Touched(phs, base, n, hi, q) ==> f == f0)
  }

  ghost predicate Perms(m0: Memory, m: Memory, c: nat, phs: seq<Phdr>, base: nat, n: nat, hi: nat, nx: bool) {
    forall q: nat {:trigger PageOf(q)} :: q < USER_PAGES ==>
      PagePerms(Leaf(m0, c, PageOf(q)).flags, Leaf(m, c, PageOf(q)).flags, phs, base, n, hi, nx, q)
  }

  /** Every page touched so far is mapped. */
  ghost predicate Covers(m: Memory, c: nat, phs: seq<Phdr>, base: nat, n: nat, hi: nat) {
    forall q: nat {:trigger PageOf(q)} :: q < USER_PAGES && Touched(phs, base, n, hi, q) ==> Leaf(m, c, PageOf(q)).flags.present
  }

  /** No page is both writable and executable. */
  ghost predicate WxSafe(m: Memory, c: nat, nx: bool) {
    nx ==> forall v :: UserPage(v) && Leaf(m, c, v).flags.present && Leaf(m, c, v).flags.write ==> Leaf(m, c, v).flags.nx
  }

  /** Bytes that were mapped are as they were; those of pages touched since are zero. */
  ghost predicate BytesOver(m0: Memory, m: Memory, c: nat, phs: seq<Phdr>, base: nat, n: nat, hi: nat) {
    forall a: nat {:trigger ByteAt(m, c, a)} :: a < USER_BYTES ==>
      ByteAt(m, c, a) == if ByteAt(m0, c, a).Some? then ByteAt(m0, c, a)
                         else if Touched(phs, base, n, hi, a / FRAME_BYTES) then Some(0)
                         else None
  }

  /** The entry of a page after one more segment with flags `f` was laid over it. */
  function Merged(e: Pte, f: Flags): Pte {
    Pte(Flags(true, e.flags.write || f.write, true, e.flags.huge, e.flags.nx && f.nx), e.frame)
  }

  /** What a step may rely on and must restore: the new space is consistent, the old ones are
      untouched, and no page is both writable and executable. */
  ghost predicate Loading(mc: Machine, c: nat, nx: bool, m0: Memory, sp0: Spaces, ow0: Owners, free0: set<nat>)
    reads mc, mc.pmm, mc.pmm.bitmap
  {
    && Building(mc, c, m0, sp0, ow0, free0)
    && Agrees(mc.mem, c, mc.spaces[c])
    && WxSafe(mc.mem, c, nx)
  }

  /** A page is mapped exactly when visited, and writable (executable) exactly when some visit asks
      for it. */
  ghost predicate VisitFlags(f: Flags, vs: seq<Visit>, nx: bool, q: nat) {
    && (f.present <==> q in Pages(vs))
    && (f.present ==> (f.write <==> Writes(vs, q)) && (nx ==> (f.nx <==> !Executes(vs, q))))
  }

  ghost predicate Tracks(m: Memory, c: nat, vs: seq<Visit>, nx: bool) {
    forall q: nat {:trigger PageOf(q)} :: q < USER_PAGES ==> VisitFlags(Leaf(m, c, PageOf(q)).flags, vs, nx, q)
  }

  /** The new space is what the visits `vs` make of an empty one, and has cost what their pages cost. */
  ghost predicate Tallied(mc: Machine, c: nat, vs: seq<Visit>, nx: bool, free0: set<nat>)
    reads mc, mc.pmm.bitmap
  {
    && c in mc.spaces && |mc.spaces[c]| == |Pages(vs)| && Tracks(mc.mem, c, vs, nx)
    && Planted(mc.mem, c, Pages(vs)) && |mc.pmm.FreeSet()| + Cost(|Pages(vs)|, Pages(vs)) == |free0|
  }

  /** Mapped bytes stay; bytes of page `q`, if it was unmapped, are zero. */
  ghost predicate BytesAdded(m: Memory, m': Memory, c: nat, q: nat) {
    forall a: nat {:trigger ByteAt(m', c, a)} :: a < USER_BYTES ==>
      ByteAt(m', c, a) == if a / FRAME_BYTES == q && ByteAt(m, c, a).None? then Some(0) else ByteAt(m, c, a)
  }

  // -----------------------------------------------------------------------------
  // One page

  /** A page not yet mapped gets a fresh zero frame. */
  method MapFresh(mc: Machine, c: nat, q: nat, flags: Flags, nx: bool, ghost m0: Memory, ghost sp0: Spaces, ghost ow0: Owners, ghost free0: set<nat>)
    returns (ok: bool, ghost f: nat)
    requires Loading(mc, c, nx, m0, sp0, ow0, free0) && q < USER_PAGES && !Leaf(mc.mem, c, PageOf(q)).flags.present
    requires nx && flags.write ==> flags.nx
    requires !flags.huge
    modifies mc, mc.pmm, mc.pmm.bitmap
    ensures Loading(mc, c, nx, m0, sp0, ow0, free0)
    ensures ok ==> OnlyPage(old(mc.mem), mc.mem, c, PageOf(q), Pte(flags.(present := true, user := true), f)) && BytesAdded(old(mc.mem), mc.mem, c, q)
    ensures ok <==> old(mc.CanMap(c, q))
    ensures ok ==>
              && |mc.spaces[c]| == |old(mc.spaces)[c]| + 1 && GrewAt(old(mc.mem), mc.mem, c, Way(PageOf(q)))
              && |mc.pmm.FreeSet()| == |old(mc.pmm.FreeSet())| - 1 - Missing(old(mc.mem), c, PageOf(q))
  {
    hide Inv, Partition, LeavesSame, LeafSet, DataSame, Extends, Pmm.FreeSet, Leaf, PageOf, UserPage, Agrees, WxSafe, Machine.Ready, OnlyPage, BytesAdded,
         GrewAt, Way, Missing;
    ghost var m1, sp1, ow1 := mc.mem, mc.spaces, mc.owner;
    UserNumber(q);
    PagesUser(mc, c);
    assert Inv(m1, sp1, ow1) by { InvOf(mc); }
    ok, f := mc.AllocUserPage(c, q, flags);
    StillExtends(m0, m1, mc.mem, ow0, ow1, mc.owner, c);
    if ok {
      StillOld(m0, m1, mc.mem, sp0, sp1, c, PageOf(q), Pte(flags.(present := true, user := true), f));
      FreshAgrees(m1, mc.mem, c, sp1[c], q, Pte(flags.(present := true, user := true), f));
      assert WxSafe(mc.mem, c, nx) by { OneSafe(m1, mc.mem, c, PageOf(q), Pte(flags.(present := true, user := true), f), nx); }
      FreshBytes(m1, mc.mem, sp1, ow1, c, q, f, flags);
    } else {
      NoPage(m0, m1, mc.mem, sp0, sp1, c, nx);
    }
  }

  lemma UserNumber(q: nat)
    requires q < USER_PAGES
    ensures UserPage(PageOf(q))
  {
    PageRoundTrip(q);
  }

  lemma StillOld(m0: Memory, m1: Memory, m2: Memory, sp0: Spaces, sp: Spaces, c: nat, v: Page, e: Pte)
    requires LeavesSame(m0, m1, sp0) && LeafSet(m1, m2, sp, c, v, e) && c !in sp0 && c in sp && sp == sp0[c := sp[c]]
    ensures LeavesSame(m0, m2, sp0) && OnlyPage(m1, m2, c, v, e)
  {
    hide Leaf, UserPage;
    forall t, w | t in sp0 && UserPage(w)
      ensures Leaf(m2, t, w) == Leaf(m0, t, w)
    {
      assert t in sp && t != c;
    }
  }

  lemma NoPage(m0: Memory, m1: Memory, m2: Memory, sp0: Spaces, sp: Spaces, c: nat, nx: bool)
    requires LeavesSame(m0, m1, sp0) && LeavesSame(m1, m2, sp) && c !in sp0 && c in sp && sp == sp0[c := sp[c]]
    requires Agrees(m1, c, sp[c]) && WxSafe(m1, c, nx) && forall i :: 0 <= i < |sp[c]| ==> UserPage(PageOf(sp[c][i].virt))
    ensures LeavesSame(m0, m2, sp0) && Agrees(m2, c, sp[c]) && WxSafe(m2, c, nx)
  {
    hide Leaf, UserPage, PageOf;
    forall t, w | t in sp0 && UserPage(w)
      ensures Leaf(m2, t, w) == Leaf(m0, t, w)
    {
      assert t in sp && t != c;
    }
  }

  lemma OneSafe(m: Memory, m': Memory, c: nat, v: Page, e: Pte, nx: bool)
    requires OnlyPage(m, m', c, v, e) && WxSafe(m, c, nx) && (nx && e.flags.write ==> e.flags.nx)
    ensures WxSafe(m', c, nx)
  {
    hide Leaf, UserPage;
  }

  lemma FreshBytes(m: Memory, m': Memory, sp: Spaces, ow: Owners, c: nat, q: nat, f: nat, flags: Flags)
    requires Inv(m, sp, ow) && c in sp && Agrees(m, c, sp[c]) && q < USER_PAGES && !Leaf(m, c, PageOf(q)).flags.present
    requires OnlyPage(m, m', c, PageOf(q), Pte(flags.(present := true, user := true), f))
    requires f < |m'| && m'[f] == ZeroData() && DataSame(m, m', ow)
    ensures BytesAdded(m, m', c, q)
  {
    hide Inv, Leaf, UserPage, PageOf, PageNumber, Agrees;
    AgreesPrivate(m, sp, ow, c);
    UserNumber(q);
    forall a: nat | a < USER_BYTES
      ensures ByteAt(m', c, a) == if a / FRAME_BYTES == q && ByteAt(m, c, a).None? then Some(0) else ByteAt(m, c, a)
    {
      UserAddress(a);
      var v := PageOf(a / FRAME_BYTES);
      if a / FRAME_BYTES == q {
        assert ByteAt(m, c, a).None?;
      } else {
        NumbersApart(a / FRAME_BYTES, q);
        assert Leaf(m', c, v) == Leaf(m, c, v);
        if Leaf(m, c, v).flags.present {
          assert m'[Leaf(m, c, v).frame] == m[Leaf(m, c, v).frame];
        }
      }
    }
  }

  lemma NumbersApart(a: nat, b: nat)
    requires a < USER_PAGES && b < USER_PAGES && a != b
    ensures PageOf(a) != PageOf(b)
  {
    hide PageOf, PageNumber;
    PageRoundTrip(a);
    PageRoundTrip(b);
  }

  /** Entry `e'` is `e` with one more segment of flags `f` laid over it. */
  predicate Laid(e: Pte, e': Pte, f: Flags) {
    && e'.flags.present && e'.flags.user
    && (e'.flags.write <==> (e.flags.present && e.flags.write) || f.write)
    && (e'.flags.nx <==> (e.flags.present ==> e.flags.nx) && f.nx)
  }

  /** A page shared with an earlier segment keeps its frame; its permissions are joined, unless
      that would make it writable and executable.  The out-of-memory return of the source is never
      taken, since the tables of the page are there. */
  method MapShared(mc: Machine, c: nat, q: nat, flags: Flags, nx: bool, ghost m0: Memory, ghost sp0: Spaces, ghost ow0: Owners, ghost free0: set<nat>)
    returns (r: Status)
    requires Loading(mc, c, nx, m0, sp0, ow0, free0) && q < USER_PAGES && Leaf(mc.mem, c, PageOf(q)).flags.present
    modifies mc, mc.pmm, mc.pmm.bitmap
    ensures Loading(mc, c, nx, m0, sp0, ow0, free0)
    ensures r.Ok? ==> OnlyPage(old(mc.mem), mc.mem, c, PageOf(q), Merged(Leaf(old(mc.mem), c, PageOf(q)), flags)) && BytesAdded(old(mc.mem), mc.mem, c, q)
    ensures r == var e := Merged(Leaf(old(mc.mem), c, PageOf(q)), flags).flags; if nx && e.write && !e.nx then NoExec else Ok
    ensures r.Ok? ==>
              mc.spaces == old(mc.spaces) && GrewAt(old(mc.mem), mc.mem, c, Way(PageOf(q))) && |mc.pmm.FreeSet()| == |old(mc.pmm.FreeSet())|
  {
    hide GrewAt, Way, Missing, Inv, Partition, LeavesSame, LeafSet, DataSame, Extends, Pmm.FreeSet, Leaf, PageOf, UserPage, Agrees, WxSafe, OnlyPage, BytesAdded,
         KernelShared, RecordsBounded, Pmm.Sized, GetPte, HeldSame;
    ghost var m1, sp1, ow1 := mc.mem, mc.spaces, mc.owner;
    UserNumber(q);
    PagesUser(mc, c);
    UserCopy.PageReads(mc, c, q);
    PresentWay(mc.mem, c, PageOf(q));
    var pte := GetPte(mc.mem, c, PageOf(q));
    var merged := Merged(pte, flags);
    if nx && merged.flags.write && !merged.flags.nx {
      return NoExec;
    }
    var ok := mc.MapPage(c, PageOf(q), pte.frame, merged.flags, {});
    StillExtends(m0, m1, mc.mem, ow0, ow1, mc.owner, c);
    OnlyTaken(old(mc.pmm.FreeSet()), ow1, mc.pmm.FreeSet(), mc.owner, mc.pool, c);
    assert ok;
    StillOld(m0, m1, mc.mem, sp0, sp1, c, PageOf(q), merged);
    SharedAgrees(m1, mc.mem, sp1[c], c, PageOf(q), merged);
    OneSafe(m1, mc.mem, c, PageOf(q), merged, nx);
    SharedBytes(m1, mc.mem, sp1, ow1, c, q, merged);
    return Ok;
  }

  /** A mapped page lacks no table. */
  lemma PresentWay(m: Memory, c: nat, v: Page)
    requires Leaf(m, c, v).flags.present
    ensures Missing(m, c, v) == 0
  {
    hide PageOf;
  }

  lemma SharedAgrees(m: Memory, m': Memory, rs: seq<Mapping>, c: nat, v: Page, e: Pte)
    requires Agrees(m, c, rs) && OnlyPage(m, m', c, v, e) && Leaf(m, c, v).flags.present
    requires e.flags.present && e.frame == Leaf(m, c, v).frame
    requires forall i :: 0 <= i < |rs| ==> UserPage(PageOf(rs[i].virt))
    ensures Agrees(m', c, rs)
  {
    hide Leaf, UserPage, PageOf;
  }

  lemma SharedBytes(m: Memory, m': Memory, sp: Spaces, ow: Owners, c: nat, q: nat, e: Pte)
    requires Inv(m, sp, ow) && c in sp && Agrees(m, c, sp[c]) && q < USER_PAGES && Leaf(m, c, PageOf(q)).flags.present
    requires OnlyPage(m, m', c, PageOf(q), e) && e.flags.present && e.frame == Leaf(m, c, PageOf(q)).frame && DataSame(m, m', ow)
    ensures BytesAdded(m, m', c, q)
  {
    hide Inv, Leaf, UserPage, PageOf, PageNumber, Agrees;
    AgreesPrivate(m, sp, ow, c);
    forall a: nat | a < USER_BYTES
      ensures ByteAt(m', c, a) == if a / FRAME_BYTES == q && ByteAt(m, c, a).None? then Some(0) else ByteAt(m, c, a)
    {
      UserAddress(a);
      var v := PageOf(a / FRAME_BYTES);
      assert Leaf(m', c, v).flags.present == Leaf(m, c, v).flags.present;
      if Leaf(m, c, v).flags.present {
        assert Leaf(m', c, v).frame == Leaf(m, c, v).frame;
        assert m'[Leaf(m, c, v).frame] == m[Leaf(m, c, v).frame];
      }
    }
  }

  /** One iteration of `map_segment_pages`. */
  method MapOne(mc: Machine, c: nat, q: nat, flags: Flags, nx: bool, ghost v: Visit, ghost vs: seq<Visit>,
                ghost m0: Memory, ghost sp0: Spaces, ghost ow0: Owners, ghost free0: set<nat>)
    returns (r: Status, ghost e: Pte)
    requires Loading(mc, c, nx, m0, sp0, ow0, free0) && q < USER_PAGES && Tallied(mc, c, vs, nx, free0)
    requires (nx && flags.write ==> flags.nx) && !flags.huge && v.q == q && v.write == flags.write && flags.nx == (!v.exec && nx)
    modifies mc, mc.pmm, mc.pmm.bitmap
    ensures Loading(mc, c, nx, m0, sp0, ow0, free0)
    ensures r.Ok? ==> OnlyPage(old(mc.mem), mc.mem, c, PageOf(q), e) && Laid(Leaf(old(mc.mem), c, PageOf(q)), e, flags) && BytesAdded(old(mc.mem), mc.mem, c, q)
    ensures r == Fate(vs, v, |free0|, nx)
    ensures r.Ok? ==> Tallied(mc, c, vs + [v], nx, free0)
  {
    hide *;
    LoadingReady(mc, c, nx, m0, sp0, ow0, free0);
    UserCopy.PageReads(mc, c, q);
    ghost var m1, n1, f1 := mc.mem, |mc.spaces[c]|, |mc.pmm.FreeSet()|;
    TallyParts(mc, c, vs, nx, free0);
    FreshFate(mc, c, vs, v, nx, free0);
    SharedFate(mc, c, vs, v, nx, free0, flags);
    var pte := GetPte(mc.mem, c, PageOf(q));
    e := pte;
    if !pte.flags.present {
      var ok;
      ghost var f;
      ok, f := MapFresh(mc, c, q, flags, nx, m0, sp0, ow0, free0);
      e := Pte(flags.(present := true, user := true), f);
      LaidFresh(pte, flags, f);
      r := if ok then Ok else NoMem;
      if ok {
        LoadingReady(mc, c, nx, m0, sp0, ow0, free0);
        FreshTally(mc, m1, n1, f1, c, vs, v, nx, free0, e);
      }
    } else {
      r := MapShared(mc, c, q, flags, nx, m0, sp0, ow0, free0);
      e := Merged(pte, flags);
      LaidOver(pte, flags);
      if r.Ok? {
        SharedTally(mc, m1, n1, f1, c, vs, v, nx, free0, flags);
      }
    }
  }

  lemma TallyParts(mc: Machine, c: nat, vs: seq<Visit>, nx: bool, free0: set<nat>)
    requires Tallied(mc, c, vs, nx, free0)
    ensures c in mc.spaces && |mc.spaces[c]| == |Pages(vs)| && Tracks(mc.mem, c, vs, nx) && Planted(mc.mem, c, Pages(vs))
    ensures |mc.pmm.FreeSet()| + Cost(|Pages(vs)|, Pages(vs)) == |free0|
  {
    hide Pages, Tracks, Planted, Cost, Pmm.FreeSet;
  }

  /** A page not yet mapped can be had exactly when its visit is not short. */
  lemma FreshFate(mc: Machine, c: nat, vs: seq<Visit>, v: Visit, nx: bool, free0: set<nat>)
    requires Tallied(mc, c, vs, nx, free0) && v.q < USER_PAGES
    ensures !Leaf(mc.mem, c, PageOf(v.q)).flags.present ==> v.q !in Pages(vs) && Fate(vs, v, |free0|, nx) == if mc.CanMap(c, v.q) then Ok else NoMem
  {
    hide Pages, Planted, Cost, Pmm.FreeSet, Leaf, PageOf, Missing, Fate, Affordable, Tracks, VisitFlags;
    UserNumber(v.q);
    PresentVisited(mc.mem, c, vs, nx, v.q);
    PagesNext(vs, v);
    MissingIs(mc.mem, c, Pages(vs), PageOf(v.q));
    CostMore(|Pages(vs)|, Pages(vs), v.q);
    if v.q !in Pages(vs) {
      NewFate(vs, v, |free0|, nx, |mc.pmm.FreeSet()|, Missing(mc.mem, c, PageOf(v.q)));
    }
  }

  lemma PresentVisited(m: Memory, c: nat, vs: seq<Visit>, nx: bool, q: nat)
    requires Tracks(m, c, vs, nx) && q < USER_PAGES
    ensures Leaf(m, c, PageOf(q)).flags.present <==> q in Pages(vs)
  {
    hide Pages, Writes, Executes, Leaf;
    assert VisitFlags(Leaf(m, c, PageOf(q)).flags, vs, nx, q);
  }

  lemma NewFate(vs: seq<Visit>, v: Visit, free0: nat, nx: bool, free: nat, missing: nat)
    requires v.q !in Pages(vs) && Pages(vs + [v]) == Pages(vs) + {v.q} && free + Cost(|Pages(vs)|, Pages(vs)) == free0
    requires Cost(|Pages(vs)| + 1, Pages(vs) + {v.q}) == Cost(|Pages(vs)|, Pages(vs)) + 1 + missing
    ensures Fate(vs, v, free0, nx) == if |Pages(vs)| < MAX_UMAP && missing < free then Ok else NoMem
  {
    hide Pages, Writes, Executes, Cost;
    assert |Pages(vs) + {v.q}| == |Pages(vs)| + 1;
  }

  /** A page already mapped is refused exactly when it would be writable and executable. */
  lemma SharedFate(mc: Machine, c: nat, vs: seq<Visit>, v: Visit, nx: bool, free0: set<nat>, flags: Flags)
    requires Tallied(mc, c, vs, nx, free0) && v.q < USER_PAGES && v.write == flags.write && flags.nx == (!v.exec && nx)
    ensures var e := Leaf(mc.mem, c, PageOf(v.q));
            e.flags.present ==>
              v.q in Pages(vs) && Fate(vs, v, |free0|, nx) == if nx && Merged(e, flags).flags.write && !Merged(e, flags).flags.nx then NoExec else Ok
  {
    hide Pages, Writes, Executes, Planted, Cost, Pmm.FreeSet, Leaf, PageOf, Affordable;
    assert VisitFlags(Leaf(mc.mem, c, PageOf(v.q)).flags, vs, nx, v.q);
    PagesNext(vs, v);
  }

  lemma TracksMore(m: Memory, m': Memory, c: nat, vs: seq<Visit>, v: Visit, nx: bool, e: Pte)
    requires Tracks(m, c, vs, nx) && v.q < USER_PAGES && OnlyPage(m, m', c, PageOf(v.q), e) && e.flags.present
    requires var f := Leaf(m, c, PageOf(v.q)).flags;
             && (e.flags.write <==> (f.present && f.write) || v.write)
             && (nx ==> (e.flags.nx <==> (f.present ==> f.nx) && !v.exec))
    ensures Tracks(m', c, vs + [v], nx)
  {
    hide Leaf, PageOf, UserPage, Pages, Writes, Executes;
    PagesNext(vs, v);
    Visited(vs, v.q);
    forall q: nat | q < USER_PAGES
      ensures VisitFlags(Leaf(m', c, PageOf(q)).flags, vs + [v], nx, q)
    {
      UserNumber(q);
      assert VisitFlags(Leaf(m, c, PageOf(q)).flags, vs, nx, q);
      if q != v.q {
        NumbersApart(q, v.q);
      }
    }
  }

  lemma FreshTally(mc: Machine, m1: Memory, n1: nat, f1: nat, c: nat, vs: seq<Visit>, v: Visit, nx: bool, free0: set<nat>, e: Pte)
    requires c in mc.spaces && n1 == |Pages(vs)| && Tracks(m1, c, vs, nx) && Planted(m1, c, Pages(vs)) && f1 + Cost(|Pages(vs)|, Pages(vs)) == |free0|
    requires v.q < USER_PAGES && v.q !in Pages(vs) && !Leaf(m1, c, PageOf(v.q)).flags.present && OnlyPage(m1, mc.mem, c, PageOf(v.q), e)
    requires e.flags.present && e.flags.write == v.write && e.flags.nx == (!v.exec && nx)
    requires |mc.spaces[c]| == n1 + 1 && |mc.pmm.FreeSet()| == f1 - 1 - Missing(m1, c, PageOf(v.q)) && GrewAt(m1, mc.mem, c, Way(PageOf(v.q)))
    ensures Tallied(mc, c, vs + [v], nx, free0)
  {
    hide Pages, Writes, Executes, Planted, Cost, Pmm.FreeSet, Leaf, PageOf, Missing, Tracks, GrewAt, Way, OnlyPage;
    UserNumber(v.q);
    PagesNext(vs, v);
    MissingIs(m1, c, Pages(vs), PageOf(v.q));
    CostMore(|Pages(vs)|, Pages(vs), v.q);
    PlantedMore(m1, mc.mem, c, Pages(vs), v.q);
    TracksMore(m1, mc.mem, c, vs, v, nx, e);
  }

  lemma SharedTally(mc: Machine, m1: Memory, n1: nat, f1: nat, c: nat, vs: seq<Visit>, v: Visit, nx: bool, free0: set<nat>, flags: Flags)
    requires c in mc.spaces && n1 == |Pages(vs)| && Tracks(m1, c, vs, nx) && Planted(m1, c, Pages(vs)) && f1 + Cost(|Pages(vs)|, Pages(vs)) == |free0|
    requires v.q < USER_PAGES && v.q in Pages(vs) && Leaf(m1, c, PageOf(v.q)).flags.present
    requires OnlyPage(m1, mc.mem, c, PageOf(v.q), Merged(Leaf(m1, c, PageOf(v.q)), flags))
    requires v.write == flags.write && flags.nx == (!v.exec && nx)
    requires |mc.spaces[c]| == n1 && |mc.pmm.FreeSet()| == f1 && GrewAt(m1, mc.mem, c, Way(PageOf(v.q)))
    ensures Tallied(mc, c, vs + [v], nx, free0)
  {
    hide Pages, Writes, Executes, Planted, Cost, Pmm.FreeSet, Leaf, PageOf, Tracks, GrewAt, Way, OnlyPage;
    PagesNext(vs, v);
    assert Pages(vs) + {v.q} == Pages(vs);
    PlantedMore(m1, mc.mem, c, Pages(vs), v.q);
    TracksMore(m1, mc.mem, c, vs, v, nx, Merged(Leaf(m1, c, PageOf(v.q)), flags));
  }

  lemma LaidFresh(e: Pte, f: Flags, n: nat)
    requires !e.flags.present
    ensures Laid(e, Pte(f.(present := true, user := true), n), f)
  {
  }

  lemma LaidOver(e: Pte, f: Flags)
    requires e.flags.present
    ensures Laid(e, Merged(e, f), f)
  {
  }

  lemma LoadingReady(mc: Machine, c: nat, nx: bool, m0: Memory, sp0: Spaces, ow0: Owners, free0: set<nat>)
    requires Loading(mc, c, nx, m0, sp0, ow0, free0)
    ensures mc.Ready() && c in mc.spaces && c !in sp0 && Inv(mc.mem, mc.spaces, mc.owner) && Agrees(mc.mem, c, mc.spaces[c])
  {
    hide Inv, Agrees, WxSafe;
  }

  // -----------------------------------------------------------------------------
  // All pages

  lemma SeesNext(phs: seq<Phdr>, base: nat, n: nat, q: nat, i: nat, p: nat)
    requires n < |phs| && IsLoad(phs[n]) && First(phs[n], base) <= q <= Last(phs[n], base)
    ensures Sees(phs, base, n, q + 1, i, p) <==> Sees(phs, base, n, q, i, p) || (i == n && p == q)
  {
    hide First, Last, IsLoad;
  }

  lemma TouchedNext(phs: seq<Phdr>, base: nat, n: nat, q: nat, p: nat)
    requires n < |phs| && IsLoad(phs[n]) && First(phs[n], base) <= q <= Last(phs[n], base)
    ensures Touched(phs, base, n, q + 1, p) <==> Touched(phs, base, n, q, p) || p == q
    ensures Writable(phs, base, n, q + 1, p) <==> Writable(phs, base, n, q, p) || (p == q && phs[n].Write())
    ensures Executable(phs, base, n, q + 1, p) <==> Executable(phs, base, n, q, p) || (p == q && phs[n].Exec())
  {
    hide First, Last, IsLoad, Sees;
    SeesNext(phs, base, n, q, n, p);
    if Touched(phs, base, n, q, p) {
      var i: nat :| Sees(phs, base, n, q, i, p);
      SeesNext(phs, base, n, q, i, p);
    }
    if Touched(phs, base, n, q + 1, p) {
      var i: nat :| Sees(phs, base, n, q + 1, i, p);
      SeesNext(phs, base, n, q, i, p);
    }
    forall i: nat
      ensures Sees(phs, base, n, q + 1, i, p) <==> Sees(phs, base, n, q, i, p) || (i == n && p == q)
    {
      SeesNext(phs, base, n, q, i, p);
    }
  }

  lemma PermsNext(ms: Memory, m: Memory, m': Memory, c: nat, phs: seq<Phdr>, base: nat, n: nat, q: nat, nx: bool, e: Pte)
    requires n < |phs| && IsLoad(phs[n]) && First(phs[n], base) <= q <= Last(phs[n], base) && q < USER_PAGES
    requires OnlyPage(m, m', c, PageOf(q), e) && Laid(Leaf(m, c, PageOf(q)), e, SegFlags(phs[n], nx))
    requires Perms(ms, m, c, phs, base, n, q, nx)
    ensures Perms(ms, m', c, phs, base, n, q + 1, nx)
  {
    hide Leaf, PageOf, PageNumber, UserPage, First, Last, IsLoad, Sees;
    NotSeen(phs, base, n, q);
    forall p: nat | p < USER_PAGES
      ensures PagePerms(Leaf(ms, c, PageOf(p)).flags, Leaf(m', c, PageOf(p)).flags, phs, base, n, q + 1, nx, p)
    {
      UserNumber(p);
      if p != q {
        NumbersApart(p, q);
      }
      TouchedNext(phs, base, n, q, p);
      assert PagePerms(Leaf(ms, c, PageOf(p)).flags, Leaf(m, c, PageOf(p)).flags, phs, base, n, q, nx, p);
    }
  }

  lemma BytesNext(ms: Memory, m: Memory, m': Memory, c: nat, phs: seq<Phdr>, base: nat, n: nat, q: nat)
    requires n < |phs| && IsLoad(phs[n]) && First(phs[n], base) <= q <= Last(phs[n], base)
    requires BytesOver(ms, m, c, phs, base, n, q) && BytesAdded(m, m', c, q)
    ensures BytesOver(ms, m', c, phs, base, n, q + 1)
  {
    hide ByteAt, First, Last, IsLoad, Touched, Writable, Executable;
    forall a: nat | a < USER_BYTES
      ensures ByteAt(m', c, a) == if ByteAt(ms, c, a).Some? then ByteAt(ms, c, a)
                                  else if Touched(phs, base, n, q + 1, a / FRAME_BYTES) then Some(0)
                                  else None
    {
      TouchedNext(phs, base, n, q, a / FRAME_BYTES);
      assert ByteAt(m, c, a) == ByteAt(m, c, a);
    }
  }

  /** Untouched pages are neither writable nor executable. */
  lemma NotSeen(phs: seq<Phdr>, base: nat, n: nat, hi: nat)
    ensures forall p: nat :: Writable(phs, base, n, hi, p) || Executable(phs, base, n, hi, p) ==> Touched(phs, base, n, hi, p)
  {
    hide Sees;
  }

  /** The same pages seen, said with other bounds. */
  lemma SameSeen(ms: Memory, m: Memory, c: nat, phs: seq<Phdr>, base: nat, n: nat, hi: nat, n': nat, hi': nat, nx: bool)
    requires forall i: nat, p: nat :: Sees(phs, base, n, hi, i, p) <==> Sees(phs, base, n', hi', i, p)
    ensures Perms(ms, m, c, phs, base, n, hi, nx) ==> Perms(ms, m, c, phs, base, n', hi', nx)
    ensures BytesOver(ms, m, c, phs, base, n, hi) ==> BytesOver(ms, m, c, phs, base, n', hi')
  {
    hide Leaf, PageOf, Sees, ByteAt;
    forall p: nat
      ensures Touched(phs, base, n, hi, p) <==> Touched(phs, base, n', hi', p)
      ensures Writable(phs, base, n, hi, p) <==> Writable(phs, base, n', hi', p)
      ensures Executable(phs, base, n, hi, p) <==> Executable(phs, base, n', hi', p)
    {
      forall i: nat
        ensures Sees(phs, base, n, hi, i, p) <==> Sees(phs, base, n', hi', i, p)
      {
      }
    }
    forall q: nat, f: Flags, g: Flags
      ensures PagePerms(f, g, phs, base, n, hi, nx, q) <==> PagePerms(f, g, phs, base, n', hi', nx, q)
    {
      hide Touched, Writable, Executable;
    }
  }

  /** Before segment `n` nothing of it is mapped; after its last page all of it is. */
  lemma SegmentStarts(ms: Memory, m: Memory, c: nat, phs: seq<Phdr>, base: nat, n: nat, nx: bool)
    requires n < |phs| && IsLoad(phs[n])
    ensures Perms(ms, m, c, phs, base, n, 0, nx) ==> Perms(ms, m, c, phs, base, n, First(phs[n], base), nx)
    ensures BytesOver(ms, m, c, phs, base, n, 0) ==> BytesOver(ms, m, c, phs, base, n, First(phs[n], base))
  {
    hide Perms, BytesOver, First, Last, IsLoad;
    SameSeen(ms, m, c, phs, base, n, 0, n, First(phs[n], base), nx);
  }

  lemma SegmentEnds(ms: Memory, m: Memory, c: nat, phs: seq<Phdr>, base: nat, n: nat, nx: bool)
    requires n < |phs|
    ensures IsLoad(phs[n]) ==> (Perms(ms, m, c, phs, base, n, Last(phs[n], base) + 1, nx) ==> Perms(ms, m, c, phs, base, n + 1, 0, nx))
    ensures IsLoad(phs[n]) ==> (BytesOver(ms, m, c, phs, base, n, Last(phs[n], base) + 1) ==> BytesOver(ms, m, c, phs, base, n + 1, 0))
    ensures !IsLoad(phs[n]) ==> (Perms(ms, m, c, phs, base, n, 0, nx) ==> Perms(ms, m, c, phs, base, n + 1, 0, nx))
    ensures !IsLoad(phs[n]) ==> (BytesOver(ms, m, c, phs, base, n, 0) ==> BytesOver(ms, m, c, phs, base, n + 1, 0))
  {
    hide Perms, BytesOver, First, Last;
    if IsLoad(phs[n]) {
      SameSeen(ms, m, c, phs, base, n, Last(phs[n], base) + 1, n + 1, 0, nx);
    } else {
      SameSeen(ms, m, c, phs, base, n, 0, n + 1, 0, nx);
    }
  }

  /** Nothing loaded yet: permissions and bytes are those at the start. */
  lemma NothingLoaded(ms: Memory, c: nat, phs: seq<Phdr>, base: nat, nx: bool)
    ensures Perms(ms, ms, c, phs, base, 0, 0, nx) && BytesOver(ms, ms, c, phs, base, 0, 0)
  {
    hide Leaf, PageOf, ByteAt;
  }

  lemma PermsCover(ms: Memory, m: Memory, c: nat, phs: seq<Phdr>, base: nat, n: nat, hi: nat, nx: bool)
    requires Perms(ms, m, c, phs, base, n, hi, nx)
    ensures Covers(m, c, phs, base, n, hi)
  {
    hide Leaf, PageOf, Touched, Writable, Executable;
    forall q: nat | q < USER_PAGES && Touched(phs, base, n, hi, q)
      ensures Leaf(m, c, PageOf(q)).flags.present
    {
      assert PagePerms(Leaf(ms, c, PageOf(q)).flags, Leaf(m, c, PageOf(q)).flags, phs, base, n, hi, nx, q);
    }
  }

  lemma SegmentPages(ph: Phdr, base: nat, size: nat)
    requires IsLoad(ph) && InPlace(ph, base, size)
    ensures First(ph, base) <= Last(ph, base) < USER_PAGES
  {
  }

  /** `map_segment_pages`. */
  method MapSegment(mc: Machine, c: nat, phs: seq<Phdr>, base: nat, n: nat, nx: bool, size: nat,
                    ghost all: seq<Visit>, ghost k: nat,
                    ghost ms: Memory, ghost m0: Memory, ghost sp0: Spaces, ghost ow0: Owners, ghost free0: set<nat>)
    returns (r: Status)
    requires Loading(mc, c, nx, m0, sp0, ow0, free0) && n < |phs| && IsLoad(phs[n]) && InPlace(phs[n], base, size)
    requires Perms(ms, mc.mem, c, phs, base, n, 0, nx) && BytesOver(ms, mc.mem, c, phs, base, n, 0)
    requires var len := |SegVisits(phs[n], base)|; k + len <= |all| && all[k..k + len] == SegVisits(phs[n], base)
    requires Tallied(mc, c, all[..k], nx, free0)
    modifies mc, mc.pmm, mc.pmm.bitmap
    ensures Loading(mc, c, nx, m0, sp0, ow0, free0)
    ensures r.Ok? ==> Perms(ms, mc.mem, c, phs, base, n + 1, 0, nx) && BytesOver(ms, mc.mem, c, phs, base, n + 1, 0)
    ensures !r.Ok? ==> r == Verdict(all, k, |free0|, nx)
    ensures r.Ok? ==>
              var len := |SegVisits(phs[n], base)|;
              Tallied(mc, c, all[..k + len], nx, free0) && Verdict(all, k, |free0|, nx) == Verdict(all, k + len, |free0|, nx)
  {
    hide Loading, Perms, BytesOver, First, Last, OnlyPage, Laid, BytesAdded, Leaf, PageOf, InPlace, Tallied, Verdict, Fate;
    var flags := SegFlags(phs[n], nx);
    assert nx && flags.write ==> flags.nx by { InPlaceFlags(phs[n], base, size); }
    SegmentPages(phs[n], base, size);
    SegmentStarts(ms, mc.mem, c, phs, base, n, nx);
    var q, last := First(phs[n], base), Last(phs[n], base);
    while q <= last
      invariant First(phs[n], base) <= q <= last + 1
      invariant Loading(mc, c, nx, m0, sp0, ow0, free0)
      invariant Perms(ms, mc.mem, c, phs, base, n, q, nx) && BytesOver(ms, mc.mem, c, phs, base, n, q)
      invariant Tallied(mc, c, all[..k + (q - First(phs[n], base))], nx, free0)
      invariant Verdict(all, k, |free0|, nx) == Verdict(all, k + (q - First(phs[n], base)), |free0|, nx)
    {
      ghost var m1 := mc.mem;
      ghost var e;
      ghost var j := k + (q - First(phs[n], base));
      assert all[j] == all[k..k + |SegVisits(phs[n], base)|][j - k] == Visit(q, phs[n].Write(), phs[n].Exec());
      assert all[..j + 1] == all[..j] + [all[j]];
      VerdictStep(all, j, |free0|, nx);
      r, e := MapOne(mc, c, q, flags, nx, all[j], all[..j], m0, sp0, ow0, free0);
      if !r.Ok? {
        return;
      }
      PermsNext(ms, m1, mc.mem, c, phs, base, n, q, nx, e);
      BytesNext(ms, m1, mc.mem, c, phs, base, n, q);
      q := q + 1;
    }
    SegmentEnds(ms, mc.mem, c, phs, base, n, nx);
    return Ok;
  }

  lemma InPlaceFlags(ph: Phdr, base: nat, size: nat)
    requires InPlace(ph, base, size)
    ensures !(ph.Write() && ph.Exec())
  {
  }

  /** Where the visits of header `n` stand among all visits. */
  lemma PlanAt(vs: seq<Visit>, phs: seq<Phdr>, base: nat, n: nat)
    requires n < |phs|
    ensures var all, k := vs + Visits(phs, base, |phs|), |vs| + |Visits(phs, base, n)|;
            && k <= |all| && |vs| + |Visits(phs, base, n + 1)| <= |all|
            && (IsLoad(phs[n]) ==>
                  var sv := SegVisits(phs[n], base);
                  |vs| + |Visits(phs, base, n + 1)| == k + |sv| && all[k..k + |sv|] == sv)
            && (!IsLoad(phs[n]) ==> |vs| + |Visits(phs, base, n + 1)| == k)
  {
    hide IsLoad, SegVisits;
    LoadsSized(phs[n]);
    VisitsPrefix(phs, base, n + 1, |phs|);
    var all, a, b := vs + Visits(phs, base, |phs|), Visits(phs, base, n), Visits(phs, base, n + 1);
    assert b <= Visits(phs, base, |phs|);
    if IsLoad(phs[n]) {
      var sv, k := SegVisits(phs[n], base), |vs| + |a|;
      assert b == a + sv;
      assert all[k..k + |sv|] == Visits(phs, base, |phs|)[|a|..|a| + |sv|] == b[|a|..];
    }
  }

  lemma LoadsSized(ph: Phdr)
    ensures IsLoad(ph) ==> ph.memsz != 0
  {
  }

  lemma NoVisits(phs: seq<Phdr>, base: nat)
    ensures Visits(phs, base, 0) == []
  {
  }

  /** The mapping loop of `elf_load_segments_only`. */
  method MapSegments(mc: Machine, c: nat, phs: seq<Phdr>, base: nat, nx: bool, size: nat, ghost vs: seq<Visit>,
                     ghost m0: Memory, ghost sp0: Spaces, ghost ow0: Owners, ghost free0: set<nat>)
    returns (r: Status)
    requires Loading(mc, c, nx, m0, sp0, ow0, free0) && Layout(phs, base, size) && Tallied(mc, c, vs, nx, free0)
    modifies mc, mc.pmm, mc.pmm.bitmap
    ensures Loading(mc, c, nx, m0, sp0, ow0, free0)
    ensures r.Ok? ==> Perms(old(mc.mem), mc.mem, c, phs, base, |phs|, 0, nx) && BytesOver(old(mc.mem), mc.mem, c, phs, base, |phs|, 0)
    ensures r == Verdict(vs + Visits(phs, base, |phs|), |vs|, |free0|, nx)
    ensures r.Ok? ==> Tallied(mc, c, vs + Visits(phs, base, |phs|), nx, free0)
  {
    hide Loading, Perms, BytesOver, InPlace, Tallied, Verdict, SegVisits, IsLoad, Visits, Apart;
    ghost var all := vs + Visits(phs, base, |phs|);
    assert all[..|vs|] == vs && Visits(phs, base, 0) == [] by { NoVisits(phs, base); }
    ghost var ms := mc.mem;
    NothingLoaded(ms, c, phs, base, nx);
    for n := 0 to |phs|
      invariant Loading(mc, c, nx, m0, sp0, ow0, free0)
      invariant Perms(ms, mc.mem, c, phs, base, n, 0, nx) && BytesOver(ms, mc.mem, c, phs, base, n, 0)
      invariant |vs| + |Visits(phs, base, n)| <= |all| && Tallied(mc, c, all[..|vs| + |Visits(phs, base, n)|], nx, free0)
      invariant Verdict(all, |vs|, |free0|, nx) == Verdict(all, |vs| + |Visits(phs, base, n)|, |free0|, nx)
    {
      ghost var k := |vs| + |Visits(phs, base, n)|;
      VisitsPrefix(phs, base, n + 1, |phs|);
      PlanAt(vs, phs, base, n);
      if IsLoad(phs[n]) {
        LoadsSized(phs[n]);
        r := MapSegment(mc, c, phs, base, n, nx, size, all, k, ms, m0, sp0, ow0, free0);
        if !r.Ok? {
          return;
        }
      } else {
        SegmentEnds(ms, mc.mem, c, phs, base, n, nx);
      }
    }
    VerdictEnd(all, |free0|, nx);
    assert all[..|all|] == all;
    return Ok;
  }

  // -----------------------------------------------------------------------------
  // Contents

  /** Every page of `c` is mapped as before. */
  ghost predicate SameMap(m: Memory, m': Memory, c: nat) {
    forall v :: UserPage(v) ==> Leaf(m', c, v) == Leaf(m, c, v)
  }

  lemma StillLoading(m0: Memory, m1: Memory, m2: Memory, sp0: Spaces, ow0: Owners, sp: Spaces, ow: Owners, c: nat, nx: bool)
    requires c !in sp0 && c in sp && sp == sp0[c := sp[c]] && Inv(m0, sp0, ow0) && Extends(ow0, ow, c)
    requires LeavesSame(m0, m1, sp0) && LeavesSame(m1, m2, sp) && DataSame(m0, m1, ow0) && OthersData(m1, m2, ow, c)
    requires Agrees(m1, c, sp[c]) && WxSafe(m1, c, nx) && forall i :: 0 <= i < |sp[c]| ==> UserPage(PageOf(sp[c][i].virt))
    ensures LeavesSame(m0, m2, sp0) && DataSame(m0, m2, ow0) && Agrees(m2, c, sp[c]) && WxSafe(m2, c, nx) && SameMap(m1, m2, c)
  {
    hide Leaf, UserPage, PageOf, NoHuge, NodesOwned, OwnersAreNodes, DataOwned, Agrees, WxSafe;
    NoPage(m0, m1, m2, sp0, sp, c, nx);
    forall f | f in ow0 && ow0[f].DataOf? && f < |m0|
      ensures m2[f] == m0[f]
    {
      assert ow0[f] == ow[f] && m1[f] == m0[f];
    }
  }

  /** A store into the new space. */
  method Store(mc: Machine, c: nat, va: nat, data: seq<byte>, nx: bool, ghost m0: Memory, ghost sp0: Spaces, ghost ow0: Owners, ghost free0: set<nat>)
    requires Loading(mc, c, nx, m0, sp0, ow0, free0) && va < USER_BYTES && va % FRAME_BYTES + |data| <= FRAME_BYTES
    requires Leaf(mc.mem, c, PageOf(va / FRAME_BYTES)).flags.present
    modifies mc`mem
    ensures Loading(mc, c, nx, m0, sp0, ow0, free0)
    ensures BytesSet(old(mc.mem), mc.mem, c, va, data) && SameMap(old(mc.mem), mc.mem, c)
    ensures UserCopy.Copied(old(mc.mem), mc.mem, mc.spaces, mc.owner, c, va, data) && GrewAt(old(mc.mem), mc.mem, c, {})
  {
    hide GrewAt, Inv, Machine.Ready, Partition, LeavesSame, DataSame, Extends, OthersData, BytesSet, Agrees, WxSafe, SameMap, Private,
         Leaf, PageOf, Pmm.FreeSet;
    ghost var m1 := mc.mem;
    LoadingReady(mc, c, nx, m0, sp0, ow0, free0);
    AgreesPrivate(mc.mem, mc.spaces, mc.owner, c);
    PagesUser(mc, c);
    Poke(mc, c, va, data);
    StillLoading(m0, m1, mc.mem, sp0, ow0, mc.spaces, mc.owner, c, nx);
  }

  lemma SameMapTrans(m: Memory, m1: Memory, m2: Memory, c: nat)
    requires SameMap(m, m1, c) && SameMap(m1, m2, c)
    ensures SameMap(m, m2, c)
  {
    hide Leaf, UserPage;
  }

  lemma PagePresent(m: Memory, c: nat, phs: seq<Phdr>, base: nat, n: nat, size: nat, a: nat)
    requires Covers(m, c, phs, base, |phs|, 0) && n < |phs| && IsLoad(phs[n]) && InPlace(phs[n], base, size)
    requires phs[n].vaddr + base <= a < phs[n].vaddr + base + phs[n].memsz
    ensures a < USER_BYTES && Leaf(m, c, PageOf(a / FRAME_BYTES)).flags.present
  {
    hide Leaf, PageOf;
    assert First(phs[n], base) <= a / FRAME_BYTES <= Last(phs[n], base);
    assert Sees(phs, base, |phs|, 0, n, a / FRAME_BYTES);
  }

  lemma CoversSame(ms: Memory, m: Memory, m': Memory, c: nat, phs: seq<Phdr>, base: nat, n: nat, hi: nat, nx: bool)
    requires SameMap(m, m', c)
    ensures Covers(m, c, phs, base, n, hi) ==> Covers(m', c, phs, base, n, hi)
    ensures Perms(ms, m, c, phs, base, n, hi, nx) ==> Perms(ms, m', c, phs, base, n, hi, nx)
  {
    hide Leaf, PageOf, UserPage, PagePerms, Touched;
    forall q: nat | q < USER_PAGES
      ensures Leaf(m', c, PageOf(q)) == Leaf(m, c, PageOf(q))
    {
      UserNumber(q);
    }
  }

  /** `copy_segment_data`; its out-of-memory return is never taken, since all its pages are
      mapped. */
  method CopySegment(mc: Machine, c: nat, b: Image, phs: seq<Phdr>, base: nat, n: nat, nx: bool, ghost m0: Memory, ghost sp0: Spaces, ghost ow0: Owners, ghost free0: set<nat>)
    requires Loading(mc, c, nx, m0, sp0, ow0, free0) && n < |phs| && IsLoad(phs[n]) && InPlace(phs[n], base, |b|)
    requires Covers(mc.mem, c, phs, base, |phs|, 0)
    modifies mc`mem
    ensures Loading(mc, c, nx, m0, sp0, ow0, free0) && SameMap(old(mc.mem), mc.mem, c)
    ensures BytesSet(old(mc.mem), mc.mem, c, phs[n].vaddr + base, b[phs[n].offset..phs[n].offset + phs[n].filesz])
    ensures GrewAt(old(mc.mem), mc.mem, c, {})
  {
    hide *;
    GrewSelf(mc.mem, c);
    var ph := phs[n];
    SegmentBounds(ph, base, |b|);
    var start, data := ph.vaddr + base, b[ph.offset..ph.offset + ph.filesz];
    var done := 0;
    UserCopy.CopiedNone(mc.mem, mc.spaces, mc.owner, c, start);
    assert data[..0] == [];
    SameMapSelf(mc.mem, c);
    LoadingReady(mc, c, nx, m0, sp0, ow0, free0);
    while done < ph.filesz
      invariant done <= ph.filesz && Loading(mc, c, nx, m0, sp0, ow0, free0)
      invariant Covers(mc.mem, c, phs, base, |phs|, 0) && SameMap(old(mc.mem), mc.mem, c)
      invariant UserCopy.Copied(old(mc.mem), mc.mem, mc.spaces, mc.owner, c, start, data[..done]) && GrewAt(old(mc.mem), mc.mem, c, {})
    {
      var va := start + done;
      var chunk := UserCopy.Chunk(va, ph.filesz - done);
      ghost var m1 := mc.mem;
      PagePresent(mc.mem, c, phs, base, n, |b|, va);
      Store(mc, c, va, data[done..done + chunk], nx, m0, sp0, ow0, free0);
      UserCopy.CopiedOn(old(mc.mem), m1, mc.mem, mc.spaces, mc.owner, c, start, data, done, done + chunk);
      CoversSame(m1, m1, mc.mem, c, phs, base, |phs|, 0, nx);
      SameMapTrans(old(mc.mem), m1, mc.mem, c);
      GrewStill(old(mc.mem), m1, mc.mem, c);
      done := done + chunk;
    }
    assert data[..done] == data;
    UserCopy.CopiedViews(old(mc.mem), mc.mem, mc.spaces, mc.owner, c, start, data);
  }

  lemma GrewSelf(m: Memory, c: nat)
    ensures GrewAt(m, m, c, {})
  {
    GrewNone(m, c, {});
  }

  lemma GrewStill(m0: Memory, m1: Memory, m2: Memory, c: nat)
    requires GrewAt(m0, m1, c, {}) && GrewAt(m1, m2, c, {})
    ensures GrewAt(m0, m2, c, {})
  {
    hide GrewAt;
    var none: set<Path> := {};
    GrewTwice(m0, m1, m2, c, none, none);
    assert none + none == none;
  }

  /** Bytes may change, the tally stays. */
  lemma TallyKept(mc: Machine, m: Memory, c: nat, vs: seq<Visit>, nx: bool, free0: set<nat>)
    requires c in mc.spaces && |mc.spaces[c]| == |Pages(vs)| && |mc.pmm.FreeSet()| + Cost(|Pages(vs)|, Pages(vs)) == |free0|
    requires Tracks(m, c, vs, nx) && Planted(m, c, Pages(vs)) && SameMap(m, mc.mem, c) && GrewAt(m, mc.mem, c, {})
    ensures Tallied(mc, c, vs, nx, free0)
  {
    hide Pages, Cost, Pmm.FreeSet, Leaf, PageOf, UserPage, Writes, Executes, Node, UserPath, TablesFor, VisitFlags;
    forall q: nat | q < USER_PAGES
      ensures VisitFlags(Leaf(mc.mem, c, PageOf(q)).flags, vs, nx, q)
    {
      UserNumber(q);
      assert VisitFlags(Leaf(m, c, PageOf(q)).flags, vs, nx, q);
    }
    forall q | UserPath(q) && q != Root
      ensures Node(mc.mem, c, q).Some? <==> q in TablesFor(Pages(vs))
    {
      assert Node(mc.mem, c, q).Some? <==> Node(m, c, q).Some?;
    }
  }

  lemma SegmentBounds(ph: Phdr, base: nat, size: nat)
    requires InPlace(ph, base, size)
    ensures ph.filesz <= ph.memsz && ph.offset + ph.filesz <= size && ph.vaddr + base + ph.memsz <= USER_BYTES
  {
  }

  lemma SameMapSelf(m: Memory, c: nat)
    ensures SameMap(m, m, c)
  {
    hide Leaf, UserPage;
  }

  /** Address `a` lies in the segment; in the part that comes from the file. */
  predicate InSegment(ph: Phdr, base: nat, a: nat) { IsLoad(ph) && ph.vaddr + base <= a < ph.vaddr + base + ph.memsz }

  predicate InFile(ph: Phdr, base: nat, a: nat) { IsLoad(ph) && ph.vaddr + base <= a < ph.vaddr + base + ph.filesz }

  /** The byte the segment asks for at an address of its own: the file's, or zero. */
  function Want(b: Image, ph: Phdr, base: nat, a: nat): byte {
    if InFile(ph, base, a) && ph.offset + (a - ph.vaddr - base) < |b| then b[ph.offset + (a - ph.vaddr - base)] else 0
  }

  ghost predicate SomeFile(phs: seq<Phdr>, base: nat, n: nat, a: nat)
    requires n <= |phs|
  {
    exists i :: 0 <= i < n && InFile(phs[i], base, a)
  }

  /** The file parts of the first `n` segments are written over `m2`, and nothing else. */
  ghost predicate Written(m2: Memory, m: Memory, c: nat, b: Image, phs: seq<Phdr>, base: nat, n: nat)
    requires Layout(phs, base, |b|) && n <= |phs|
  {
    && (forall i, a: nat {:trigger InFile(phs[i], base, a)} :: 0 <= i < n && InFile(phs[i], base, a) ==>
          ByteAt(m, c, a) == Some(Want(b, phs[i], base, a)))
    && (forall a: nat {:trigger ByteAt(m, c, a)} :: a < USER_BYTES && !SomeFile(phs, base, n, a) ==> ByteAt(m, c, a) == ByteAt(m2, c, a))
  }

  lemma WrittenMore(m2: Memory, m: Memory, m': Memory, c: nat, b: Image, phs: seq<Phdr>, base: nat, n: nat)
    requires Layout(phs, base, |b|) && n < |phs| && Written(m2, m, c, b, phs, base, n)
    requires if IsLoad(phs[n]) then BytesSet(m, m', c, phs[n].vaddr + base, b[phs[n].offset..phs[n].offset + phs[n].filesz]) else m' == m
    ensures Written(m2, m', c, b, phs, base, n + 1)
  {
    hide ByteAt;
    forall i, a: nat | 0 <= i < n + 1 && InFile(phs[i], base, a)
      ensures ByteAt(m', c, a) == Some(Want(b, phs[i], base, a))
    {
      assert InPlace(phs[i], base, |b|);
      if i < n && IsLoad(phs[n]) {
        assert Apart(phs[i], phs[n], base) && InPlace(phs[n], base, |b|);
      }
    }
    forall a: nat | a < USER_BYTES && !SomeFile(phs, base, n + 1, a)
      ensures ByteAt(m', c, a) == ByteAt(m2, c, a)
    {
      assert !InFile(phs[n], base, a);
      assert !SomeFile(phs, base, n, a);
      assert ByteAt(m, c, a) == ByteAt(m2, c, a);
    }
  }

  /** The copying loop of `elf_load_segments_only`. */
  method CopySegments(mc: Machine, c: nat, b: Image, phs: seq<Phdr>, base: nat, nx: bool,
                      ghost m0: Memory, ghost sp0: Spaces, ghost ow0: Owners, ghost free0: set<nat>)
    requires Loading(mc, c, nx, m0, sp0, ow0, free0) && Layout(phs, base, |b|) && Covers(mc.mem, c, phs, base, |phs|, 0)
    modifies mc`mem
    ensures Loading(mc, c, nx, m0, sp0, ow0, free0) && SameMap(old(mc.mem), mc.mem, c)
    ensures Written(old(mc.mem), mc.mem, c, b, phs, base, |phs|) && GrewAt(old(mc.mem), mc.mem, c, {})
  {
    hide Loading, Covers, SameMap, Written, BytesSet, InPlace, Apart, GrewAt;
    SameMapSelf(mc.mem, c);
    GrewSelf(mc.mem, c);
    assert Written(mc.mem, mc.mem, c, b, phs, base, 0) by { NoneWritten(mc.mem, c, b, phs, base); }
    for n := 0 to |phs|
      invariant Loading(mc, c, nx, m0, sp0, ow0, free0) && SameMap(old(mc.mem), mc.mem, c)
      invariant Covers(mc.mem, c, phs, base, |phs|, 0) && Written(old(mc.mem), mc.mem, c, b, phs, base, n)
      invariant GrewAt(old(mc.mem), mc.mem, c, {})
    {
      ghost var m1 := mc.mem;
      if IsLoad(phs[n]) {
        CopySegment(mc, c, b, phs, base, n, nx, m0, sp0, ow0, free0);
        SameMapTrans(old(mc.mem), m1, mc.mem, c);
        GrewStill(old(mc.mem), m1, mc.mem, c);
        CoversSame(m1, m1, mc.mem, c, phs, base, |phs|, 0, nx);
      }
      WrittenMore(old(mc.mem), m1, mc.mem, c, b, phs, base, n);
    }
  }

  lemma NoneWritten(m: Memory, c: nat, b: Image, phs: seq<Phdr>, base: nat)
    requires Layout(phs, base, |b|)
    ensures Written(m, m, c, b, phs, base, 0)
  {
    hide ByteAt;
  }

  /** The space after a load over memory `ms`: file bytes where a segment has them, otherwise what
      was there, otherwise zero on the pages of the segments, otherwise nothing. */
  ghost predicate Laden(ms: Memory, m: Memory, c: nat, b: Image, phs: seq<Phdr>, base: nat)
    requires Layout(phs, base, |b|)
  {
    && (forall i, a: nat {:trigger InFile(phs[i], base, a)} :: 0 <= i < |phs| && InFile(phs[i], base, a) ==>
          ByteAt(m, c, a) == Some(Want(b, phs[i], base, a)))
    && (forall a: nat {:trigger ByteAt(m, c, a)} :: a < USER_BYTES && !SomeFile(phs, base, |phs|, a) ==>
          ByteAt(m, c, a) == if ByteAt(ms, c, a).Some? then ByteAt(ms, c, a)
                             else if Touched(phs, base, |phs|, 0, a / FRAME_BYTES) then Some(0)
                             else None)
  }

  lemma LadenIs(ms: Memory, m2: Memory, m: Memory, c: nat, b: Image, phs: seq<Phdr>, base: nat)
    requires Layout(phs, base, |b|) && BytesOver(ms, m2, c, phs, base, |phs|, 0) && Written(m2, m, c, b, phs, base, |phs|)
    ensures Laden(ms, m, c, b, phs, base)
  {
    hide ByteAt, Touched, Layout, SomeFile;
    forall a: nat | a < USER_BYTES && !SomeFile(phs, base, |phs|, a)
      ensures ByteAt(m, c, a) == if ByteAt(ms, c, a).Some? then ByteAt(ms, c, a)
                                 else if Touched(phs, base, |phs|, 0, a / FRAME_BYTES) then Some(0)
                                 else None
    {
      assert ByteAt(m2, c, a) == ByteAt(m, c, a);
    }
  }

  /** `elf_load_segments_only`, into any space: all pages first, then all bytes. */
  method LoadSegments(mc: Machine, c: nat, b: Image, phs: seq<Phdr>, base: nat, nx: bool, ghost vs: seq<Visit>,
                      ghost m0: Memory, ghost sp0: Spaces, ghost ow0: Owners, ghost free0: set<nat>)
    returns (r: Status)
    requires Loading(mc, c, nx, m0, sp0, ow0, free0) && Layout(phs, base, |b|) && Tallied(mc, c, vs, nx, free0)
    modifies mc, mc.pmm, mc.pmm.bitmap
    ensures Loading(mc, c, nx, m0, sp0, ow0, free0)
    ensures r.Ok? ==> Perms(old(mc.mem), mc.mem, c, phs, base, |phs|, 0, nx) && Laden(old(mc.mem), mc.mem, c, b, phs, base)
    ensures r == Verdict(vs + Visits(phs, base, |phs|), |vs|, |free0|, nx)
    ensures r.Ok? ==> Tallied(mc, c, vs + Visits(phs, base, |phs|), nx, free0)
  {
    hide Loading, Covers, SameMap, Laden, Layout, BytesOver, Perms, Written, Tallied, Verdict, Visits, GrewAt, Tracks, Planted, Cost,
         Pages, Pmm.FreeSet;
    ghost var all := vs + Visits(phs, base, |phs|);
    r := MapSegments(mc, c, phs, base, nx, |b|, vs, m0, sp0, ow0, free0);
    if !r.Ok? {
      return;
    }
    ghost var m1 := mc.mem;
    TallyParts(mc, c, all, nx, free0);
    PermsCover(old(mc.mem), m1, c, phs, base, |phs|, 0, nx);
    CopySegments(mc, c, b, phs, base, nx, m0, sp0, ow0, free0);
    CoversSame(old(mc.mem), m1, mc.mem, c, phs, base, |phs|, 0, nx);
    LadenIs(old(mc.mem), m1, mc.mem, c, b, phs, base);
    SameSpaces(mc, c, nx, m0, sp0, ow0, free0);
    TallyKept(mc, m1, c, all, nx, free0);
  }

  lemma SameSpaces(mc: Machine, c: nat, nx: bool, m0: Memory, sp0: Spaces, ow0: Owners, free0: set<nat>)
    requires Loading(mc, c, nx, m0, sp0, ow0, free0)
    ensures c in mc.spaces
  {
  }

  /** Every byte of the segment is the one it asks for. */
  ghost predicate SegHas(m: Memory, c: nat, b: Image, ph: Phdr, base: nat)
    requires InPlace(ph, base, |b|)
  {
    forall a: nat {:trigger ByteAt(m, c, a)} :: InSegment(ph, base, a) ==> ByteAt(m, c, a) == Some(Want(b, ph, base, a))
  }

  /** Every segment reads back. */
  ghost predicate Filled(m: Memory, c: nat, b: Image, phs: seq<Phdr>, base: nat)
    requires Layout(phs, base, |b|)
  {
    forall i :: 0 <= i < |phs| && IsLoad(phs[i]) ==> SegHas(m, c, b, phs[i], base)
  }

  // -----------------------------------------------------------------------------
  // The stack

  const STACK_PAGES: nat := 16
  const STACK_FIRST: nat := (STACK_TOP - STACK_SIZE) / FRAME_BYTES

  predicate OnStack(q: nat, k: nat) { STACK_FIRST <= q < STACK_FIRST + k }

  /** The first `k` stack pages are mapped writable and not executable; other pages are as in `m1`. */
  ghost predicate Stacked(m1: Memory, m: Memory, c: nat, k: nat, nx: bool) {
    forall q: nat {:trigger PageOf(q)} :: q < USER_PAGES ==>
      if OnStack(q, k) then
        var f := Leaf(m, c, PageOf(q)).flags;
        f.present && f.user && f.write && f.nx == nx
      else Leaf(m, c, PageOf(q)) == Leaf(m1, c, PageOf(q))
  }

  /** Bytes off the stack are as in `m1`. */
  ghost predicate OffStack(m1: Memory, m: Memory, c: nat) {
    forall a: nat {:trigger ByteAt(m, c, a)} :: a < USER_BYTES && !(STACK_TOP - STACK_SIZE <= a < STACK_TOP) ==>
      ByteAt(m, c, a) == ByteAt(m1, c, a)
  }

  ghost predicate StackClear(m: Memory, c: nat) {
    forall q: nat {:trigger PageOf(q)} :: OnStack(q, STACK_PAGES) ==> !Leaf(m, c, PageOf(q)).flags.present
  }

  /** No segment of an accepted image touches a stack page. */
  lemma StackUntouched(phs: seq<Phdr>, base: nat, size: nat, q: nat)
    requires Layout(phs, base, size) && OnStack(q, STACK_PAGES)
    ensures !Touched(phs, base, |phs|, 0, q)
  {
    forall i: nat
      ensures !Sees(phs, base, |phs|, 0, i, q)
    {
      if i < |phs| && IsLoad(phs[i]) {
        assert InPlace(phs[i], base, size);
      }
    }
  }

  lemma SegmentsOffStack(ms: Memory, m: Memory, c: nat, phs: seq<Phdr>, base: nat, size: nat, nx: bool)
    requires Layout(phs, base, size) && Perms(ms, m, c, phs, base, |phs|, 0, nx) && StackClear(ms, c)
    ensures StackClear(m, c)
  {
    hide Leaf, PageOf, Touched, Writable, Executable, Layout;
    forall q: nat | OnStack(q, STACK_PAGES)
      ensures !Leaf(m, c, PageOf(q)).flags.present
    {
      StackUntouched(phs, base, size, q);
      assert PagePerms(Leaf(ms, c, PageOf(q)).flags, Leaf(m, c, PageOf(q)).flags, phs, base, |phs|, 0, nx, q);
    }
  }

  lemma StackedMore(m1: Memory, m: Memory, m': Memory, c: nat, k: nat, nx: bool, e: Pte)
    requires Stacked(m1, m, c, k, nx) && k < STACK_PAGES
    requires OnlyPage(m, m', c, PageOf(STACK_FIRST + k), e) && e.flags.present && e.flags.user && e.flags.write && e.flags.nx == nx
    ensures Stacked(m1, m', c, k + 1, nx)
  {
    hide Leaf, PageOf, PageNumber, UserPage;
    forall q: nat | q < USER_PAGES
      ensures Leaf(m', c, PageOf(q)) == if q == STACK_FIRST + k then e else Leaf(m, c, PageOf(q))
    {
      UserNumber(q);
      if q != STACK_FIRST + k {
        NumbersApart(q, STACK_FIRST + k);
      }
    }
  }

  lemma OffStackMore(m1: Memory, m: Memory, m': Memory, c: nat, k: nat)
    requires OffStack(m1, m, c) && k < STACK_PAGES && BytesAdded(m, m', c, STACK_FIRST + k)
    ensures OffStack(m1, m', c)
  {
    hide ByteAt;
    forall a: nat | a < USER_BYTES && !(STACK_TOP - STACK_SIZE <= a < STACK_TOP)
      ensures ByteAt(m', c, a) == ByteAt(m1, c, a)
    {
      assert a / FRAME_BYTES != STACK_FIRST + k;
      assert ByteAt(m, c, a) == ByteAt(m1, c, a);
    }
  }

  /** The mapping part of `setup_user_stack`. */
  method MapStack(mc: Machine, c: nat, nx: bool, ghost vs: seq<Visit>, ghost m0: Memory, ghost sp0: Spaces, ghost ow0: Owners, ghost free0: set<nat>)
    returns (ok: bool)
    requires Loading(mc, c, nx, m0, sp0, ow0, free0) && StackClear(mc.mem, c) && Tallied(mc, c, vs, nx, free0)
    modifies mc, mc.pmm, mc.pmm.bitmap
    ensures Loading(mc, c, nx, m0, sp0, ow0, free0)
    ensures (if ok then Ok else NoMem) == Verdict(vs + StackVisits(), |vs|, |free0|, nx)
    ensures ok ==> Tallied(mc, c, vs + StackVisits(), nx, free0)
    ensures ok ==> Stacked(old(mc.mem), mc.mem, c, STACK_PAGES, nx) && OffStack(old(mc.mem), mc.mem, c)
  {
    hide *;
    var flags := Flags(false, true, false, false, nx);
    ghost var all := vs + StackVisits();
    StackPlan(vs, 0);
    StackStart(mc.mem, c, nx);
    for k := 0 to STACK_PAGES
      invariant Loading(mc, c, nx, m0, sp0, ow0, free0)
      invariant Stacked(old(mc.mem), mc.mem, c, k, nx) && OffStack(old(mc.mem), mc.mem, c)
      invariant |vs| + k <= |all| && Tallied(mc, c, all[..|vs| + k], nx, free0)
      invariant Verdict(all, |vs|, |free0|, nx) == Verdict(all, |vs| + k, |free0|, nx)
    {
      ghost var m1, j := mc.mem, |vs| + k;
      ghost var f;
      StackNext(old(mc.mem), mc.mem, c, k, nx);
      StackPlan(vs, k);
      TallyParts(mc, c, all[..j], nx, free0);
      ghost var n1, f1 := |mc.spaces[c]|, |mc.pmm.FreeSet()|;
      FreshFate(mc, c, all[..j], all[j], nx, free0);
      VerdictStep(all, j, |free0|, nx);
      ok, f := MapFresh(mc, c, STACK_FIRST + k, flags, nx, m0, sp0, ow0, free0);
      if !ok {
        return;
      }
      LoadingReady(mc, c, nx, m0, sp0, ow0, free0);
      FreshTally(mc, m1, n1, f1, c, all[..j], all[j], nx, free0, Pte(flags.(present := true, user := true), f));
      StackedMore(old(mc.mem), m1, mc.mem, c, k, nx, Pte(flags.(present := true, user := true), f));
      OffStackMore(old(mc.mem), m1, mc.mem, c, k);
    }
    StackPlan(vs, STACK_PAGES);
    VerdictEnd(all, |free0|, nx);
    return true;
  }

  /** The stack is 16 pages to be written. */
  function StackVisits(): (vs: seq<Visit>) {
    seq(STACK_PAGES, i requires 0 <= i => Visit(STACK_FIRST + i, true, false))
  }

  lemma StackPlan(vs: seq<Visit>, k: nat)
    requires k <= STACK_PAGES
    ensures var all := vs + StackVisits();
            && |all| == |vs| + STACK_PAGES && all[..|vs|] == vs && all[..|vs| + STACK_PAGES] == all
            && (k < STACK_PAGES ==>
                  all[|vs| + k] == Visit(STACK_FIRST + k, true, false) && all[..|vs| + k] + [all[|vs| + k]] == all[..|vs| + (k + 1)])
  {
  }

  lemma StackStart(m: Memory, c: nat, nx: bool)
    ensures Stacked(m, m, c, 0, nx) && OffStack(m, m, c)
  {
    hide Leaf, PageOf, ByteAt;
  }

  lemma StackNext(m1: Memory, m: Memory, c: nat, k: nat, nx: bool)
    requires Stacked(m1, m, c, k, nx) && StackClear(m1, c) && k < STACK_PAGES
    ensures STACK_FIRST + k < USER_PAGES && !Leaf(m, c, PageOf(STACK_FIRST + k)).flags.present
  {
    hide Leaf, PageOf;
    assert OnStack(STACK_FIRST + k, STACK_PAGES);
  }

  function Encode(ws: seq<nat>): (b: seq<byte>)
    ensures |b| == 8 * |ws|
  {
    if ws == [] then [] else Encode(ws[..|ws| - 1]) + Bytes(ws[|ws| - 1], 8)
  }

  /** The initial frame: argc, argv, envp and the auxiliary vector. */
  function StackWords(ld: Loader, phnum: nat, str: nat): (ws: seq<nat>)
    ensures |ws| == 18
  {
    [1, str, 0, 0, 3, ld.phdr, 4, PHDR_SIZE, 5, phnum, 9, Add64(ld.entry, ld.base), 7, ld.base, 6, FRAME_BYTES, 0, 0]
  }

  const ARGV0: seq<byte> := [0x70, 0x72, 0x6F, 0x67, 0x72, 0x61, 0x6D, 0]
  const RSP: nat := STACK_TOP - 144
  const ARGV0_AT: nat := RSP - 16

  /** The program finds every word of the frame where the ABI says. */
  lemma {:induction false} FrameReadsBack(ws: seq<nat>, i: nat, post: seq<byte>)
    requires i < |ws| && ws[i] < WORD
    ensures Le(Encode(ws) + post, 8 * i, 8) == ws[i]
    decreases |ws|
  {
    hide Le, Bytes;
    var k := |ws| - 1;
    assert Encode(ws) == Encode(ws[..k]) + Bytes(ws[k], 8);
    if i == k {
      BytesReadBack(Encode(ws[..k]), ws[k], 8, post);
    } else {
      FrameReadsBack(ws[..k], i, Bytes(ws[k], 8) + post);
      assert Encode(ws) + post == Encode(ws[..k]) + (Bytes(ws[k], 8) + post);
    }
  }

  // -----------------------------------------------------------------------------
  // The whole load

  /** A page as the segments ask for it: mapped exactly when touched, writable (executable) exactly
      when some segment touching it is. */
  ghost predicate Asked(f: Flags, phs: seq<Phdr>, base: nat, nx: bool, q: nat) {
    && (f.present <==> Touched(phs, base, |phs|, 0, q))
    && (f.present ==>
          && f.user
          && (f.write <==> Writable(phs, base, |phs|, 0, q))
          && (nx ==> (f.nx <==> !Executable(phs, base, |phs|, 0, q))))
  }

  predicate StackFlags(f: Flags, nx: bool) { f.present && f.user && f.write && f.nx == nx }

  /** Every page: 16 stack pages, writable and not executable; the others as the segments say. */
  ghost predicate FinalMap(m: Memory, c: nat, phs: seq<Phdr>, base: nat, nx: bool) {
    forall q: nat {:trigger PageOf(q)} :: q < USER_PAGES ==>
      if OnStack(q, STACK_PAGES) then StackFlags(Leaf(m, c, PageOf(q)).flags, nx)
      else Asked(Leaf(m, c, PageOf(q)).flags, phs, base, nx, q)
  }

  ghost predicate Empty(m: Memory, c: nat) {
    forall v :: UserPage(v) ==> !Leaf(m, c, v).flags.present
  }

  lemma FinalMapIs(ms: Memory, m1: Memory, m: Memory, c: nat, phs: seq<Phdr>, base: nat, nx: bool)
    requires Empty(ms, c) && Perms(ms, m1, c, phs, base, |phs|, 0, nx) && Stacked(m1, m, c, STACK_PAGES, nx)
    ensures FinalMap(m, c, phs, base, nx)
  {
    hide Leaf, PageOf, Touched, Writable, Executable, UserPage;
    forall q: nat | q < USER_PAGES && !OnStack(q, STACK_PAGES)
      ensures Asked(Leaf(m, c, PageOf(q)).flags, phs, base, nx, q)
    {
      UserNumber(q);
      assert PagePerms(Leaf(ms, c, PageOf(q)).flags, Leaf(m1, c, PageOf(q)).flags, phs, base, |phs|, 0, nx, q);
    }
  }

  lemma FinalMapSame(m: Memory, m': Memory, c: nat, phs: seq<Phdr>, base: nat, nx: bool)
    requires FinalMap(m, c, phs, base, nx) && SameMap(m, m', c)
    ensures FinalMap(m', c, phs, base, nx)
  {
    hide Leaf, PageOf, Asked, UserPage;
    forall q: nat | q < USER_PAGES
      ensures Leaf(m', c, PageOf(q)) == Leaf(m, c, PageOf(q))
    {
      UserNumber(q);
    }
  }

  predicate StackAddress(a: nat) { STACK_TOP - STACK_SIZE <= a < STACK_TOP }

  /** The whole user half off the stack: the file bytes of the segments, zeroes on the rest of their
      pages, and nothing anywhere else. */
  ghost predicate Exact(m: Memory, c: nat, b: Image, phs: seq<Phdr>, base: nat)
    requires Layout(phs, base, |b|)
  {
    && (forall i, a: nat {:trigger InFile(phs[i], base, a)} :: 0 <= i < |phs| && InFile(phs[i], base, a) ==>
          ByteAt(m, c, a) == Some(Want(b, phs[i], base, a)))
    && (forall a: nat {:trigger ByteAt(m, c, a)} :: a < USER_BYTES && !StackAddress(a) && !SomeFile(phs, base, |phs|, a) ==>
          ByteAt(m, c, a) == if Touched(phs, base, |phs|, 0, a / FRAME_BYTES) then Some(0) else None)
  }

  lemma FileOffStack(b: Image, phs: seq<Phdr>, base: nat, i: nat, a: nat)
    requires Layout(phs, base, |b|) && i < |phs| && InSegment(phs[i], base, a)
    ensures a < USER_BYTES && !StackAddress(a) && Touched(phs, base, |phs|, 0, a / FRAME_BYTES)
  {
    assert InPlace(phs[i], base, |b|);
    assert Sees(phs, base, |phs|, 0, i, a / FRAME_BYTES);
  }

  lemma ExactIs(ms: Memory, m1: Memory, m: Memory, c: nat, b: Image, phs: seq<Phdr>, base: nat)
    requires Layout(phs, base, |b|) && Empty(ms, c) && Laden(ms, m1, c, b, phs, base) && OffStack(m1, m, c)
    ensures Exact(m, c, b, phs, base)
  {
    hide Touched, Leaf, PageOf, UserPage, PageNumber, Layout, SomeFile, InFile, Want;
    forall i, a: nat | 0 <= i < |phs| && InFile(phs[i], base, a)
      ensures ByteAt(m, c, a) == Some(Want(b, phs[i], base, a))
    {
      FileIn(phs[i], base, |b|, a) by { LayoutAt(phs, base, |b|, i); }
      FileOffStack(b, phs, base, i, a);
    }
    forall a: nat | a < USER_BYTES && !StackAddress(a) && !SomeFile(phs, base, |phs|, a)
      ensures ByteAt(m, c, a) == if Touched(phs, base, |phs|, 0, a / FRAME_BYTES) then Some(0) else None
    {
      UserAddress(a);
      assert ByteAt(ms, c, a).None?;
      assert ByteAt(m1, c, a) == ByteAt(m, c, a);
    }
  }

  lemma FileIn(ph: Phdr, base: nat, size: nat, a: nat)
    requires InFile(ph, base, a) && InPlace(ph, base, size)
    ensures InSegment(ph, base, a)
  {
  }

  lemma LayoutAt(phs: seq<Phdr>, base: nat, size: nat, i: nat)
    requires Layout(phs, base, size) && i < |phs|
    ensures IsLoad(phs[i]) ==> InPlace(phs[i], base, size)
    ensures forall a :: InFile(phs[i], base, a) ==> IsLoad(phs[i])
  {
  }

  /** In its own table an address of a segment lies in no file part but that segment's. */
  lemma OwnFile(b: Image, phs: seq<Phdr>, base: nat, i: nat, a: nat)
    requires Layout(phs, base, |b|) && i < |phs| && InSegment(phs[i], base, a)
    ensures SomeFile(phs, base, |phs|, a) <==> InFile(phs[i], base, a)
  {
    forall j | 0 <= j < |phs| && j != i
      ensures !InFile(phs[j], base, a)
    {
      if IsLoad(phs[j]) {
        assert InPlace(phs[j], base, |b|) && InPlace(phs[i], base, |b|);
        assert Apart(phs[if j < i then j else i], phs[if j < i then i else j], base);
      }
    }
  }

  /** An exact load makes every segment read back. */
  lemma ExactFilled(m: Memory, c: nat, b: Image, phs: seq<Phdr>, base: nat)
    requires Layout(phs, base, |b|) && Exact(m, c, b, phs, base)
    ensures Filled(m, c, b, phs, base)
  {
    hide Touched, ByteAt, Layout, SomeFile;
    forall i | 0 <= i < |phs| && IsLoad(phs[i])
      ensures InPlace(phs[i], base, |b|) && SegHas(m, c, b, phs[i], base)
    {
      LayoutAt(phs, base, |b|, i);
      forall a: nat | InSegment(phs[i], base, a)
        ensures ByteAt(m, c, a) == Some(Want(b, phs[i], base, a))
      {
        FileOffStack(b, phs, base, i, a);
        OwnFile(b, phs, base, i, a);
      }
    }
  }

  lemma SetOffStack(m1: Memory, m: Memory, m': Memory, c: nat, va: nat, data: seq<byte>)
    requires OffStack(m1, m, c) && BytesSet(m, m', c, va, data) && STACK_TOP - STACK_SIZE <= va && va + |data| <= STACK_TOP
    ensures OffStack(m1, m', c)
  {
    hide ByteAt;
    forall a: nat | a < USER_BYTES && !(STACK_TOP - STACK_SIZE <= a < STACK_TOP)
      ensures ByteAt(m', c, a) == ByteAt(m1, c, a)
    {
      assert ByteAt(m, c, a) == ByteAt(m1, c, a);
    }
  }

  lemma SetHolds(m: Memory, m': Memory, c: nat, va: nat, data: seq<byte>)
    requires BytesSet(m, m', c, va, data) && va + |data| <= USER_BYTES
    ensures UserCopy.Holds(m', c, va, data)
  {
    hide ByteAt;
  }

  lemma HoldsStill(m: Memory, m': Memory, c: nat, va: nat, data: seq<byte>, at: nat, b: seq<byte>)
    requires BytesSet(m, m', c, va, data) && UserCopy.Holds(m, c, at, b) && at + |b| <= va && at + |b| <= USER_BYTES
    ensures UserCopy.Holds(m', c, at, b)
  {
    hide ByteAt;
    forall k: nat | k < |b|
      ensures ByteAt(m', c, at + k) == Some(b[k])
    {
      assert ByteAt(m, c, at + k) == Some(b[k]);
    }
  }

  /** The seeding part of `setup_user_stack`. */
  method SeedStack(mc: Machine, c: nat, words: seq<nat>, nx: bool, ghost m1: Memory, ghost m0: Memory, ghost sp0: Spaces, ghost ow0: Owners, ghost free0: set<nat>)
    requires Loading(mc, c, nx, m0, sp0, ow0, free0) && |words| == 18
    requires Leaf(mc.mem, c, PageOf(ARGV0_AT / FRAME_BYTES)).flags.present && OffStack(m1, mc.mem, c)
    modifies mc`mem
    ensures Loading(mc, c, nx, m0, sp0, ow0, free0)
    ensures SameMap(old(mc.mem), mc.mem, c) && OffStack(m1, mc.mem, c) && GrewAt(old(mc.mem), mc.mem, c, {})
    ensures UserCopy.Holds(mc.mem, c, RSP, Encode(words)) && UserCopy.Holds(mc.mem, c, ARGV0_AT, ARGV0)
  {
    hide Loading, Leaf, PageOf, OffStack, SameMap, UserCopy.Holds, BytesSet, Encode, UserCopy.Copied, GrewAt;
    ghost var m2 := mc.mem;
    Store(mc, c, ARGV0_AT, ARGV0, nx, m0, sp0, ow0, free0);
    SetOffStack(m1, m2, mc.mem, c, ARGV0_AT, ARGV0);
    SetHolds(m2, mc.mem, c, ARGV0_AT, ARGV0);
    ghost var m3 := mc.mem;
    assert RSP / FRAME_BYTES == ARGV0_AT / FRAME_BYTES;
    assert Leaf(m3, c, PageOf(RSP / FRAME_BYTES)) == Leaf(m2, c, PageOf(RSP / FRAME_BYTES)) by { SameAt(m2, m3, c, RSP / FRAME_BYTES); }
    Store(mc, c, RSP, Encode(words), nx, m0, sp0, ow0, free0);
    SetOffStack(m1, m3, mc.mem, c, RSP, Encode(words));
    SetHolds(m3, mc.mem, c, RSP, Encode(words));
    HoldsStill(m3, mc.mem, c, RSP, Encode(words), ARGV0_AT, ARGV0);
    SameMapTrans(m2, m3, mc.mem, c);
    GrewStill(m2, m3, mc.mem, c);
  }

  lemma SameAt(m: Memory, m': Memory, c: nat, q: nat)
    requires SameMap(m, m', c) && q < USER_PAGES
    ensures Leaf(m', c, PageOf(q)) == Leaf(m, c, PageOf(q))
  {
    hide Leaf, PageOf, UserPage;
    UserNumber(q);
  }

  /** `elf_load_into_process` on an empty space: the exact bytes of the user half off the stack, the
      exact permissions of every page, and the initial frame on the stack. */
  method LoadInto(mc: Machine, c: nat, ld: Loader, phs: seq<Phdr>, nx: bool, ghost m0: Memory, ghost sp0: Spaces, ghost ow0: Owners, ghost free0: set<nat>)
    returns (r: Status, entry: nat, rsp: nat)
    requires Loading(mc, c, nx, m0, sp0, ow0, free0) && Layout(phs, ld.base, |ld.image|) && Empty(mc.mem, c) && Tallied(mc, c, [], nx, free0)
    modifies mc, mc.pmm, mc.pmm.bitmap
    ensures Loading(mc, c, nx, m0, sp0, ow0, free0)
    ensures r == Verdict(Plan(phs, ld.base), 0, |free0|, nx)
    ensures r.Ok? ==> Tallied(mc, c, Plan(phs, ld.base), nx, free0)
    ensures r.Ok? ==> Exact(mc.mem, c, ld.image, phs, ld.base) && FinalMap(mc.mem, c, phs, ld.base, nx)
    ensures r.Ok? ==> entry == Add64(ld.entry, ld.base) && rsp == RSP
    ensures r.Ok? ==> UserCopy.Holds(mc.mem, c, RSP, Encode(StackWords(ld, |phs|, ARGV0_AT))) && UserCopy.Holds(mc.mem, c, ARGV0_AT, ARGV0)
  {
    hide *;
    entry, rsp := 0, 0;
    ghost var ms := mc.mem;
    EmptyStack(ms, c);
    ghost var vs, plan := Visits(phs, ld.base, |phs|), Plan(phs, ld.base);
    PlanParts(phs, ld.base, |free0|, nx);
    r := LoadSegments(mc, c, ld.image, phs, ld.base, nx, [], m0, sp0, ow0, free0);
    if !r.Ok? {
      return;
    }
    ghost var m1 := mc.mem;
    SegmentsOffStack(ms, m1, c, phs, ld.base, |ld.image|, nx);
    var ok := MapStack(mc, c, nx, vs, m0, sp0, ow0, free0);
    if !ok {
      r := NoMem;
      return;
    }
    ghost var m2 := mc.mem;
    FinalMapIs(ms, m1, m2, c, phs, ld.base, nx);
    TopPage(m1, m2, c, nx);
    TallyParts(mc, c, plan, nx, free0);
    SeedStack(mc, c, StackWords(ld, |phs|, ARGV0_AT), nx, m1, m0, sp0, ow0, free0);
    FinalMapSame(m2, mc.mem, c, phs, ld.base, nx);
    ExactIs(ms, m1, mc.mem, c, ld.image, phs, ld.base);
    TallyKept(mc, m2, c, plan, nx, free0);
    entry, rsp := Add64(ld.entry, ld.base), RSP;
  }

  /** Segment `i` asks for visit `v`. */
  ghost predicate Asks(phs: seq<Phdr>, base: nat, i: nat, v: Visit) {
    Sees(phs, base, |phs|, 0, i, v.q) && v.write == phs[i].Write() && v.exec == phs[i].Exec()
  }

  lemma VisitAsked(phs: seq<Phdr>, base: nat, v: Visit)
    ensures v in Visits(phs, base, |phs|) <==> exists i: nat :: Asks(phs, base, i, v)
  {
    hide Visits, First, Last;
    VisitIff(phs, base, |phs|, v);
    if v in Visits(phs, base, |phs|) {
      var i :| 0 <= i < |phs| && IsLoad(phs[i]) && First(phs[i], base) <= v.q <= Last(phs[i], base) && v.write == phs[i].Write() && v.exec == phs[i].Exec();
      assert Asks(phs, base, i, v);
    }
  }

  lemma SegmentAsks(phs: seq<Phdr>, base: nat, i: nat, q: nat)
    requires Sees(phs, base, |phs|, 0, i, q)
    ensures Visit(q, phs[i].Write(), phs[i].Exec()) in Visits(phs, base, |phs|)
  {
    hide Visits, First, Last, IsLoad;
    var v := Visit(q, phs[i].Write(), phs[i].Exec());
    assert Asks(phs, base, i, v);
    VisitAsked(phs, base, v);
  }

  /** A page is visited exactly when a segment touches it, and to be written (executed) exactly when
      such a segment is writable (executable). */
  lemma VisitsTouch(phs: seq<Phdr>, base: nat, q: nat)
    ensures var vs := Visits(phs, base, |phs|);
            && (q in Pages(vs) <==> Touched(phs, base, |phs|, 0, q))
            && (Writes(vs, q) <==> Writable(phs, base, |phs|, 0, q))
            && (Executes(vs, q) <==> Executable(phs, base, |phs|, 0, q))
  {
    hide Visits, First, Last, IsLoad, Pages, Writes, Executes;
    var vs := Visits(phs, base, |phs|);
    PagesBy(vs, q);
    forall v: Visit | v in vs && v.q == q
      ensures Touched(phs, base, |phs|, 0, q)
      ensures v.write ==> Writable(phs, base, |phs|, 0, q)
      ensures v.exec ==> Executable(phs, base, |phs|, 0, q)
    {
      VisitAsked(phs, base, v);
      var i: nat :| Asks(phs, base, i, v);
    }
    if Touched(phs, base, |phs|, 0, q) {
      var i: nat :| Sees(phs, base, |phs|, 0, i, q);
      SegmentAsks(phs, base, i, q);
    }
    if Writable(phs, base, |phs|, 0, q) {
      var i: nat :| Sees(phs, base, |phs|, 0, i, q) && phs[i].Write();
      SegmentAsks(phs, base, i, q);
    }
    if Executable(phs, base, |phs|, 0, q) {
      var i: nat :| Sees(phs, base, |phs|, 0, i, q) && phs[i].Exec();
      SegmentAsks(phs, base, i, q);
    }
  }

  lemma StackTouch(q: nat)
    ensures q in Pages(StackVisits()) <==> OnStack(q, STACK_PAGES)
    ensures Writes(StackVisits(), q) <==> OnStack(q, STACK_PAGES)
    ensures !Executes(StackVisits(), q)
  {
    var vs := StackVisits();
    if OnStack(q, STACK_PAGES) {
      assert vs[q - STACK_FIRST].q == q;
    }
  }

  /** The visits of a program: its segments, then the stack. */
  function Plan(phs: seq<Phdr>, base: nat): seq<Visit> { Visits(phs, base, |phs|) + StackVisits() }

  lemma PlanParts(phs: seq<Phdr>, base: nat, free: nat, nx: bool)
    ensures var vs, plan := Visits(phs, base, |phs|), Plan(phs, base);
            && plan == vs + StackVisits() && [] + vs == vs
            && Verdict(plan, 0, free, nx) == if Verdict(vs, 0, free, nx) == Ok then Verdict(plan, |vs|, free, nx) else Verdict(vs, 0, free, nx)
  {
    hide Verdict, Visits, StackVisits;
    VerdictOn(Visits(phs, base, |phs|), Plan(phs, base), 0, free, nx);
  }

  lemma TopPage(m1: Memory, m: Memory, c: nat, nx: bool)
    requires Stacked(m1, m, c, STACK_PAGES, nx)
    ensures Leaf(m, c, PageOf(ARGV0_AT / FRAME_BYTES)).flags.present
  {
    hide Leaf, PageOf;
    assert OnStack(ARGV0_AT / FRAME_BYTES, STACK_PAGES);
  }

  lemma EmptyStack(m: Memory, c: nat)
    requires Empty(m, c)
    ensures StackClear(m, c)
  {
    hide Leaf, PageOf, UserPage;
    forall q: nat | OnStack(q, STACK_PAGES)
      ensures !Leaf(m, c, PageOf(q)).flags.present
    {
      UserNumber(q);
    }
  }
}
