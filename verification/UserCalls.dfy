/** The system calls that shape a user space: brk, mmap and munmap. */
module UserCalls {
  import opened Common
  import opened Frames
  import opened PageTable
  import opened Ownership
  import opened AddressSpaces
  import opened Teardown
  import opened Records
  import opened Costs
  import opened Fork
  import UserMem
  import MmapSearch

  predicate Mapped(m: Memory, s: nat, q: nat) { Leaf(m, s, PageOf(q)).flags.present }

  /** The pages `q0` to `q0 + n` of space `s` may differ; all other lookups are the same. */
  ghost predicate SameOutside(m: Memory, m': Memory, s: nat, q0: nat, n: nat) {
    forall v :: UserPage(v) && !(q0 <= PageNumber(v) < q0 + n) ==> Leaf(m', s, v) == Leaf(m, s, v)
  }

  /** `rs'` is `rs` and one more record for each of the pages `q0` to `q0 + n`. */
  ghost predicate Appended(rs: seq<Mapping>, rs': seq<Mapping>, q0: nat, n: nat) {
    |rs'| == |rs| + n && rs'[..|rs|] == rs && forall i :: |rs| <= i < |rs'| ==> rs'[i].virt == q0 + i - |rs|
  }

  /** Only the lookups and records of space `s` changed. */
  ghost predicate OnlySpace(m: Memory, m': Memory, sp: Spaces, sp': Spaces, s: nat) {
    s in sp && s in sp' && sp' == sp[s := sp'[s]] && LeavesSame(m, m', sp - {s})
  }

  ghost predicate AllMapped(m: Memory, s: nat, lo: nat, hi: nat) {
    (lo < hi ==> hi <= USER_PAGES) && forall q: nat {:trigger Mapped(m, s, q)} :: lo <= q < hi ==> Mapped(m, s, q)
  }

  ghost predicate NoneMapped(m: Memory, s: nat, lo: nat, hi: nat) {
    forall q: nat {:trigger Mapped(m, s, q)} :: lo <= q < hi ==> !Mapped(m, s, q)
  }

  /** The records from number `k0` on are those of pages mapped anew: each page is mapped to its record's
      frame with these flags, and reads as zero. */
  ghost predicate FreshPages(m: Memory, s: nat, rs: seq<Mapping>, k0: nat, flags: Flags) {
    forall i :: k0 <= i < |rs| ==>
      && Leaf(m, s, PageOf(rs[i].virt)) == Pte(flags.(present := true, user := true), rs[i].frame)
      && rs[i].frame < |m| && m[rs[i].frame] == ZeroData()
  }

  // -----------------------------------------------------------------------------
  // One page

  /** `process_alloc_user_page` between two good states: a mapping over a page that is already
      mapped leaves two records for it. */
  method MapOne(mc: Machine, s: nat, q: nat, flags: Flags) returns (ok: bool)
    requires Good(mc) && s in mc.spaces
    modifies mc, mc.pmm, mc.pmm.bitmap
    ensures Good(mc) && OnlySpace(old(mc.mem), mc.mem, old(mc.spaces), mc.spaces, s)
    ensures OthersKept(old(mc.mem), mc.mem, old(mc.owner), mc.owner, s)
    ensures ok <==> old(mc.CanMap(s, q))
    ensures ok ==> |mc.pmm.FreeSet()| == |old(mc.pmm.FreeSet())| - 1 - Missing(old(mc.mem), s, PageOf(q)) && GrewAt(old(mc.mem), mc.mem, s, Way(PageOf(q)))
    ensures Appended(old(mc.spaces)[s], mc.spaces[s], q, if ok then 1 else 0) && SameOutside(old(mc.mem), mc.mem, s, q, if ok then 1 else 0)
    ensures ok ==> q < USER_PAGES && Mapped(mc.mem, s, q) && FreshPages(mc.mem, s, mc.spaces[s], |old(mc.spaces)[s]|, flags)
    ensures DataSame(old(mc.mem), mc.mem, old(mc.owner)) && Extends(old(mc.owner), mc.owner, s)
    ensures ok && Listed(old(mc.spaces)[s], PageOf(q)) ==> !DistinctPages(mc.spaces[s])
    ensures AllAgree(old(mc.mem), old(mc.spaces)) ==>
              (AllAgree(mc.mem, mc.spaces) <==> !(ok && Mapped(old(mc.mem), s, q)))
  {
    hide Inv, KernelShared, RecordsBounded, Pmm.FreeSet, Pmm.Sized, Partition, Leaf, UserPage, LeavesSame, LeafSet, DataSame, Extends, Agrees,
         Backed, PageOf, PageNumber, Machine.Valid, DistinctPages, Listed, UserRecords, AllAgree, AllBacked, OnlyPage, SameOutside, Missing, OthersKept, GrewAt, Way, FreshPages;
    ghost var m, sp := mc.mem, mc.spaces;
    Parts(mc);
    BoundedUser(sp, s);
    ghost var f;
    ok, f := mc.AllocUserPage(s, q, flags);
    KeptExtends(m, mc.mem, old(mc.owner), mc.owner, s);
    if ok {
      OnlyHere(m, mc.mem, sp, s, q, Pte(flags.(present := true, user := true), f));
      OneMapped(m, mc.mem, sp, mc.spaces, s, q, Pte(flags.(present := true, user := true), f));
      OneFresh(mc.mem, s, sp[s], q, f, flags);
    } else {
      NothingMapped(m, mc.mem, sp, s, q);
    }
  }

  lemma OnlyHere(m: Memory, m': Memory, sp: Spaces, s: nat, q: nat, e: Pte)
    requires s in sp && q < USER_PAGES && LeafSet(m, m', sp, s, PageOf(q), e)
    ensures UserPage(PageOf(q)) && OnlyPage(m, m', s, PageOf(q), e) && LeavesSame(m, m', sp - {s}) && SameOutside(m, m', s, q, 1)
    ensures Leaf(m', s, PageOf(q)) == e
  {
    hide Leaf, UserPage, PageOf, PageNumber;
    PageRoundTrip(q);
  }

  lemma OneMapped(m: Memory, m': Memory, sp: Spaces, sp': Spaces, s: nat, q: nat, e: Pte)
    requires s in sp && RecordsBounded(sp) && UserRecords(sp[s]) && AllBacked(m, sp)
    requires UserPage(PageOf(q)) && e.flags.present && OnlyPage(m, m', s, PageOf(q), e) && LeavesSame(m, m', sp - {s})
    requires sp' == sp[s := sp[s] + [Mapping(q, e.frame)]]
    ensures AllBacked(m', sp') && Appended(sp[s], sp'[s], q, 1)
    ensures Listed(sp[s], PageOf(q)) ==> !DistinctPages(sp'[s])
    ensures AllAgree(m, sp) ==> (AllAgree(m', sp') <==> !Mapped(m, s, q))
  {
    hide Leaf, UserPage, PageOf, PageNumber, Agrees, Backed, OnlyPage, UserRecords, RecordsBounded, LeavesSame, DistinctPages, Listed;
    MappedBacked(m, m', s, sp[s], q, e);
    OthersBacked(m, m', sp, sp', s);
    if Listed(sp[s], PageOf(q)) {
      DoublePage(sp[s], q, e.frame);
    }
    if AllAgree(m, sp) {
      MappedAgreesIff(m, m', s, sp[s], q, e);
      OthersAgree(m, m', sp, sp', s);
    }
  }

  lemma OneFresh(m: Memory, s: nat, rs: seq<Mapping>, q: nat, f: nat, flags: Flags)
    requires Leaf(m, s, PageOf(q)) == Pte(flags.(present := true, user := true), f) && f < |m| && m[f] == ZeroData()
    ensures FreshPages(m, s, rs + [Mapping(q, f)], |rs|, flags)
  {
    hide Leaf, PageOf;
  }

  /** Pages mapped earlier in a run stay as they were. */
  lemma FreshMore(m1: Memory, m2: Memory, sp1: Spaces, ow1: Owners, s: nat, rs2: seq<Mapping>, k0: nat, q0: nat, k: nat, flags: Flags)
    requires Inv(m1, sp1, ow1) && s in sp1 && DataSame(m1, m2, ow1) && SameOutside(m1, m2, s, q0 + k, 1)
    requires |sp1[s]| == k0 + k && FreshPages(m1, s, sp1[s], k0, flags) && AllMapped(m1, s, q0, q0 + k)
    requires forall i :: k0 <= i < |sp1[s]| ==> sp1[s][i].virt == q0 + i - k0
    requires |rs2| == |sp1[s]| + 1 && rs2[..|sp1[s]|] == sp1[s] && FreshPages(m2, s, rs2, |sp1[s]|, flags)
    ensures FreshPages(m2, s, rs2, k0, flags)
  {
    hide Leaf, PageOf, PageNumber, UserPage, NoHuge, NodesOwned, OwnersAreNodes, OwnersAreData, SameOutside;
    forall i | k0 <= i < |sp1[s]|
      ensures rs2[i] == sp1[s][i]
      ensures Leaf(m2, s, PageOf(rs2[i].virt)) == Pte(flags.(present := true, user := true), rs2[i].frame)
      ensures rs2[i].frame < |m2| && m2[rs2[i].frame] == ZeroData()
    {
      assert rs2[i] == rs2[..|sp1[s]|][i];
      OutsideAt(m1, m2, s, q0 + k, 1, sp1[s][i].virt);
      assert ow1[sp1[s][i].frame] == DataOf(s);
      assert m2[sp1[s][i].frame] == m1[sp1[s][i].frame];
    }
  }

  lemma NothingMapped(m: Memory, m': Memory, sp: Spaces, s: nat, q: nat)
    requires s in sp && RecordsBounded(sp) && AllBacked(m, sp) && LeavesSame(m, m', sp)
    ensures AllBacked(m', sp) && LeavesSame(m, m', sp - {s}) && SameOutside(m, m', s, q, 0)
    ensures AllAgree(m, sp) ==> AllAgree(m', sp)
    ensures Appended(sp[s], sp[s], q, 0)
  {
    hide Leaf, UserPage, PageOf, PageNumber, Agrees, Backed, RecordsBounded, UserRecords;
    forall t | t in sp
      ensures Backed(m', t, sp[t]) && (Agrees(m, t, sp[t]) ==> Agrees(m', t, sp[t]))
    {
      BoundedUser(sp, t);
      SameViews(m, m', t, sp[t]);
    }
  }

  // -----------------------------------------------------------------------------
  // A run of pages

  /** Maps `q0` to `q0 + n` until one cannot be had.  Records and page tables still agree exactly
      when none of the pages mapped was mapped before. */
  method MapRun(mc: Machine, s: nat, q0: nat, n: nat, flags: Flags) returns (done: nat)
    requires Good(mc) && s in mc.spaces
    modifies mc, mc.pmm, mc.pmm.bitmap
    ensures Good(mc) && OnlySpace(old(mc.mem), mc.mem, old(mc.spaces), mc.spaces, s)
    ensures OthersKept(old(mc.mem), mc.mem, old(mc.owner), mc.owner, s)
    ensures done <= n && (0 < n ==> (0 < done <==> old(mc.CanMap(s, q0))))
    ensures old(RunFits(mc, s, q0, done)) && (done < n ==> !old(RunFits(mc, s, q0, done + 1)))
    ensures done == n <==> old(RunFits(mc, s, q0, n))
    ensures done == n ==> |old(mc.pmm.FreeSet())| <= |mc.pmm.FreeSet()| + 4 * n
    ensures done == n ==> |old(mc.pmm.FreeSet())| == |mc.pmm.FreeSet()| + RunCost(old(mc.mem), s, q0, n)
    ensures Appended(old(mc.spaces)[s], mc.spaces[s], q0, done) && SameOutside(old(mc.mem), mc.mem, s, q0, done)
    ensures AllMapped(mc.mem, s, q0, q0 + done) && FreshPages(mc.mem, s, mc.spaces[s], |old(mc.spaces)[s]|, flags)
    ensures DataSame(old(mc.mem), mc.mem, old(mc.owner)) && Extends(old(mc.owner), mc.owner, s)
    ensures AllAgree(old(mc.mem), old(mc.spaces)) ==> (AllAgree(mc.mem, mc.spaces) <==> NoneMapped(old(mc.mem), s, q0, q0 + done))
  {
    hide Inv, Leaf, UserPage, PageOf, PageNumber, LeavesSame, AllAgree, SameOutside, DistinctPages, Listed, Good, Mapped, AllMapped,
         NoneMapped, Pmm.FreeSet, Missing, Appended, OthersKept, GrewAt, Way, Lacking, TablesFor, Range, FreshPages, DataSame,
         Extends;
    done := 0;
    ghost var m0, sp0 := mc.mem, mc.spaces;
    RunStart(m0, sp0, s, q0);
    KeptSame(m0, mc.owner, s);
    PaidNone(m0, s, q0);
    assert FreshPages(m0, s, sp0[s], |sp0[s]|, flags) && DataSame(m0, m0, mc.owner) && Extends(mc.owner, mc.owner, s) by { NoneFresh(m0, s, sp0[s], mc.owner, flags); }
    for k := 0 to n
      invariant Good(mc) && s in mc.spaces && done == k
      invariant k == 0 ==> mc.mem == old(mc.mem) && mc.spaces == old(mc.spaces) && mc.pmm.FreeSet() == old(mc.pmm.FreeSet())
      invariant 0 < k ==> old(mc.CanMap(s, q0))
      invariant |old(mc.pmm.FreeSet())| <= |mc.pmm.FreeSet()| + 4 * k
      invariant FreshPages(mc.mem, s, mc.spaces[s], |sp0[s]|, flags)
      invariant DataSame(m0, mc.mem, old(mc.owner)) && Extends(old(mc.owner), mc.owner, s)
      invariant GrewAt(m0, mc.mem, s, TablesFor(Range(q0, q0 + k))) && old(RunFits(mc, s, q0, k))
      invariant |mc.pmm.FreeSet()| + k + |Lacking(m0, s, Range(q0, q0 + k))| == |old(mc.pmm.FreeSet())|
      invariant Ran(m0, mc.mem, sp0, mc.spaces, s, q0, k) && OthersKept(m0, mc.mem, old(mc.owner), mc.owner, s)
    {
      ghost var m1, sp1, ow1 := mc.mem, mc.spaces, mc.owner;
      ghost var f1 := |mc.pmm.FreeSet()|;
      RanRecords(m0, m1, sp0, sp1, s, q0, k);
      GoodParts(mc);
      PaidNext(m0, m1, s, q0, k);
      var ok := MapOne(mc, s, q0 + k, flags);
      StillExtends(m0, m1, mc.mem, old(mc.owner), ow1, mc.owner, s);
      if ok {
        FreshNext(m0, m1, mc.mem, sp0, sp1, ow1, s, mc.spaces[s], q0, k, flags);
        PlantedOn(m0, m1, mc.mem, s, q0, k);
      }
      KeptTwice(m0, m1, mc.mem, old(mc.owner), ow1, mc.owner, s);
      RunMore(m0, m1, mc.mem, sp0, sp1, mc.spaces, s, q0, k, ok);
      assert ok ==> Missing(m1, s, PageOf(q0 + k)) <= 3 by { AtMostThree(m1, s, PageOf(q0 + k)); }
      if !ok {
        SameFresh(m1, mc.mem, sp1, ow1, s, |sp0[s]|, q0, k, flags, m0, sp0, mc.spaces[s]);
        RanFacts(m0, mc.mem, sp0, mc.spaces, s, q0, k);
        FitsLess(m0, s, |sp0[s]|, |old(mc.pmm.FreeSet())|, q0, k + 1, n);
        return;
      }
      done := done + 1;
    }
    RanFacts(m0, mc.mem, sp0, mc.spaces, s, q0, n);
  }

  /** There is room for a run of `k` pages from `q0`: in the user half, in `umap[]`, and frames for
      them and the tables they lack. */
  ghost predicate RunFits(mc: Machine, s: nat, q0: nat, k: nat)
    requires s in mc.spaces
    reads mc, mc.pmm, mc.pmm.bitmap
  {
    FitsIn(mc.mem, s, |mc.spaces[s]|, |mc.pmm.FreeSet()|, q0, k)
  }

  ghost predicate FitsIn(m: Memory, s: nat, records: nat, free: nat, q0: nat, k: nat) {
    k == 0 || (q0 + k <= USER_PAGES && records + k <= MAX_UMAP && RunCost(m, s, q0, k) <= free)
  }

  /** The frames a run takes: its pages and the tables they lack. */
  ghost function RunCost(m: Memory, s: nat, q0: nat, k: nat): nat { k + |Lacking(m, s, Range(q0, q0 + k))| }

  /** A shorter run fits where a longer one does. */
  lemma FitsLess(m: Memory, s: nat, records: nat, free: nat, q0: nat, j: nat, k: nat)
    requires j <= k
    ensures FitsIn(m, s, records, free, q0, k) ==> FitsIn(m, s, records, free, q0, j)
  {
    hide Lacking;
    LackingLess(m, s, Range(q0, q0 + j), Range(q0, q0 + k));
  }

  lemma NoneFresh(m: Memory, s: nat, rs: seq<Mapping>, ow: Owners, flags: Flags)
    ensures FreshPages(m, s, rs, |rs|, flags) && DataSame(m, m, ow) && Extends(ow, ow, s)
  {
  }

  lemma FreshNext(m0: Memory, m1: Memory, m2: Memory, sp0: Spaces, sp1: Spaces, ow1: Owners, s: nat, rs2: seq<Mapping>, q0: nat, k: nat, flags: Flags)
    requires Ran(m0, m1, sp0, sp1, s, q0, k) && Inv(m1, sp1, ow1) && DataSame(m1, m2, ow1) && SameOutside(m1, m2, s, q0 + k, 1)
    requires FreshPages(m1, s, sp1[s], |sp0[s]|, flags) && Appended(sp1[s], rs2, q0 + k, 1) && FreshPages(m2, s, rs2, |sp1[s]|, flags)
    ensures FreshPages(m2, s, rs2, |sp0[s]|, flags)
  {
    hide Inv, DataSame, SameOutside, FreshPages, AllMapped, AllAgree, NoneMapped, DistinctPages, LeavesSame;
    FreshMore(m1, m2, sp1, ow1, s, rs2, |sp0[s]|, q0, k, flags);
  }

  /** A page that could not be had changes no other. */
  lemma SameFresh(m1: Memory, m2: Memory, sp1: Spaces, ow1: Owners, s: nat, k0: nat, q0: nat, k: nat, flags: Flags, m0: Memory, sp0: Spaces, rs2: seq<Mapping>)
    requires Ran(m0, m1, sp0, sp1, s, q0, k) && k0 == |sp0[s]| && Inv(m1, sp1, ow1) && DataSame(m1, m2, ow1) && SameOutside(m1, m2, s, q0 + k, 0)
    requires FreshPages(m1, s, sp1[s], k0, flags) && Appended(sp1[s], rs2, q0 + k, 0)
    ensures FreshPages(m2, s, rs2, k0, flags)
  {
    hide Leaf, PageOf, PageNumber, UserPage, NoHuge, NodesOwned, OwnersAreNodes, OwnersAreData, SameOutside, AllAgree, NoneMapped,
         DistinctPages, LeavesSame;
    assert rs2 == sp1[s];
    forall i | k0 <= i < |rs2|
      ensures Leaf(m2, s, PageOf(rs2[i].virt)) == Pte(flags.(present := true, user := true), rs2[i].frame)
      ensures rs2[i].frame < |m2| && m2[rs2[i].frame] == ZeroData()
    {
      assert sp1[s][i].virt == q0 + i - k0;
      OutsideAt(m1, m2, s, q0 + k, 0, sp1[s][i].virt);
      assert ow1[sp1[s][i].frame] == DataOf(s);
      assert m2[sp1[s][i].frame] == m1[sp1[s][i].frame];
    }
  }

  lemma PaidNone(m: Memory, s: nat, q0: nat)
    ensures GrewAt(m, m, s, TablesFor(Range(q0, q0))) && Lacking(m, s, Range(q0, q0)) == {}
  {
    hide Node, UserPath;
    NoRange(q0, q0);
    NoTables();
  }

  lemma RanRecords(m: Memory, m': Memory, sp: Spaces, sp': Spaces, s: nat, q0: nat, k: nat)
    requires Ran(m, m', sp, sp', s, q0, k)
    ensures |sp'[s]| == |sp[s]| + k
  {
    hide OnlySpace, SameOutside, AllMapped, AllAgree, NoneMapped, DistinctPages;
  }

  lemma PaidNext(m0: Memory, m1: Memory, s: nat, q0: nat, k: nat)
    requires GrewAt(m0, m1, s, TablesFor(Range(q0, q0 + k)))
    ensures q0 + k < USER_PAGES ==>
              |Lacking(m0, s, Range(q0, q0 + (k + 1)))| == |Lacking(m0, s, Range(q0, q0 + k))| + Missing(m1, s, PageOf(q0 + k))
  {
    hide GrewAt, TablesFor, Lacking, Range, PageOf, PageNumber, UserPage, Missing;
    if q0 + k < USER_PAGES {
      PageRoundTrip(q0 + k);
      RangeNext(q0, q0 + k);
      LackingNext(m0, m1, s, Range(q0, q0 + k), q0 + k);
      assert q0 + k + 1 == q0 + (k + 1);
    }
  }

  lemma PlantedOn(m0: Memory, m1: Memory, m2: Memory, s: nat, q0: nat, k: nat)
    requires GrewAt(m0, m1, s, TablesFor(Range(q0, q0 + k))) && GrewAt(m1, m2, s, Way(PageOf(q0 + k)))
    ensures GrewAt(m0, m2, s, TablesFor(Range(q0, q0 + (k + 1))))
  {
    hide GrewAt, TablesFor, Range, PageOf, Way;
    RangeNext(q0, q0 + k);
    TablesMore(Range(q0, q0 + k), q0 + k);
    GrewTwice(m0, m1, m2, s, TablesFor(Range(q0, q0 + k)), Way(PageOf(q0 + k)));
    assert q0 + k + 1 == q0 + (k + 1);
  }

  lemma KeptSame(m: Memory, ow: Owners, s: nat)
    ensures OthersKept(m, m, ow, ow, s)
  {
  }

  lemma AtMostThree(m: Memory, s: nat, v: Page)
    ensures Missing(m, s, v) <= 3
  {
  }

  /** Where a run of mappings stands after `k` pages. */
  ghost predicate Ran(m: Memory, m': Memory, sp: Spaces, sp': Spaces, s: nat, q0: nat, k: nat) {
    && OnlySpace(m, m', sp, sp', s) && Appended(sp[s], sp'[s], q0, k) && SameOutside(m, m', s, q0, k) && AllMapped(m', s, q0, q0 + k)
    && (AllAgree(m, sp) ==> if NoneMapped(m, s, q0, q0 + k) then AllAgree(m', sp') else !DistinctPages(sp'[s]))
  }

  lemma RunStart(m: Memory, sp: Spaces, s: nat, q0: nat)
    requires s in sp
    ensures Ran(m, m, sp, sp, s, q0, 0)
  {
    hide Leaf, UserPage, PageNumber, PageOf, Agrees;
    assert sp[s][..|sp[s]|] == sp[s];
  }

  lemma RanFacts(m: Memory, m': Memory, sp: Spaces, sp': Spaces, s: nat, q0: nat, k: nat)
    requires Ran(m, m', sp, sp', s, q0, k)
    ensures OnlySpace(m, m', sp, sp', s) && Appended(sp[s], sp'[s], q0, k) && SameOutside(m, m', s, q0, k) && AllMapped(m', s, q0, q0 + k)
    ensures AllAgree(m, sp) ==> (AllAgree(m', sp') <==> NoneMapped(m, s, q0, q0 + k))
  {
    hide Leaf, UserPage, PageNumber, PageOf, DistinctPages, Appended, LeavesSame, SameOutside, AllMapped, NoneMapped, Listed;
    assert AllAgree(m', sp') ==> DistinctPages(sp'[s]);
  }

  lemma RunMore(m0: Memory, m1: Memory, m2: Memory, sp0: Spaces, sp1: Spaces, sp2: Spaces, s: nat, q0: nat, k: nat, ok: bool)
    requires Ran(m0, m1, sp0, sp1, s, q0, k) && OnlySpace(m1, m2, sp1, sp2, s)
    requires Appended(sp1[s], sp2[s], q0 + k, if ok then 1 else 0) && SameOutside(m1, m2, s, q0 + k, if ok then 1 else 0)
    requires ok ==> q0 + k < USER_PAGES && Mapped(m2, s, q0 + k)
    requires ok && Listed(sp1[s], PageOf(q0 + k)) ==> !DistinctPages(sp2[s])
    requires AllAgree(m1, sp1) ==> (AllAgree(m2, sp2) <==> !(ok && Mapped(m1, s, q0 + k)))
    ensures Ran(m0, m2, sp0, sp2, s, q0, if ok then k + 1 else k)
  {
    hide Leaf, UserPage, PageNumber, PageOf, DistinctPages, Agrees, Listed;
    OnlyTwice(m0, m1, m2, sp0, sp1, sp2, s);
    AppendedTwice(sp0[s], sp1[s], sp2[s], q0, k, if ok then 1 else 0);
    OutsideTwice(m0, m1, m2, s, q0, k, if ok then 1 else 0);
    if AllAgree(m0, sp0) {
      RunAgree(m0, m1, m2, sp0, sp1, sp2, s, q0, k, ok);
    }
  }

  lemma OnlyTwice(m0: Memory, m1: Memory, m2: Memory, sp0: Spaces, sp1: Spaces, sp2: Spaces, s: nat)
    requires OnlySpace(m0, m1, sp0, sp1, s) && OnlySpace(m1, m2, sp1, sp2, s)
    ensures OnlySpace(m0, m2, sp0, sp2, s)
  {
    hide Leaf, UserPage;
    assert (sp1 - {s}).Keys == (sp0 - {s}).Keys;
  }

  lemma AppendedTwice(a: seq<Mapping>, b: seq<Mapping>, c: seq<Mapping>, q0: nat, k: nat, n: nat)
    requires Appended(a, b, q0, k) && Appended(b, c, q0 + k, n)
    ensures Appended(a, c, q0, k + n)
  {
    assert c[..|a|] == c[..|b|][..|a|];
    forall i | |a| <= i < |c|
      ensures c[i].virt == q0 + i - |a|
    {
      if i < |b| {
        assert c[..|b|][i] == b[i];
      }
    }
  }

  lemma OutsideTwice(m0: Memory, m1: Memory, m2: Memory, s: nat, q0: nat, k: nat, n: nat)
    requires SameOutside(m0, m1, s, q0, k) && SameOutside(m1, m2, s, q0 + k, n) && AllMapped(m1, s, q0, q0 + k) && AllMapped(m2, s, q0 + k, q0 + k + n)
    ensures SameOutside(m0, m2, s, q0, k + n) && AllMapped(m2, s, q0, q0 + k + n)
  {
    hide Leaf, UserPage, PageNumber, PageOf;
    StillMapped(m1, m2, s, q0, q0 + k, n);
    MappedJoin(m2, s, q0, q0 + k, q0 + k + n);
  }

  lemma StillMapped(m1: Memory, m2: Memory, s: nat, lo: nat, hi: nat, n: nat)
    requires AllMapped(m1, s, lo, hi) && SameOutside(m1, m2, s, hi, n)
    ensures AllMapped(m2, s, lo, hi)
  {
    hide Leaf, UserPage, PageNumber, PageOf, SameOutside;
    forall q: nat | lo <= q < hi
      ensures Mapped(m2, s, q)
    {
      assert Mapped(m1, s, q);
      OutsideAt(m1, m2, s, hi, n, q);
    }
  }

  lemma MappedJoin(m: Memory, s: nat, lo: nat, mid: nat, hi: nat)
    requires AllMapped(m, s, lo, mid) && AllMapped(m, s, mid, hi)
    ensures AllMapped(m, s, lo, hi)
  {
    hide Mapped;
  }

  lemma OutsideAt(m: Memory, m': Memory, s: nat, q0: nat, n: nat, q: nat)
    requires SameOutside(m, m', s, q0, n) && q < USER_PAGES && !(q0 <= q < q0 + n)
    ensures Leaf(m', s, PageOf(q)) == Leaf(m, s, PageOf(q))
  {
    hide Leaf, UserPage, PageNumber, PageOf;
    PageRoundTrip(q);
  }

  lemma RunAgree(m0: Memory, m1: Memory, m2: Memory, sp0: Spaces, sp1: Spaces, sp2: Spaces, s: nat, q0: nat, k: nat, ok: bool)
    requires Ran(m0, m1, sp0, sp1, s, q0, k) && s in sp2 && AllAgree(m0, sp0)
    requires Appended(sp1[s], sp2[s], q0 + k, if ok then 1 else 0)
    requires ok ==> q0 + k < USER_PAGES
    requires ok && Listed(sp1[s], PageOf(q0 + k)) ==> !DistinctPages(sp2[s])
    requires AllAgree(m1, sp1) ==> (AllAgree(m2, sp2) <==> !(ok && Mapped(m1, s, q0 + k)))
    ensures if NoneMapped(m0, s, q0, q0 + if ok then k + 1 else k) then AllAgree(m2, sp2) else !DistinctPages(sp2[s])
  {
    hide Leaf, UserPage, PageNumber, PageOf, Listed;
    if !NoneMapped(m0, s, q0, q0 + k) {
      StillDouble(sp1[s], sp2[s], q0 + k, if ok then 1 else 0);
    } else if ok {
      OutsideAt(m0, m1, s, q0, k, q0 + k);
      if Mapped(m0, s, q0 + k) {
        PageRoundTrip(q0 + k);
        assert Agrees(m1, s, sp1[s]);
      }
    }
  }

  lemma StillDouble(a: seq<Mapping>, b: seq<Mapping>, q: nat, n: nat)
    requires !DistinctPages(a) && Appended(a, b, q, n)
    ensures !DistinctPages(b)
  {
    hide PageOf;
    var i, j :| 0 <= i < j < |a| && PageOf(a[i].virt) == PageOf(a[j].virt);
    assert b[..|a|][i] == a[i] && b[..|a|][j] == a[j];
  }

  // -----------------------------------------------------------------------------
  // brk

  /** `addr` rounded up to pages, in pages. */
  function PagesUp(addr: nat): nat { (addr + FRAME_BYTES - 1) / FRAME_BYTES }

  /** How many pages the growth loop steps over from `cur` to `want`. */
  function Steps(cur: nat, want: nat): nat {
    if want <= cur then 0 else PagesUp(want - cur)
  }

  /** The page that step `k` of the growth loop maps; the break need not be aligned. */
  lemma StepPage(cur: nat, want: nat, k: nat)
    ensures (cur + k * FRAME_BYTES) / FRAME_BYTES == cur / FRAME_BYTES + k
    ensures k < Steps(cur, want) <==> cur + k * FRAME_BYTES < want
  {
  }

  datatype Result = Fine | BadCall | NoMemory

  /** `um_brk_set`: grows by whole steps from the current break, wherever in its page it stands,
      and releases whole pages when it shrinks.  A failed growth keeps what it mapped. */
  method SetBreak(mc: Machine, s: nat, heapStart: nat, cur: nat, want: nat, perm: Flags) returns (r: Result, brk: nat)
    requires Good(mc) && s in mc.spaces
    modifies mc, mc.pmm, mc.pmm.bitmap
    ensures Good(mc) && OnlySpace(old(mc.mem), mc.mem, old(mc.spaces), mc.spaces, s)
    ensures OthersKept(old(mc.mem), mc.mem, old(mc.owner), mc.owner, s)
    ensures r == BadCall <==> heapStart == 0 || want < heapStart
    ensures brk == if r == Fine then want else cur
    ensures r == BadCall || cur == want ==> mc.mem == old(mc.mem) && mc.spaces == old(mc.spaces) && mc.pmm.FreeSet() == old(mc.pmm.FreeSet())
    ensures r != BadCall && cur < want ==>
              var done := |mc.spaces[s]| - |old(mc.spaces)[s]|;
              && 0 <= done <= Steps(cur, want) && (r == Fine <==> done == Steps(cur, want))
              && (0 < done <==> old(mc.CanMap(s, cur / FRAME_BYTES)))
              && (r == Fine <==> old(RunFits(mc, s, cur / FRAME_BYTES, Steps(cur, want))))
              && old(RunFits(mc, s, cur / FRAME_BYTES, done)) && (done < Steps(cur, want) ==> !old(RunFits(mc, s, cur / FRAME_BYTES, done + 1)))
              && (r == Fine ==> |old(mc.pmm.FreeSet())| <= |mc.pmm.FreeSet()| + 4 * done)
              && (r == Fine ==> |old(mc.pmm.FreeSet())| == |mc.pmm.FreeSet()| + RunCost(old(mc.mem), s, cur / FRAME_BYTES, done))
              && Appended(old(mc.spaces)[s], mc.spaces[s], cur / FRAME_BYTES, done)
              && AllMapped(mc.mem, s, cur / FRAME_BYTES, cur / FRAME_BYTES + done)
              && SameOutside(old(mc.mem), mc.mem, s, cur / FRAME_BYTES, done)
              && FreshPages(mc.mem, s, mc.spaces[s], |old(mc.spaces)[s]|, perm) && DataSame(old(mc.mem), mc.mem, old(mc.owner))
              && (AllAgree(old(mc.mem), old(mc.spaces)) ==>
                    (AllAgree(mc.mem, mc.spaces) <==> NoneMapped(old(mc.mem), s, cur / FRAME_BYTES, cur / FRAME_BYTES + done)))
    ensures r != BadCall && want < cur ==>
              && r == Fine && |mc.spaces[s]| <= |old(mc.spaces)[s]|
              && (forall a :: a in mc.spaces[s] <==> a in old(mc.spaces)[s] && !UserMem.Covered(a, PagesUp(want)))
              && Dropped(old(mc.mem), mc.mem, s, old(mc.spaces)[s], PagesUp(want)) && DataSame(old(mc.mem), mc.mem, mc.owner)
              && mc.pmm.FreeSet() == old(mc.pmm.FreeSet()) + CoveredFrames(old(mc.spaces)[s], PagesUp(want))
              && (AllAgree(old(mc.mem), old(mc.spaces)) ==> AllAgree(mc.mem, mc.spaces))
  {
    hide Inv, Leaf, UserPage, PageOf, PageNumber, LeavesSame, AllAgree, SameOutside, Good, Mapped, AllMapped, NoneMapped, Pmm.FreeSet,
         Machine.CanMap, UserMem.Covered, OthersKept, FreshPages, DataSame, Extends, Dropped;
    SameSpace(mc.mem, mc.spaces, s);
    KeptSame(mc.mem, mc.owner, s);
    if heapStart == 0 || want < heapStart {
      return BadCall, cur;
    }
    if cur < want {
      var done := MapRun(mc, s, cur / FRAME_BYTES, Steps(cur, want), perm);
      if done < Steps(cur, want) {
        return NoMemory, cur;
      }
      return Fine, want;
    }
    if want < cur {
      Release(mc, s, PagesUp(want));
    }
    return Fine, want;
  }

  lemma SameSpace(m: Memory, sp: Spaces, s: nat)
    requires s in sp
    ensures OnlySpace(m, m, sp, sp, s)
  {
    hide Leaf, UserPage;
  }

  /** `um_release_from` between two good states. */
  method Release(mc: Machine, s: nat, start: nat)
    requires Good(mc) && s in mc.spaces
    modifies mc, mc.pmm, mc.pmm.bitmap
    ensures Good(mc) && OnlySpace(old(mc.mem), mc.mem, old(mc.spaces), mc.spaces, s)
    ensures OthersKept(old(mc.mem), mc.mem, old(mc.owner), mc.owner, s)
    ensures forall a :: a in mc.spaces[s] <==> a in old(mc.spaces)[s] && !UserMem.Covered(a, start)
    ensures |mc.spaces[s]| <= |old(mc.spaces)[s]|
    ensures Dropped(old(mc.mem), mc.mem, s, old(mc.spaces)[s], start) && DataSame(old(mc.mem), mc.mem, mc.owner)
    ensures mc.pmm.FreeSet() == old(mc.pmm.FreeSet()) + CoveredFrames(old(mc.spaces)[s], start)
    ensures AllAgree(old(mc.mem), old(mc.spaces)) ==> AllAgree(mc.mem, mc.spaces)
  {
    hide RecordsBounded, Pmm.FreeSet, Cleared, DataSame, Agrees, Backed, AllAgree, AllBacked, Machine.Ready, FrameSet,
         UserMem.Covered, Inv, LeavesSame, OthersKept, Dropped, CoveredFrames;
    ghost var m, sp := mc.mem, mc.spaces;
    Parts(mc);
    ghost var gone := UserMem.ReleaseFrom(mc, s, start);
    ReleasedGood(m, mc.mem, sp, mc.spaces, s, gone);
    UserMem.GoneOwned(m, sp, old(mc.owner), s, gone);
    KeptWithout(m, mc.mem, old(mc.owner), FrameSet(gone), s);
    DroppedIs(m, mc.mem, sp, s, gone, start);
    GoneFrames(sp[s], gone, start);
    assert |multiset(mc.spaces[s]) + multiset(gone)| == |mc.spaces[s]| + |gone|;
  }

  /** Of the recorded pages exactly those at or above `start` and below the stack are unmapped. */
  ghost predicate Dropped(m: Memory, m': Memory, s: nat, rs: seq<Mapping>, start: nat) {
    forall v :: UserPage(v) ==>
      if exists r :: r in rs && UserMem.Covered(r, start) && PageOf(r.virt) == v then !Leaf(m', s, v).flags.present else Leaf(m', s, v) == Leaf(m, s, v)
  }

  /** The frames of those pages. */
  ghost function CoveredFrames(rs: seq<Mapping>, start: nat): set<nat> {
    set r | r in rs && UserMem.Covered(r, start) :: r.frame
  }

  lemma GoneFrames(rs: seq<Mapping>, gone: seq<Mapping>, start: nat)
    requires forall r :: r in gone <==> r in rs && UserMem.Covered(r, start)
    ensures FrameSet(gone) == CoveredFrames(rs, start)
  {
    hide UserMem.Covered;
    forall f | f in CoveredFrames(rs, start)
      ensures f in FrameSet(gone)
    {
      var r :| r in rs && UserMem.Covered(r, start) && r.frame == f;
      var i :| 0 <= i < |gone| && gone[i] == r;
    }
  }

  lemma DroppedIs(m: Memory, m': Memory, sp: Spaces, s: nat, gone: seq<Mapping>, start: nat)
    requires s in sp && Cleared(m, m', sp, s, gone) && forall r :: r in gone <==> r in sp[s] && UserMem.Covered(r, start)
    ensures Dropped(m, m', s, sp[s], start)
  {
    hide Leaf, PageOf, UserPage, UserMem.Covered, Listed;
    forall v | UserPage(v)
      ensures Listed(gone, v) <==> exists r :: r in sp[s] && UserMem.Covered(r, start) && PageOf(r.virt) == v
    {
      ListedMember(gone, v);
    }
  }

  lemma ReleasedGood(m: Memory, m': Memory, sp: Spaces, sp': Spaces, s: nat, gone: seq<Mapping>)
    requires s in sp && s in sp' && sp' == sp[s := sp'[s]] && RecordsBounded(sp) && AllBacked(m, sp)
    requires multiset(sp'[s]) + multiset(gone) == multiset(sp[s]) && Cleared(m, m', sp, s, gone)
    ensures AllBacked(m', sp') && OnlySpace(m, m', sp, sp', s)
    ensures AllAgree(m, sp) ==> AllAgree(m', sp')
  {
    hide RecordsBounded, Cleared, Agrees, Backed, LeavesSame;
    ClearedOthers(m, m', sp, s, gone);
    ReleasedBacked(m, m', sp, s, sp'[s], gone);
    OthersBacked(m, m', sp, sp', s);
    if AllAgree(m, sp) {
      ReleasedAgrees(m, m', sp, s, sp'[s], gone);
      OthersAgree(m, m', sp, sp', s);
    }
  }

  lemma ClearedOthers(m: Memory, m': Memory, sp: Spaces, s: nat, gone: seq<Mapping>)
    requires Cleared(m, m', sp, s, gone)
    ensures LeavesSame(m, m', sp - {s})
  {
    hide Leaf, UserPage, Listed;
  }

  /** The rounding of `sys_munmap`, in 64-bit arithmetic: within a page of 2^64 it wraps to 0. */
  function Pages64(length: nat): nat { (length + FRAME_BYTES - 1) % 0x1_0000_0000_0000_0000 / FRAME_BYTES }

  /** `sys_munmap`: the argument checks, then everything from `addr` up to the stack goes. */
  method Munmap(mc: Machine, s: nat, addr: nat, length: nat) returns (r: Result)
    requires Good(mc) && s in mc.spaces
    modifies mc, mc.pmm, mc.pmm.bitmap
    ensures Good(mc) && OnlySpace(old(mc.mem), mc.mem, old(mc.spaces), mc.spaces, s)
    ensures OthersKept(old(mc.mem), mc.mem, old(mc.owner), mc.owner, s)
    ensures r == Fine <==> 0 < length && addr % FRAME_BYTES == 0 && addr / FRAME_BYTES + Pages64(length) <= MmapSearch.MMAP_TOP
    ensures r != Fine ==> r == BadCall && mc.mem == old(mc.mem) && mc.spaces == old(mc.spaces) && mc.pmm.FreeSet() == old(mc.pmm.FreeSet())
    ensures r == Fine ==> forall a :: a in mc.spaces[s] <==> a in old(mc.spaces)[s] && !UserMem.Covered(a, addr / FRAME_BYTES)
    ensures r == Fine ==> Dropped(old(mc.mem), mc.mem, s, old(mc.spaces)[s], addr / FRAME_BYTES) && DataSame(old(mc.mem), mc.mem, mc.owner)
    ensures r == Fine ==> mc.pmm.FreeSet() == old(mc.pmm.FreeSet()) + CoveredFrames(old(mc.spaces)[s], addr / FRAME_BYTES)
    ensures AllAgree(old(mc.mem), old(mc.spaces)) ==> AllAgree(mc.mem, mc.spaces)
  {
    hide Inv, LeavesSame, AllAgree, Good, UserMem.Covered, Pages64, OthersKept, Dropped, DataSame;
    SameSpace(mc.mem, mc.spaces, s);
    KeptSame(mc.mem, mc.owner, s);
    if length == 0 || addr % FRAME_BYTES != 0 || addr / FRAME_BYTES + Pages64(length) > MmapSearch.MMAP_TOP {
      return BadCall;
    }
    Release(mc, s, addr / FRAME_BYTES);
    return Fine;
  }

  // -----------------------------------------------------------------------------
  // mmap

  /** Takes the pages `q0` to `q0 + n` out of the page tables; their records stay. */
  method UnmapRun(mc: Machine, s: nat, q0: nat, n: nat)
    requires Good(mc) && s in mc.spaces && AllMapped(mc.mem, s, q0, q0 + n)
    modifies mc
    ensures Good(mc) && mc.spaces == old(mc.spaces) && LeavesSame(old(mc.mem), mc.mem, old(mc.spaces) - {s})
    ensures SameOutside(old(mc.mem), mc.mem, s, q0, n) && NoneMapped(mc.mem, s, q0, q0 + n)
    ensures mc.pmm.FreeSet() == old(mc.pmm.FreeSet())
    ensures mc.owner == old(mc.owner) && OthersKept(old(mc.mem), mc.mem, mc.owner, mc.owner, s) && DataSame(old(mc.mem), mc.mem, mc.owner)
  {
    hide Inv, Leaf, UserPage, PageOf, PageNumber, LeavesSame, SameOutside, Good, Mapped, AllMapped, NoneMapped, Pmm.FreeSet,
         OthersKept, DataSame;
    ghost var m0 := mc.mem;
    UnmapStart(mc.mem, mc.spaces, s, q0);
    DataSelf(mc.mem, mc.owner);
    KeptSame(mc.mem, mc.owner, s);
    for k := 0 to n
      invariant Good(mc) && mc.spaces == old(mc.spaces) && LeavesSame(m0, mc.mem, mc.spaces - {s})
      invariant SameOutside(m0, mc.mem, s, q0, k) && NoneMapped(mc.mem, s, q0, q0 + k)
      invariant mc.pmm.FreeSet() == old(mc.pmm.FreeSet())
      invariant mc.owner == old(mc.owner) && OthersKept(m0, mc.mem, mc.owner, mc.owner, s) && DataSame(m0, mc.mem, mc.owner)
    {
      MappedUser(m0, s, q0, n, q0 + k);
      ghost var m1 := mc.mem;
      UnmapOne(mc, s, q0 + k);
      UnmapMore(m0, m1, mc.mem, mc.spaces, s, q0, k);
      KeptTwice(m0, m1, mc.mem, mc.owner, mc.owner, mc.owner, s);
      DataTwice(m0, m1, mc.mem, mc.owner);
    }
  }

  lemma MappedUser(m: Memory, s: nat, q0: nat, n: nat, q: nat)
    requires AllMapped(m, s, q0, q0 + n) && q0 <= q < q0 + n
    ensures q < USER_PAGES
  {
    assert Mapped(m, s, q);
  }

  lemma UnmapStart(m: Memory, sp: Spaces, s: nat, q0: nat)
    ensures LeavesSame(m, m, sp - {s}) && SameOutside(m, m, s, q0, 0) && NoneMapped(m, s, q0, q0)
  {
    hide Leaf, UserPage, PageNumber;
  }

  method UnmapOne(mc: Machine, s: nat, q: nat)
    requires Good(mc) && s in mc.spaces && q < USER_PAGES
    modifies mc
    ensures Good(mc) && mc.spaces == old(mc.spaces) && LeavesSame(old(mc.mem), mc.mem, old(mc.spaces) - {s})
    ensures SameOutside(old(mc.mem), mc.mem, s, q, 1) && !Mapped(mc.mem, s, q)
    ensures mc.pmm.FreeSet() == old(mc.pmm.FreeSet())
    ensures mc.owner == old(mc.owner) && OthersKept(old(mc.mem), mc.mem, mc.owner, mc.owner, s) && DataSame(old(mc.mem), mc.mem, mc.owner)
  {
    hide Inv, KernelShared, RecordsBounded, Pmm.FreeSet, Pmm.Sized, Partition, Leaf, UserPage, LeavesSame, LeafSet, DataSame, Backed,
         PageOf, PageNumber, OnlyPage, SameOutside, AllBacked;
    ghost var m, sp := mc.mem, mc.spaces;
    PageRoundTrip(q);
    var _ := mc.UnmapPage(s, PageOf(q), {});
    ghost var e := if Leaf(m, s, PageOf(q)).flags.present then ZERO_PTE else Leaf(m, s, PageOf(q));
    OnlyHere(m, mc.mem, sp, s, q, e);
    StillBacked(m, mc.mem, sp, s, q, e);
    KeptData(m, mc.mem, mc.owner, s);
  }

  lemma DataSelf(m: Memory, ow: Owners)
    ensures DataSame(m, m, ow)
  {
  }

  lemma DataTwice(m0: Memory, m1: Memory, m2: Memory, ow: Owners)
    requires DataSame(m0, m1, ow) && DataSame(m1, m2, ow)
    ensures DataSame(m0, m2, ow)
  {
    forall f | f in ow && ow[f].DataOf? && f < |m0|
      ensures m2[f] == m0[f]
    {
      assert m1[f] == m0[f];
    }
  }

  lemma DataMore(m0: Memory, m1: Memory, m2: Memory, ow: Owners, ow1: Owners, s: nat)
    requires DataSame(m0, m1, ow) && Extends(ow, ow1, s) && DataSame(m1, m2, ow1)
    ensures DataSame(m0, m2, ow)
  {
    forall f | f in ow && ow[f].DataOf? && f < |m0|
      ensures m2[f] == m0[f]
    {
      assert ow1[f] == ow[f] && m1[f] == m0[f];
    }
  }

  lemma KeptData(m: Memory, m': Memory, ow: Owners, s: nat)
    requires DataSame(m, m', ow)
    ensures OthersKept(m, m', ow, ow, s)
  {
  }

  lemma StillBacked(m: Memory, m': Memory, sp: Spaces, s: nat, q: nat, e: Pte)
    requires s in sp && RecordsBounded(sp) && AllBacked(m, sp) && LeavesSame(m, m', sp - {s})
    requires OnlyPage(m, m', s, PageOf(q), e) && !e.flags.present
    ensures AllBacked(m', sp)
  {
    hide Leaf, UserPage, PageOf, Backed, OnlyPage, RecordsBounded, LeavesSame;
    UnmappedBacked(m, m', s, sp[s], PageOf(q), e);
    OthersBacked(m, m', sp, sp, s);
  }

  lemma UnmapMore(m0: Memory, m1: Memory, m2: Memory, sp: Spaces, s: nat, q0: nat, k: nat)
    requires LeavesSame(m0, m1, sp - {s}) && LeavesSame(m1, m2, sp - {s})
    requires SameOutside(m0, m1, s, q0, k) && SameOutside(m1, m2, s, q0 + k, 1) && NoneMapped(m1, s, q0, q0 + k)
    requires !Mapped(m2, s, q0 + k) && q0 + k < USER_PAGES
    ensures LeavesSame(m0, m2, sp - {s}) && SameOutside(m0, m2, s, q0, k + 1) && NoneMapped(m2, s, q0, q0 + k + 1)
  {
    hide Leaf, UserPage, PageNumber, PageOf;
    forall q: nat | q0 <= q < q0 + k + 1
      ensures !Mapped(m2, s, q)
    {
      if q < q0 + k {
        assert !Mapped(m1, s, q);
        OutsideAt(m1, m2, s, q0 + k, 1, q);
      }
    }
  }

  /** The pages the search can see, read through the walk of the source. */
  function PresentAt(m: Memory, s: nat): nat -> bool {
    (q: nat) => GetPte(m, s, PageOf(q)).flags.present
  }

  /** Where a request for `n` pages goes: the search below the stack, or the address asked for if
      it is aligned, below the stack and free. */
  ghost function Chosen(m: Memory, s: nat, brk: nat, addr: nat, n: nat): Option<nat>
    requires 0 < n <= MmapSearch.MMAP_TOP
  {
    var floor := MmapSearch.Floor(brk);
    if addr == 0 then
      if MmapSearch.MMAP_TOP < n + floor then None else
      var a := MmapSearch.Search(PresentAt(m, s), MmapSearch.MMAP_TOP - n, n, floor);
      if a.At? then Some(a.base) else None
    else if addr % FRAME_BYTES == 0 && addr / FRAME_BYTES < MmapSearch.MMAP_TOP
            && MmapSearch.Clear(PresentAt(m, s), addr / FRAME_BYTES, addr / FRAME_BYTES + n) then Some(addr / FRAME_BYTES)
    else None
  }

  /** The pages of a window that does not wrap; the loop over a wrapped window does nothing. */
  function Window(base: nat, n: nat): nat { if base + n >= MmapSearch.ALL_PAGES then 0 else n }

  method ChooseBase(mc: Machine, s: nat, brk: nat, addr: nat, n: nat) returns (r: MmapSearch.Answer)
    requires 0 < n <= MmapSearch.MMAP_TOP
    ensures Chosen(mc.mem, s, brk, addr, n) == if r.At? then Some(r.base) else None
  {
    hide MmapSearch.Search, MmapSearch.Floor, PageOf, GetPte;
    var present := PresentAt(mc.mem, s);
    if addr == 0 {
      WholePages(n);
      r := MmapSearch.Reserve(present, brk, n * FRAME_BYTES);
      return;
    }
    if addr % FRAME_BYTES != 0 || addr / FRAME_BYTES >= MmapSearch.MMAP_TOP {
      return MmapSearch.Invalid;
    }
    var clear := MmapSearch.RangeClear(present, addr / FRAME_BYTES, addr / FRAME_BYTES + n);
    return if clear then MmapSearch.At(addr / FRAME_BYTES) else MmapSearch.Invalid;
  }

  lemma WholePages(n: nat)
    ensures n * FRAME_BYTES % MmapSearch.PAGE_BYTES == 0 && n * FRAME_BYTES / MmapSearch.PAGE_BYTES == n
  {
  }

  /** The chosen window is unmapped, or wraps. */
  lemma ChosenFree(m: Memory, sp: Spaces, ow: Owners, s: nat, brk: nat, addr: nat, n: nat)
    requires Inv(m, sp, ow) && s in sp && 0 < n <= MmapSearch.MMAP_TOP && Chosen(m, s, brk, addr, n).Some?
    ensures forall q: nat {:trigger Mapped(m, s, q)} :: q < USER_PAGES && Chosen(m, s, brk, addr, n).value <= q < Chosen(m, s, brk, addr, n).value + Window(Chosen(m, s, brk, addr, n).value, n) ==> !Mapped(m, s, q)
  {
    hide MmapSearch.Search, MmapSearch.Floor, PageOf, PageNumber, GetPte, Leaf, NoHuge, UserPage, NodesOwned, OwnersAreNodes,
         DataOwned, OwnersAreData;
    var b := Chosen(m, s, brk, addr, n).value;
    if addr == 0 {
      MmapSearch.SearchAnswer(PresentAt(m, s), MmapSearch.MMAP_TOP - n, n, MmapSearch.Floor(brk));
    }
    forall q: nat | q < USER_PAGES && b <= q < b + Window(b, n)
      ensures !Mapped(m, s, q)
    {
      assert !PresentAt(m, s)(q);
      PageRoundTrip(q);
      WalksReadLeaf(m, s, PageOf(q), 0);
    }
  }

  /** `sys_mmap`.  Success maps exactly the chosen pages, none of which was mapped.  A failed call
      leaves every mapping as it was, but the pages it had mapped stay on record, and their frames
      stay taken. */
  method Mmap(mc: Machine, s: nat, brk: nat, addr: nat, length: nat, argsOk: bool, flags: Flags) returns (r: MmapSearch.Answer)
    requires Good(mc) && s in mc.spaces
    modifies mc, mc.pmm, mc.pmm.bitmap
    ensures Good(mc) && OnlySpace(old(mc.mem), mc.mem, old(mc.spaces), mc.spaces, s)
    ensures OthersKept(old(mc.mem), mc.mem, old(mc.owner), mc.owner, s)
    ensures !Sized(length) || !argsOk ==> !r.At? && mc.mem == old(mc.mem) && mc.spaces == old(mc.spaces) && mc.pmm.FreeSet() == old(mc.pmm.FreeSet())
    ensures r.At? ==>
              var n := Window(r.base, PagesUp(length));
              && Chosen(old(mc.mem), s, brk, addr, PagesUp(length)) == Some(r.base)
              && NoneMapped(old(mc.mem), s, r.base, r.base + n) && AllMapped(mc.mem, s, r.base, r.base + n)
              && Appended(old(mc.spaces)[s], mc.spaces[s], r.base, n) && SameOutside(old(mc.mem), mc.mem, s, r.base, n)
              && FreshPages(mc.mem, s, mc.spaces[s], |old(mc.spaces)[s]|, flags)
              && |old(mc.pmm.FreeSet())| == |mc.pmm.FreeSet()| + RunCost(old(mc.mem), s, r.base, n)
    ensures DataSame(old(mc.mem), mc.mem, old(mc.owner))
    ensures r.At? <==>
              && Sized(length) && argsOk && 0 < PagesUp(length) <= MmapSearch.MMAP_TOP && Chosen(old(mc.mem), s, brk, addr, PagesUp(length)).Some?
              && var base := Chosen(old(mc.mem), s, brk, addr, PagesUp(length)).value;
                 old(RunFits(mc, s, base, Window(base, PagesUp(length))))
    ensures !r.At? ==> SeenSame(old(mc.mem), mc.mem, old(mc.spaces)) && old(mc.spaces)[s] <= mc.spaces[s]
    ensures !r.At? ==> Stale(mc.mem, s, mc.spaces[s][|old(mc.spaces)[s]|..])
    ensures !r.At? ==> (old(mc.spaces)[s] != mc.spaces[s] <==> Sized(length) && argsOk && old(Starts(mc, s, brk, addr, PagesUp(length))))
    ensures AllAgree(old(mc.mem), old(mc.spaces)) ==>
              (AllAgree(mc.mem, mc.spaces) <==> !(!r.At? && Sized(length) && argsOk && old(Starts(mc, s, brk, addr, PagesUp(length)))))
  {
    hide Inv, Leaf, UserPage, PageOf, PageNumber, LeavesSame, AllAgree, SameOutside, SeenSame, Good, Mapped, AllMapped, NoneMapped,
         Pmm.FreeSet, Missing, Chosen, PagesUp, Appended, RecordsBounded, OthersKept, FreshPages, DataSame, Extends;
    ghost var m, sp, ow := mc.mem, mc.spaces, mc.owner;
    KeptSame(m, ow, s);
    DataSelf(m, ow);
    Nothing(m, sp, s);
    if !Sized(length) || !argsOk {
      r := if length == 0 || Sized(length) then MmapSearch.Invalid else MmapSearch.NoMemory;
      return;
    }
    SizedPages(length);
    var n := PagesUp(length);
    r := ChooseBase(mc, s, brk, addr, n);
    if !r.At? {
      return;
    }
    GoodParts(mc);
    ChosenFree(m, sp, mc.owner, s, brk, addr, n);
    var count := Window(r.base, n);
    var done := MapRun(mc, s, r.base, count, flags);
    FreshRun(m, mc.mem, s, r.base, done, count);
    if done < count {
      ghost var m1 := mc.mem;
      UnmapRun(mc, s, r.base, done);
      KeptTwice(m, m1, mc.mem, ow, mc.owner, mc.owner, s);
      DataMore(m, m1, mc.mem, ow, mc.owner, s);
      GoodParts(mc);
      RolledBack(m, m1, mc.mem, sp, mc.spaces, s, r.base, done);
      r := MmapSearch.NoMemory;
    }
  }

  /** None of these records has its page. */
  ghost predicate Stale(m: Memory, s: nat, rs: seq<Mapping>) {
    forall i :: 0 <= i < |rs| ==> rs[i].virt < USER_PAGES && !Mapped(m, s, rs[i].virt)
  }

  /** The length is one the call looks at. */
  predicate Sized(length: nat) { 0 < length < MmapSearch.MMAP_TOP * FRAME_BYTES }

  /** A place is found and its first page can be had. */
  ghost predicate Starts(mc: Machine, s: nat, brk: nat, addr: nat, n: nat)
    requires s in mc.spaces
    reads mc, mc.pmm, mc.pmm.bitmap
  {
    && 0 < n <= MmapSearch.MMAP_TOP && Chosen(mc.mem, s, brk, addr, n).Some?
    && Window(Chosen(mc.mem, s, brk, addr, n).value, n) > 0 && mc.CanMap(s, Chosen(mc.mem, s, brk, addr, n).value)
  }

  lemma SizedPages(length: nat)
    requires Sized(length)
    ensures 0 < PagesUp(length) <= MmapSearch.MMAP_TOP
  {
  }

  lemma GoodParts(mc: Machine)
    requires Good(mc)
    ensures Inv(mc.mem, mc.spaces, mc.owner) && RecordsBounded(mc.spaces)
  {
    hide Inv, AllBacked, RecordsBounded;
  }

  /** The same pages are mapped, to the same frames with the same flags. */
  ghost predicate SeenSame(m: Memory, m': Memory, sp: Spaces) {
    forall t, v :: t in sp && UserPage(v) ==>
      Leaf(m', t, v) == Leaf(m, t, v) || (!Leaf(m, t, v).flags.present && !Leaf(m', t, v).flags.present)
  }

  lemma Nothing(m: Memory, sp: Spaces, s: nat)
    requires s in sp
    ensures OnlySpace(m, m, sp, sp, s) && SeenSame(m, m, sp) && Stale(m, s, sp[s][|sp[s]|..])
  {
    hide Leaf, UserPage;
  }

  /** Pages that could be mapped lie in the user half, so the search vouches for them. */
  lemma FreshRun(m: Memory, m': Memory, s: nat, q0: nat, done: nat, count: nat)
    requires done <= count && AllMapped(m', s, q0, q0 + done)
    requires forall q: nat {:trigger Mapped(m, s, q)} :: q < USER_PAGES && q0 <= q < q0 + count ==> !Mapped(m, s, q)
    ensures NoneMapped(m, s, q0, q0 + done)
  {
    hide Leaf, PageOf;
    forall q: nat | q0 <= q < q0 + done
      ensures !Mapped(m, s, q)
    {
      assert Mapped(m', s, q);
    }
  }

  /** After the pages were taken back every lookup is as before; what was recorded is stale. */
  lemma RolledBack(m: Memory, m1: Memory, m2: Memory, sp: Spaces, sp': Spaces, s: nat, q0: nat, done: nat)
    requires OnlySpace(m, m1, sp, sp', s) && Appended(sp[s], sp'[s], q0, done) && SameOutside(m, m1, s, q0, done)
    requires AllMapped(m1, s, q0, q0 + done) && NoneMapped(m, s, q0, q0 + done)
    requires LeavesSame(m1, m2, sp' - {s}) && SameOutside(m1, m2, s, q0, done) && NoneMapped(m2, s, q0, q0 + done)
    requires RecordsBounded(sp')
    ensures OnlySpace(m, m2, sp, sp', s) && SeenSame(m, m2, sp) && sp[s] <= sp'[s] && (sp[s] == sp'[s] <==> done == 0)
    ensures Stale(m2, s, sp'[s][|sp[s]|..])
    ensures 0 < done ==> !AllAgree(m2, sp')
    ensures done == 0 && AllAgree(m1, sp') ==> AllAgree(m2, sp')
  {
    hide Leaf, UserPage, PageNumber, PageOf, Agrees, Appended, RecordsBounded, UserRecords, Listed;
    assert (sp' - {s}).Keys == (sp - {s}).Keys;
    forall v | UserPage(v)
      ensures Leaf(m2, s, v) == Leaf(m, s, v) || (!Leaf(m, s, v).flags.present && !Leaf(m2, s, v).flags.present)
    {
      if q0 <= PageNumber(v) < q0 + done {
        NumberedPage(v);
        assert !Mapped(m, s, PageNumber(v)) && !Mapped(m2, s, PageNumber(v));
      }
    }
    AppendedPrefix(sp[s], sp'[s], q0, done);
    NowStale(m1, m2, s, sp[s], sp'[s], q0, done);
    BoundedUser(sp', s);
    if 0 < done {
      assert Mapped(m1, s, q0) && !Mapped(m2, s, q0);
      PageRoundTrip(q0);
      StaleRecord(m2, s, sp'[s], PageOf(q0));
    } else if AllAgree(m1, sp') {
      SameViews(m1, m2, s, sp'[s]);
      OthersAgree(m1, m2, sp', sp', s);
    }
  }

  lemma NowStale(m1: Memory, m2: Memory, s: nat, a: seq<Mapping>, b: seq<Mapping>, q0: nat, n: nat)
    requires Appended(a, b, q0, n) && AllMapped(m1, s, q0, q0 + n) && NoneMapped(m2, s, q0, q0 + n)
    ensures Stale(m2, s, b[|a|..])
  {
    hide Leaf, PageOf;
    var rs := b[|a|..];
    forall i | 0 <= i < |rs|
      ensures rs[i].virt < USER_PAGES && !Mapped(m2, s, rs[i].virt)
    {
      assert rs[i] == b[|a| + i] && rs[i].virt == q0 + i;
      assert Mapped(m1, s, q0 + i);
    }
  }

  lemma AppendedPrefix(a: seq<Mapping>, b: seq<Mapping>, q0: nat, n: nat)
    requires Appended(a, b, q0, n)
    ensures a <= b && (a == b <==> n == 0) && (0 < n ==> Listed(b, PageOf(q0)))
  {
    hide PageOf;
    if 0 < n {
      assert b[|a|].virt == q0;
    }
  }

  lemma NumberedPage(v: Page)
    requires UserPage(v)
    ensures PageNumber(v) < USER_PAGES && PageOf(PageNumber(v)) == v
  {
    var c := v.i4;
    var b := c * 512 + v.i3;
    var a := b * 512 + v.i2;
    assert PageNumber(v) / 512 == a && a / 512 == b && b / 512 == c;
  }

  // -----------------------------------------------------------------------------
  // Where records and page tables part

  /** A machine with one empty space and `n` free frames. */
  method SmallMachine(n: nat) returns (mc: Machine, s: nat)
    ensures fresh(mc) && fresh(mc.pmm) && fresh(mc.pmm.bitmap) && Good(mc) && mc.spaces == map[s := []] && |mc.pmm.FreeSet()| == n
    ensures AllAgree(mc.mem, mc.spaces) && forall v :: UserPage(v) ==> Leaf(mc.mem, s, v) == ZERO_PTE
  {
    hide Leaf, UserPage, Inv, Pmm.Used, Machine.Valid;
    var p := FreeBut2(n + 3);
    mc := new Machine(p, 1, seq(n + 3, _ => ZeroTable()));
    s := mc.CreateSpace({});
    EmptyGood(mc.mem, s);
  }

  /** An allocator with all frames free but 0 and 1. */
  method FreeBut2(n: nat) returns (p: Pmm)
    requires 2 <= n
    ensures fresh(p) && fresh(p.bitmap) && p.Valid() && p.total == n && 0 !in p.FreeSet() && 1 !in p.FreeSet() && |p.FreeSet()| == n - 2
  {
    hide Pmm.Used, Pmm.FreeSet;
    p := new Pmm(n);
    for f := 2 to n
      invariant fresh(p.bitmap) && p.Valid() && p.total == n && |p.FreeSet()| == f - 2 && forall g :: g in p.FreeSet() ==> 2 <= g < f
    {
      p.FreeFrame(f);
    }
  }

  lemma EmptyGood(m: Memory, s: nat)
    requires forall v :: UserPage(v) ==> Leaf(m, s, v) == ZERO_PTE
    ensures AllBacked(m, map[s := []]) && AllAgree(m, map[s := []])
  {
    hide Leaf, UserPage;
  }

  /** Two growths of the break within one page: the page is mapped twice, on two frames, and has
      two records. */
  method TwoBreaks() returns (mc: Machine, s: nat)
    ensures Good(mc) && s in mc.spaces && |mc.spaces[s]| == 2 && mc.spaces[s][0].virt == mc.spaces[s][1].virt == 0x401
    ensures !AllAgree(mc.mem, mc.spaces)
  {
    hide Good, AllAgree, Leaf, PageOf, Pmm.FreeSet, Missing, LeavesSame, SameOutside;
    mc, s := SmallMachine(8);
    var perm := Flags(false, true, false, false, true);
    AtMostThree(mc.mem, s, PageOf(0x401));
    var r, brk := SetBreak(mc, s, 0x40_0000, 0x40_1000, 0x40_1064, perm);
    AtMostThree(mc.mem, s, PageOf(0x401));
    r, brk := SetBreak(mc, s, 0x40_0000, brk, 0x40_10C8, perm);
    TwoRecords(mc.mem, mc.spaces, s);
  }

  lemma TwoRecords(m: Memory, sp: Spaces, s: nat)
    requires s in sp && |sp[s]| == 2 && sp[s][0].virt == sp[s][1].virt
    ensures !AllAgree(m, sp)
  {
    hide Leaf, PageOf, UserPage, Listed;
    assert AllAgree(m, sp) ==> DistinctPages(sp[s]);
  }

  /** A request for one page more than `umap[]` holds: it fails, and what it had mapped stays on
      record. */
  method LargeMmap() returns (mc: Machine, s: nat, r: MmapSearch.Answer)
    ensures Good(mc) && s in mc.spaces && !r.At? && mc.spaces[s] != [] && forall q: nat :: q < USER_PAGES ==> !Mapped(mc.mem, s, q)
    ensures !AllAgree(mc.mem, mc.spaces)
  {
    hide Good, AllAgree, Leaf, PageOf, UserPage, GetPte, Pmm.FreeSet, Missing, LeavesSame, SameOutside, MmapSearch.Search, AllMapped,
         NoneMapped, SeenSame, Mapped;
    mc, s := SmallMachine(8);
    ghost var m, sp := mc.mem, mc.spaces;
    AtMostThree(m, s, PageOf(0x500));
    GoodParts(mc);
    NothingPresent(m, sp, mc.owner, s, 0x500, 0x101);
    r := Mmap(mc, s, 0x40_1000, 0x50_0000, 0x10_1000, true, Flags(false, true, false, false, true));
    GoodParts(mc);
    TooMany(mc.spaces, s, 0x101);
    NothingSeen(m, mc.mem, sp, s);
    EmptyAgrees(mc.mem, s);
    assert mc.spaces == map[s := mc.spaces[s]];
  }

  lemma NothingPresent(m: Memory, sp: Spaces, ow: Owners, s: nat, lo: nat, n: nat)
    requires Inv(m, sp, ow) && s in sp && lo + n <= USER_PAGES && forall v :: UserPage(v) ==> Leaf(m, s, v) == ZERO_PTE
    ensures MmapSearch.Clear(PresentAt(m, s), lo, lo + n)
  {
    hide PageOf, PageNumber, GetPte, Leaf, NoHuge, UserPage, NodesOwned, OwnersAreNodes, DataOwned, OwnersAreData;
    forall q: nat | lo <= q < lo + n
      ensures !PresentAt(m, s)(q)
    {
      PageRoundTrip(q);
      WalksReadLeaf(m, s, PageOf(q), 0);
    }
  }

  lemma TooMany(sp: Spaces, s: nat, n: nat)
    requires RecordsBounded(sp) && s in sp && MAX_UMAP < n
    ensures |sp[s]| < n
  {
  }

  lemma NothingSeen(m: Memory, m': Memory, sp: Spaces, s: nat)
    requires SeenSame(m, m', sp) && s in sp && forall v :: UserPage(v) ==> Leaf(m, s, v) == ZERO_PTE
    ensures forall q: nat :: q < USER_PAGES ==> !Mapped(m', s, q)
  {
    hide Leaf, PageOf, PageNumber, UserPage;
    forall q: nat | q < USER_PAGES
      ensures !Mapped(m', s, q)
    {
      PageRoundTrip(q);
    }
  }

  lemma EmptyAgrees(m: Memory, s: nat)
    requires forall q: nat :: q < USER_PAGES ==> !Mapped(m, s, q)
    ensures AllAgree(m, map[s := []])
  {
    hide Leaf, PageOf, PageNumber, UserPage;
    forall v | UserPage(v)
      ensures !Leaf(m, s, v).flags.present
    {
      NumberedPage(v);
      assert !Mapped(m, s, PageNumber(v));
    }
  }
}
