/** Eager copy-on-fork of a user address space. */
module Fork {
  import opened Common
  import opened Frames
  import opened PageTable
  import opened Ownership
  import opened AddressSpaces
  import opened Teardown
  import opened Records
  import opened Costs

  /** The entry a fork gives the child for a page the parent maps with `e`. */
  function ChildPte(e: Pte, frame: nat): Pte {
    Pte(Flags(true, e.flags.write, true, false, e.flags.nx), frame)
  }

  /** Child records `cs` copy the first records `ps` of the parent: same pages, same bytes as
      the parent had in memory `m0`, on frames that were free. */
  ghost predicate Copies(m: Memory, m0: Memory, ps: seq<Mapping>, cs: seq<Mapping>, free: set<nat>) {
    && |cs| <= |ps|
    && forall i {:trigger cs[i]} :: 0 <= i < |cs| ==>
         && cs[i].virt == ps[i].virt && cs[i].frame in free
         && cs[i].frame < |m| && ps[i].frame < |m0| && m[cs[i].frame] == m0[ps[i].frame]
  }

  /** The frame of the last record of page `v`. */
  ghost function LastFrame(records: seq<Mapping>, v: Page): Option<nat> {
    if records == [] then None
    else if PageOf(records[|records| - 1].virt) == v then Some(records[|records| - 1].frame)
    else LastFrame(records[..|records| - 1], v)
  }

  /** The page tables of the child map exactly the pages recorded so far, each to its last frame. */
  ghost predicate ChildMaps(m: Memory, c: nat, m0: Memory, p: nat, cs: seq<Mapping>) {
    forall v :: UserPage(v) ==>
      Leaf(m, c, v) == match LastFrame(cs, v) case None => ZERO_PTE case Some(f) => ChildPte(Leaf(m0, p, v), f)
  }

  /** The child has paid for the first `i` records of the parent and for nothing else. */
  ghost predicate Paid(mc: Machine, c: nat, ps: seq<Mapping>, i: nat, free0: set<nat>)
    requires i <= |ps|
    reads mc, mc.pmm.bitmap
  {
    Planted(mc.mem, c, Virts(ps[..i])) && |mc.pmm.FreeSet()| + Cost(i, Virts(ps[..i])) == |free0|
  }

  /** What a fork of a space with these records takes. */
  ghost function ForkCost(ps: seq<Mapping>): nat { Cost(|ps|, Virts(ps)) }

  /** The next record can be paid for exactly when there are frames for all records so far and it. */
  lemma NextAfford(m: Memory, c: nat, ps: seq<Mapping>, i: nat, free: nat, free0: nat)
    requires i < |ps| && Planted(m, c, Virts(ps[..i])) && free + Cost(i, Virts(ps[..i])) == free0 && UserPage(PageOf(ps[i].virt))
    ensures Cost(i + 1, Virts(ps[..i + 1])) == Cost(i, Virts(ps[..i])) + 1 + Missing(m, c, PageOf(ps[i].virt))
    ensures Missing(m, c, PageOf(ps[i].virt)) < free <==> Cost(i + 1, Virts(ps[..i + 1])) <= free0
  {
    hide Planted, Virts, Cost, PageOf, UserPage, Missing;
    assert ps[..i + 1] == ps[..i] + [ps[i]];
    VirtsMore(ps[..i], ps[i]);
    MissingIs(m, c, Virts(ps[..i]), PageOf(ps[i].virt));
    CostMore(i, Virts(ps[..i]), ps[i].virt);
  }

  lemma NextPlanted(m: Memory, m': Memory, c: nat, ps: seq<Mapping>, i: nat)
    requires i < |ps| && Planted(m, c, Virts(ps[..i])) && GrewAt(m, m', c, Way(PageOf(ps[i].virt)))
    ensures Planted(m', c, Virts(ps[..i + 1]))
  {
    hide Planted, Virts, PageOf, GrewAt, Way;
    assert ps[..i + 1] == ps[..i] + [ps[i]];
    VirtsMore(ps[..i], ps[i]);
    PlantedMore(m, m', c, Virts(ps[..i]), ps[i].virt);
  }

  lemma PrefixCost(ps: seq<Mapping>, i: nat)
    requires i <= |ps|
    ensures Cost(i, Virts(ps[..i])) <= ForkCost(ps)
  {
    hide Cost;
    forall v | v in Virts(ps[..i])
      ensures v in Virts(ps)
    {
      var k :| 0 <= k < i && ps[..i][k].virt == v;
      assert ps[k].virt == v;
    }
    CostLess(i, Virts(ps[..i]), |ps|, Virts(ps));
  }

  /** One page of the copy loop. */
  method CopyPage(mc: Machine, p: nat, c: nat, i: nat, ghost m0: Memory, ghost free: set<nat>) returns (ok: bool)
    requires mc.Ready() && p in mc.spaces && c in mc.spaces && p != c && i < |mc.spaces[p]|
    requires mc.pmm.FreeSet() <= free
    requires Copies(mc.mem, m0, mc.spaces[p], mc.spaces[c], free) && |mc.spaces[c]| == i
    requires LeavesSame(m0, mc.mem, mc.spaces - {c}) && |m0| == |mc.mem|
    requires mc.spaces[p][i].frame < |m0| && mc.mem[mc.spaces[p][i].frame] == m0[mc.spaces[p][i].frame]
    requires ChildMaps(mc.mem, c, m0, p, mc.spaces[c])
    modifies mc, mc.pmm, mc.pmm.bitmap
    ensures mc.Ready() && Extends(old(mc.owner), mc.owner, c) && DataSame(old(mc.mem), mc.mem, old(mc.owner))
    ensures LeavesSame(m0, mc.mem, old(mc.spaces) - {c})
    ensures mc.pmm.FreeSet() <= free
    ensures ok <==> old(mc.CanMap(c, mc.spaces[p][i].virt))
    ensures ok ==>
              var v := PageOf(old(mc.spaces)[p][i].virt);
              |mc.pmm.FreeSet()| == |old(mc.pmm.FreeSet())| - 1 - Missing(old(mc.mem), c, v) && GrewAt(old(mc.mem), mc.mem, c, Way(v))
    ensures !ok ==> mc.spaces == old(mc.spaces)
    ensures ok ==>
              && mc.spaces.Keys == old(mc.spaces).Keys && mc.spaces == old(mc.spaces)[c := mc.spaces[c]]
              && |mc.spaces[c]| == i + 1
              && Copies(mc.mem, m0, mc.spaces[p], mc.spaces[c], free)
              && ChildMaps(mc.mem, c, m0, p, mc.spaces[c])
  {
    hide Inv, KernelShared, RecordsBounded, Pmm.FreeSet, Pmm.Sized, Partition, Leaf, UserPage, Copies, ChildMaps,
         LeavesSame, LeafSet, DataSame, Extends, PageOf, Machine.Valid, GrewAt, Way, Missing;
    var r := mc.spaces[p][i];
    RecordPage(mc, p, i);
    assert Inv(mc.mem, mc.spaces, mc.owner) by { InvOf(mc); }
    WalksReadLeaf(mc.mem, p, PageOf(r.virt), 0);
    var pte := GetPte(mc.mem, p, PageOf(r.virt));
    ghost var m1, sp1 := mc.mem, mc.spaces;
    ghost var n;
    ok, n := mc.AddPage(c, r.virt, Flags(false, pte.flags.write, false, false, pte.flags.nx), mc.mem[r.frame]);
    if ok {
      OthersAfter(m0, m1, mc.mem, sp1, c, PageOf(r.virt), ChildPte(pte, n));
      CopiesMore(m1, mc.mem, m0, sp1, old(mc.owner), p, c, free, n);
      ChildMapsMore(m1, mc.mem, m0, sp1, p, c, n);
    } else {
      OthersSameAfter(m0, m1, mc.mem, sp1, c);
    }
  }

  lemma RecordPage(mc: Machine, p: nat, i: nat)
    requires mc.Ready() && p in mc.spaces && i < |mc.spaces[p]|
    ensures mc.spaces[p][i].virt < USER_PAGES
    ensures forall j :: 0 <= j < |mc.spaces[p]| ==> UserPage(PageOf(mc.spaces[p][j].virt))
    ensures mc.spaces[p][i].frame < |mc.mem| && IsData(mc.mem[mc.spaces[p][i].frame])
    ensures NoHuge(mc.mem, p)
  {
    forall j | 0 <= j < |mc.spaces[p]|
      ensures UserPage(PageOf(mc.spaces[p][j].virt))
    {
      PageRoundTrip(mc.spaces[p][j].virt);
    }
  }

  lemma OthersSameAfter(m0: Memory, m1: Memory, m2: Memory, sp: Spaces, c: nat)
    requires LeavesSame(m0, m1, sp - {c}) && LeavesSame(m1, m2, sp)
    ensures LeavesSame(m0, m2, sp - {c})
  {
    hide Leaf, UserPage;
  }

  lemma OthersAfter(m0: Memory, m1: Memory, m2: Memory, sp: Spaces, c: nat, v: Page, e: Pte)
    requires LeavesSame(m0, m1, sp - {c}) && LeafSet(m1, m2, sp, c, v, e)
    ensures LeavesSame(m0, m2, sp - {c})
  {
    hide Leaf, UserPage;
  }

  lemma PagesUser(mc: Machine, p: nat)
    requires mc.Ready() && p in mc.spaces
    ensures UserRecords(mc.spaces[p])
  {
    forall j | 0 <= j < |mc.spaces[p]|
      ensures UserPage(PageOf(mc.spaces[p][j].virt))
    {
      PageRoundTrip(mc.spaces[p][j].virt);
    }
  }

  lemma NewRoot(ow: Owners, c: nat)
    requires c !in ow
    ensures Extends(ow, ow[c := TableOf(c, Root)], c)
  {
  }

  lemma InvOf(mc: Machine)
    requires mc.Ready()
    ensures Inv(mc.mem, mc.spaces, mc.owner)
  {
    hide Inv;
  }

  lemma CopiesMore(m1: Memory, m2: Memory, m0: Memory, sp: Spaces, ow: Owners, p: nat, c: nat, free: set<nat>, n: nat)
    requires Inv(m1, sp, ow) && p in sp && c in sp && |sp[c]| < |sp[p]|
    requires Copies(m1, m0, sp[p], sp[c], free) && DataSame(m1, m2, ow)
    requires n in free && n < |m2| && sp[p][|sp[c]|].frame < |m0| && m2[n] == m0[sp[p][|sp[c]|].frame]
    ensures Copies(m2, m0, sp[p], sp[c] + [Mapping(sp[p][|sp[c]|].virt, n)], free)
  {
    hide NoHuge, NodesOwned, OwnersAreNodes, OwnersAreData;
    var cs := sp[c] + [Mapping(sp[p][|sp[c]|].virt, n)];
    forall i | 0 <= i < |cs|
      ensures cs[i].virt == sp[p][i].virt && cs[i].frame in free && cs[i].frame < |m2| && sp[p][i].frame < |m0| && m2[cs[i].frame] == m0[sp[p][i].frame]
    {
      if i < |sp[c]| {
        assert cs[i] == sp[c][i];
        assert ow[sp[c][i].frame] == DataOf(c);
        assert m2[sp[c][i].frame] == m1[sp[c][i].frame];
      }
    }
  }

  lemma LastMore(cs: seq<Mapping>, r: Mapping, v: Page)
    ensures LastFrame(cs + [r], v) == if PageOf(r.virt) == v then Some(r.frame) else LastFrame(cs, v)
  {
    hide PageOf;
    assert (cs + [r])[..|cs|] == cs;
  }

  lemma ChildMapsMore(m1: Memory, m2: Memory, m0: Memory, sp: Spaces, p: nat, c: nat, n: nat)
    requires p in sp && c in sp && p != c && |sp[c]| < |sp[p]|
    requires ChildMaps(m1, c, m0, p, sp[c]) && UserPage(PageOf(sp[p][|sp[c]|].virt))
    requires LeavesSame(m0, m1, sp - {c})
    requires var v := PageOf(sp[p][|sp[c]|].virt); LeafSet(m1, m2, sp, c, v, ChildPte(Leaf(m1, p, v), n))
    ensures ChildMaps(m2, c, m0, p, sp[c] + [Mapping(sp[p][|sp[c]|].virt, n)])
  {
    hide Leaf, UserPage, PageOf, LastFrame;
    var r := Mapping(sp[p][|sp[c]|].virt, n);
    forall v | UserPage(v)
      ensures Leaf(m2, c, v) == match LastFrame(sp[c] + [r], v) case None => ZERO_PTE case Some(f) => ChildPte(Leaf(m0, p, v), f)
    {
      LastMore(sp[c], r, v);
      assert p in sp - {c} && Leaf(m1, p, v) == Leaf(m0, p, v);
    }
  }

  /** The child maps exactly the parent's pages, with the same WRITE and NX bits and the same
      bytes. */
  ghost predicate SamePages(m: Memory, c: nat, m0: Memory, p: nat) {
    forall v :: UserPage(v) ==>
      && (Leaf(m, c, v).flags.present <==> Leaf(m0, p, v).flags.present)
      && (Leaf(m0, p, v).flags.present ==>
            && Leaf(m, c, v).flags.write == Leaf(m0, p, v).flags.write
            && Leaf(m, c, v).flags.nx == Leaf(m0, p, v).flags.nx
            && FrameBytes(m, Leaf(m, c, v).frame) == FrameBytes(m0, Leaf(m0, p, v).frame))
  }

  function FrameBytes(m: Memory, f: nat): Option<Frame> { if f < |m| then Some(m[f]) else None }

  /** No record of the parent is stale, and of several records of a page the last one has the
      page's bytes. */
  ghost predicate Copyable(m: Memory, p: nat, records: seq<Mapping>) {
    forall v :: UserPage(v) ==>
      && (LastFrame(records, v).Some? <==> Leaf(m, p, v).flags.present)
      && (Leaf(m, p, v).flags.present ==> FrameBytes(m, LastFrame(records, v).value) == FrameBytes(m, Leaf(m, p, v).frame))
  }

  lemma CopiesLess(m: Memory, m0: Memory, ps: seq<Mapping>, cs: seq<Mapping>, free: set<nat>, k: nat)
    requires Copies(m, m0, ps, cs, free) && k <= |cs|
    ensures Copies(m, m0, ps[..k], cs[..k], free)
  {
    forall i | 0 <= i < k
      ensures cs[..k][i] == cs[i] && ps[..k][i] == ps[i] && cs[i].virt == ps[i].virt
    {
    }
  }

  lemma {:induction false} LastCopied(m: Memory, m0: Memory, ps: seq<Mapping>, cs: seq<Mapping>, free: set<nat>, v: Page)
    requires Copies(m, m0, ps, cs, free) && |cs| == |ps|
    ensures LastFrame(cs, v).Some? <==> LastFrame(ps, v).Some?
    ensures LastFrame(cs, v).Some? ==>
              HasRecord(cs, v, LastFrame(cs, v).value) && FrameBytes(m, LastFrame(cs, v).value) == FrameBytes(m0, LastFrame(ps, v).value)
    decreases |cs|
  {
    hide PageOf;
    if cs != [] {
      var k := |cs| - 1;
      assert cs[k].virt == ps[k].virt;
      if PageOf(cs[k].virt) != v {
        CopiesLess(m, m0, ps, cs, free, k);
        LastCopied(m, m0, ps[..k], cs[..k], free, v);
        if LastFrame(cs, v).Some? {
          var i :| 0 <= i < k && PageOf(cs[..k][i].virt) == v && cs[..k][i].frame == LastFrame(cs, v).value;
          assert cs[i] == cs[..k][i];
        }
      }
    }
  }

  /** The child has the parent's pages and bytes exactly when the parent's records are good for it. */
  lemma SamePagesIff(m: Memory, c: nat, cs: seq<Mapping>, m0: Memory, p: nat, ps: seq<Mapping>, free: set<nat>)
    requires Copies(m, m0, ps, cs, free) && |cs| == |ps| && ChildMaps(m, c, m0, p, cs)
    ensures SamePages(m, c, m0, p) <==> Copyable(m0, p, ps)
    ensures Backed(m, c, cs)
  {
    hide Leaf, PageOf, UserPage, LastFrame, HasRecord, FrameBytes, Copies;
    forall v | UserPage(v)
      ensures LastFrame(cs, v).Some? <==> LastFrame(ps, v).Some?
      ensures LastFrame(cs, v).Some? ==>
                HasRecord(cs, v, LastFrame(cs, v).value) && FrameBytes(m, LastFrame(cs, v).value) == FrameBytes(m0, LastFrame(ps, v).value)
    {
      LastCopied(m, m0, ps, cs, free, v);
    }
  }

  lemma {:induction false} LastListed(records: seq<Mapping>, v: Page)
    ensures LastFrame(records, v).Some? <==> Listed(records, v)
    ensures LastFrame(records, v).Some? ==> HasRecord(records, v, LastFrame(records, v).value)
    decreases |records|
  {
    hide PageOf;
    if records != [] {
      var k := |records| - 1;
      LastListed(records[..k], v);
      if PageOf(records[k].virt) != v {
        if Listed(records[..k], v) {
          var i :| 0 <= i < k && PageOf(records[..k][i].virt) == v && records[..k][i].frame == LastFrame(records, v).value;
          assert records[i] == records[..k][i];
        }
        if Listed(records, v) {
          var i :| 0 <= i < |records| && PageOf(records[i].virt) == v;
          assert records[..k][i] == records[i];
        }
      }
    }
  }

  /** Records that agree with the page tables are good for a copy. */
  lemma AgreesCopyable(m: Memory, p: nat, records: seq<Mapping>)
    requires Agrees(m, p, records)
    ensures Copyable(m, p, records)
  {
    hide Leaf, PageOf, UserPage, LastFrame, FrameBytes;
    forall v | UserPage(v)
      ensures LastFrame(records, v).Some? <==> Leaf(m, p, v).flags.present
      ensures LastFrame(records, v).Some? ==> LastFrame(records, v).value == Leaf(m, p, v).frame
    {
      LastListed(records, v);
      if LastFrame(records, v).Some? {
        var i :| 0 <= i < |records| && PageOf(records[i].virt) == v && records[i].frame == LastFrame(records, v).value;
      }
    }
  }

  /** A record whose page is gone gives the child a page the parent does not have. */
  lemma StaleNotCopyable(m: Memory, p: nat, records: seq<Mapping>, v: Page)
    requires UserPage(v) && Listed(records, v) && !Leaf(m, p, v).flags.present
    ensures !Copyable(m, p, records)
  {
    hide Leaf, PageOf, UserPage, LastFrame, FrameBytes, Listed;
    LastListed(records, v);
  }

  /** The child's records agree with its page tables exactly when no page is recorded twice. */
  lemma ChildAgreesIff(m: Memory, c: nat, cs: seq<Mapping>, m0: Memory, p: nat)
    requires ChildMaps(m, c, m0, p, cs) && UserRecords(cs)
    ensures Agrees(m, c, cs) <==> DistinctPages(cs)
  {
    hide Leaf, PageOf, UserPage, LastFrame, DistinctPages;
    forall v | UserPage(v)
      ensures Leaf(m, c, v).flags.present <==> Listed(cs, v)
    {
      LastListed(cs, v);
    }
    if DistinctPages(cs) {
      forall i | 0 <= i < |cs|
        ensures Leaf(m, c, PageOf(cs[i].virt)).frame == cs[i].frame
      {
        LastListed(cs, PageOf(cs[i].virt));
        assert Listed(cs, PageOf(cs[i].virt));
        OnlyRecord(cs, i, LastFrame(cs, PageOf(cs[i].virt)).value);
      }
    }
  }

  lemma OnlyRecord(cs: seq<Mapping>, i: nat, f: nat)
    requires DistinctPages(cs) && i < |cs| && HasRecord(cs, PageOf(cs[i].virt), f)
    ensures f == cs[i].frame
  {
    hide PageOf;
    var j :| 0 <= j < |cs| && PageOf(cs[j].virt) == PageOf(cs[i].virt) && cs[j].frame == f;
    assert j == i || j < i || i < j;
  }

  lemma SameDistinct(m: Memory, m0: Memory, ps: seq<Mapping>, cs: seq<Mapping>, free: set<nat>)
    requires Copies(m, m0, ps, cs, free) && |cs| == |ps|
    ensures DistinctPages(cs) <==> DistinctPages(ps)
    ensures UserRecords(ps) ==> UserRecords(cs)
  {
    hide PageOf, UserPage;
    assert forall i :: 0 <= i < |cs| ==> cs[i].virt == ps[i].virt;
  }

  /** The state while a new space `c` is being filled: everything older is untouched. */
  ghost predicate Building(mc: Machine, c: nat, m0: Memory, sp0: Spaces, ow0: Owners, free0: set<nat>)
    reads mc, mc.pmm, mc.pmm.bitmap
  {
    && mc.Ready() && c !in sp0 && c in mc.spaces && mc.spaces == sp0[c := mc.spaces[c]]
    && Inv(m0, sp0, ow0) && Partition(free0, ow0.Keys, {}, mc.pool)
    && LeavesSame(m0, mc.mem, sp0) && DataSame(m0, mc.mem, ow0) && Extends(ow0, mc.owner, c)
    && mc.pmm.FreeSet() <= free0
  }

  lemma DropAdded(sp0: Spaces, c: nat, umap: seq<Mapping>)
    requires c !in sp0
    ensures sp0[c := umap] - {c} == sp0
  {
  }

  lemma ParentBytes(m: Memory, m0: Memory, sp0: Spaces, ow0: Owners, p: nat, i: nat)
    requires Inv(m0, sp0, ow0) && DataSame(m0, m, ow0) && p in sp0 && i < |sp0[p]|
    ensures |m| == |m0| && sp0[p][i].frame < |m0| && m[sp0[p][i].frame] == m0[sp0[p][i].frame]
  {
    hide NoHuge, NodesOwned, OwnersAreNodes, OwnersAreData;
  }

  lemma StillExtends(m0: Memory, m1: Memory, m2: Memory, ow0: Owners, ow1: Owners, ow2: Owners, c: nat)
    requires Extends(ow0, ow1, c) && Extends(ow1, ow2, c) && DataSame(m0, m1, ow0) && DataSame(m1, m2, ow1)
    ensures Extends(ow0, ow2, c) && DataSame(m0, m2, ow0)
  {
    forall f | f in ow0
      ensures f in ow2 && ow2[f] == ow0[f]
    {
      assert ow0[f] == ow1[f] && ow1[f] == ow2[f];
    }
    forall f | f in ow2 && f !in ow0
      ensures ow2[f].space == c
    {
      if f in ow1 {
        assert ow1[f] == ow2[f];
      }
    }
    forall f | f in ow0 && ow0[f].DataOf? && f < |m0|
      ensures m2[f] == m0[f]
    {
      assert ow0[f] == ow1[f] && m1[f] == m0[f];
    }
  }

  method CopyStep(mc: Machine, p: nat, c: nat, i: nat, ghost m0: Memory, ghost sp0: Spaces, ghost ow0: Owners, ghost free0: set<nat>) returns (ok: bool)
    requires Building(mc, c, m0, sp0, ow0, free0) && p in sp0 && i < |sp0[p]| && |mc.spaces[c]| == i
    requires Copies(mc.mem, m0, sp0[p], mc.spaces[c], free0)
    requires ChildMaps(mc.mem, c, m0, p, mc.spaces[c]) && Paid(mc, c, sp0[p], i, free0)
    modifies mc, mc.pmm, mc.pmm.bitmap
    ensures Building(mc, c, m0, sp0, ow0, free0)
    ensures ok <==> Cost(i + 1, Virts(sp0[p][..i + 1])) <= |free0|
    ensures ok ==> Paid(mc, c, sp0[p], i + 1, free0)
    ensures ok ==> |mc.spaces[c]| == i + 1 && Copies(mc.mem, m0, sp0[p], mc.spaces[c], free0) && ChildMaps(mc.mem, c, m0, p, mc.spaces[c])
  {
    hide Inv, Machine.Ready, Partition, LeavesSame, DataSame, Extends, Copies, ChildMaps, Pmm.FreeSet, Planted, Cost, Virts, GrewAt,
         Way, Missing, PageOf;
    RecordRoom(mc, sp0, p, i);
    NextAfford(mc.mem, c, sp0[p], i, |mc.pmm.FreeSet()|, |free0|);
    ParentBytes(mc.mem, m0, sp0, ow0, p, i);
    DropAdded(sp0, c, mc.spaces[c]);
    ok := CopyPage(mc, p, c, i, m0, free0);
    if ok {
      NextPlanted(old(mc.mem), mc.mem, c, sp0[p], i);
    }
    StillExtends(m0, old(mc.mem), mc.mem, ow0, old(mc.owner), mc.owner, c);
  }

  lemma RecordRoom(mc: Machine, sp0: Spaces, p: nat, i: nat)
    requires mc.Ready() && p in mc.spaces && p in sp0 && mc.spaces[p] == sp0[p] && i < |sp0[p]|
    ensures |sp0[p]| <= MAX_UMAP && sp0[p][i].virt < USER_PAGES && UserPage(PageOf(sp0[p][i].virt))
  {
    PageRoundTrip(sp0[p][i].virt);
  }

  method CopyAll(mc: Machine, p: nat, c: nat, ghost m0: Memory, ghost sp0: Spaces, ghost ow0: Owners, ghost free0: set<nat>) returns (ok: bool)
    requires Building(mc, c, m0, sp0, ow0, free0) && p in sp0 && mc.spaces[c] == []
    requires ChildMaps(mc.mem, c, m0, p, []) && Paid(mc, c, sp0[p], 0, free0)
    modifies mc, mc.pmm, mc.pmm.bitmap
    ensures Building(mc, c, m0, sp0, ow0, free0)
    ensures ok ==> |mc.spaces[c]| == |sp0[p]| && Copies(mc.mem, m0, sp0[p], mc.spaces[c], free0)
    ensures ok ==> ChildMaps(mc.mem, c, m0, p, mc.spaces[c])
    ensures ok <==> ForkCost(sp0[p]) <= |free0|
  {
    hide Inv, Machine.Ready, Partition, LeavesSame, DataSame, Extends, ChildMaps, Pmm.FreeSet, Planted, Cost, Virts;
    var count := |mc.spaces[p]|;
    for i := 0 to count
      invariant Building(mc, c, m0, sp0, ow0, free0) && |mc.spaces[c]| == i
      invariant Copies(mc.mem, m0, sp0[p], mc.spaces[c], free0)
      invariant ChildMaps(mc.mem, c, m0, p, mc.spaces[c]) && Paid(mc, c, sp0[p], i, free0)
    {
      PrefixCost(sp0[p], i + 1);
      ok := CopyStep(mc, p, c, i, m0, sp0, ow0, free0);
      if !ok {
        return;
      }
    }
    assert sp0[p][..count] == sp0[p];
    ok := true;
  }

  /** Destroying the half-built space restores every frame. */
  method Undo(mc: Machine, c: nat, ghost m0: Memory, ghost sp0: Spaces, ghost ow0: Owners, ghost free0: set<nat>)
    requires Building(mc, c, m0, sp0, ow0, free0)
    modifies mc, mc.pmm, mc.pmm.bitmap
    ensures mc.Ready() && mc.spaces == sp0 && mc.owner == ow0 && mc.pmm.FreeSet() == free0
    ensures LeavesSame(m0, mc.mem, sp0) && DataSame(m0, mc.mem, ow0)
  {
    hide Inv, Partition, LeavesSame, DataSame, Extends, Pmm.FreeSet, KernelShared, RecordsBounded;
    ghost var m1, ow1 := mc.mem, mc.owner;
    DropAdded(sp0, c, mc.spaces[c]);
    BackToOld(m0, sp0, ow0, ow1, c);
    DestroySpace(mc, c);
    SamePartition(free0, mc.pmm.FreeSet(), ow0.Keys, mc.pool);
    DestroyedViews(m0, m1, mc.mem, sp0, ow0);
  }

  lemma BackToOld(m0: Memory, sp0: Spaces, ow0: Owners, ow1: Owners, c: nat)
    requires Inv(m0, sp0, ow0) && c !in sp0 && Extends(ow0, ow1, c)
    ensures ow1 - FramesOf(ow1, c) == ow0
  {
    hide NoHuge, NodesOwned, DataOwned;
    forall f | f in ow0
      ensures f in ow1 && ow1[f] == ow0[f] && ow0[f].space != c
    {
      assert ow0[f] == ow1[f];
    }
  }

  lemma SamePartition(free: set<nat>, free': set<nat>, owned: set<nat>, pool: set<nat>)
    requires Partition(free, owned, {}, pool) && Partition(free', owned, {}, pool)
    ensures free' == free
  {
  }

  /** `process_fork_current`, memory part.  A failed fork gives back everything it took, also when it
      fails after the copy (`restOk` says whether handle table, kernel stack and thread were had).
      It succeeds exactly when there are frames for a PML4, every record and the tables their pages
      need.  The child has the parent's pages and bytes exactly when no record of the parent is stale and
      the last record of each page has its bytes. */
  method ForkSpace(mc: Machine, p: nat, restOk: bool) returns (c: nat)
    requires mc.Ready() && p in mc.spaces
    modifies mc, mc.pmm, mc.pmm.bitmap
    ensures mc.Ready() && LeavesSame(old(mc.mem), mc.mem, old(mc.spaces)) && DataSame(old(mc.mem), mc.mem, old(mc.owner))
    ensures c != 0 <==> restOk && ForkCost(old(mc.spaces)[p]) <= |old(mc.pmm.FreeSet())|
    ensures c == 0 ==> mc.spaces == old(mc.spaces) && mc.owner == old(mc.owner) && mc.pmm.FreeSet() == old(mc.pmm.FreeSet())
    ensures c != 0 ==>
              && c !in old(mc.spaces) && c in mc.spaces && mc.spaces == old(mc.spaces)[c := mc.spaces[c]]
              && Extends(old(mc.owner), mc.owner, c)
              && Copies(mc.mem, old(mc.mem), old(mc.spaces)[p], mc.spaces[c], old(mc.pmm.FreeSet()))
              && |mc.spaces[c]| == |old(mc.spaces)[p]|
              && Backed(mc.mem, c, mc.spaces[c])
              && (SamePages(mc.mem, c, old(mc.mem), p) <==> Copyable(old(mc.mem), p, old(mc.spaces)[p]))
              && (Agrees(mc.mem, c, mc.spaces[c]) <==> DistinctPages(old(mc.spaces)[p]))
  {
    hide Inv, KernelShared, RecordsBounded, Pmm.FreeSet, Pmm.Sized, Partition, Leaf, UserPage, Copies, ChildMaps,
         LeavesSame, DataSame, Extends, SamePages, Copyable, Agrees, Backed, DistinctPages, PageOf, UserRecords, Planted, Bare, Virts, Cost;
    PagesUser(mc, p);
    c := mc.CreateSpace({});
    if c == 0 {
      Unchanged(mc.mem, mc.spaces, mc.owner, {}, p);
      CostsOne(mc.spaces[p]);
      return;
    }
    FirstPaid(mc, c, old(mc.spaces)[p], old(mc.pmm.FreeSet()));
    NewRoot(old(mc.owner), c);
    NoChild(mc.mem, c, old(mc.mem), p);
    OnlyTaken(old(mc.pmm.FreeSet()), old(mc.owner), mc.pmm.FreeSet(), mc.owner, mc.pool, c);
    var ok := CopyAll(mc, p, c, old(mc.mem), old(mc.spaces), old(mc.owner), old(mc.pmm.FreeSet()));
    if !ok || !restOk {
      Undo(mc, c, old(mc.mem), old(mc.spaces), old(mc.owner), old(mc.pmm.FreeSet()));
      c := 0;
    } else {
      SamePagesIff(mc.mem, c, mc.spaces[c], old(mc.mem), p, old(mc.spaces)[p], old(mc.pmm.FreeSet()));
      SameDistinct(mc.mem, old(mc.mem), old(mc.spaces)[p], mc.spaces[c], old(mc.pmm.FreeSet()));
      ChildAgreesIff(mc.mem, c, mc.spaces[c], old(mc.mem), p);
    }
  }

  lemma CostsOne(ps: seq<Mapping>)
    ensures 1 <= ForkCost(ps)
  {
  }

  lemma FirstPaid(mc: Machine, c: nat, ps: seq<Mapping>, free0: set<nat>)
    requires Bare(mc.mem, c) && c in free0 && mc.pmm.FreeSet() == free0 - {c}
    ensures Paid(mc, c, ps, 0, free0)
  {
    hide Bare, Planted, Pmm.FreeSet;
    assert Virts(ps[..0]) == {};
    PlantedNone(mc.mem, c);
  }

  lemma NoChild(m: Memory, c: nat, m0: Memory, p: nat)
    requires forall v :: UserPage(v) ==> Leaf(m, c, v) == ZERO_PTE
    ensures ChildMaps(m, c, m0, p, [])
  {
    hide Leaf, UserPage;
  }
}
