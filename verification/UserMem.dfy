/** Releasing user pages from an address on, and the life of a space from creation to
    destruction. */
module UserMem {
  import opened Common
  import opened Frames
  import opened PageTable
  import opened Ownership
  import opened AddressSpaces
  import opened Teardown
  import opened Records
  import opened Fork
  import MmapSearch

  /** The record is at or above `start` and below the stack. */
  predicate Covered(r: Mapping, start: nat) { start <= r.virt < MmapSearch.MMAP_TOP }

  ghost predicate AllCovered(rs: seq<Mapping>, start: nat) {
    forall r :: r in rs ==> Covered(r, start)
  }

  /** What has happened after the records `gone` were released. */
  ghost predicate Released(mc: Machine, s: nat, gone: seq<Mapping>, m0: Memory, sp0: Spaces, ow0: Owners, free0: set<nat>)
    reads mc, mc.pmm, mc.pmm.bitmap
  {
    && mc.Ready() && s in sp0 && s in mc.spaces && mc.spaces == sp0[s := mc.spaces[s]]
    && multiset(mc.spaces[s]) + multiset(gone) == multiset(sp0[s])
    && mc.pmm.FreeSet() == free0 + FrameSet(gone) && mc.owner == ow0 - FrameSet(gone)
    && Cleared(m0, mc.mem, sp0, s, gone)
    && DataSame(m0, mc.mem, mc.owner)
  }

  lemma SwapRemoveKeeps(u: seq<Mapping>, i: nat)
    requires i < |u|
    ensures multiset(SwapRemove(u, i)) + multiset{u[i]} == multiset(u)
    ensures SwapRemove(u, i)[..i] == u[..i] && |SwapRemove(u, i)| == |u| - 1
  {
    var n := |u| - 1;
    assert u == u[..n] + [u[n]];
    if i < n {
      var w := u[..n];
      assert SwapRemove(u, i) == w[i := u[n]];
      assert multiset(w[i := u[n]]) == multiset(w)[w[i] := multiset(w)[w[i]] - 1] + multiset{u[n]};
    } else {
      assert SwapRemove(u, i) == u[..n];
    }
  }

  /** Removes the record itself; its frame is now in hand. */
  method DropRecord(mc: Machine, s: nat, i: nat) returns (ghost r: Mapping)
    requires mc.Ready() && s in mc.spaces && i < |mc.spaces[s]|
    modifies mc`spaces, mc`owner
    ensures r == old(mc.spaces)[s][i]
    ensures mc.spaces == old(mc.spaces)[s := SwapRemove(old(mc.spaces)[s], i)] && mc.owner == old(mc.owner) - {r.frame}
    ensures mc.Valid({r.frame})
  {
    hide Inv, KernelShared, RecordsBounded, Pmm.FreeSet, Pmm.Sized, Partition, SwapRemove;
    r := mc.spaces[s][i];
    RecordOwned(mc.mem, mc.spaces, mc.owner, s, i);
    RecordRemoved(mc.mem, mc.spaces, mc.owner, s, i);
    KernelSame(mc.mem, mc.spaces, mc.spaces[s := SwapRemove(mc.spaces[s], i)], mc.kroot);
    BoundedRemove(mc.spaces, s, i);
    PartitionDisown(mc.pmm.FreeSet(), mc.owner, {}, mc.pool, {r.frame});
    assert {} + {r.frame} == {r.frame};
    mc.owner := mc.owner - {r.frame};
    mc.spaces := mc.spaces[s := SwapRemove(mc.spaces[s], i)];
  }

  lemma RecordOwned(m: Memory, sp: Spaces, ow: Owners, s: nat, i: nat)
    requires Inv(m, sp, ow) && s in sp && i < |sp[s]|
    ensures sp[s][i].frame in ow
  {
    hide NoHuge, NodesOwned, OwnersAreNodes, OwnersAreData;
  }

  lemma BoundedRemove(sp: Spaces, s: nat, i: nat)
    requires RecordsBounded(sp) && s in sp && i < |sp[s]|
    ensures RecordsBounded(sp[s := SwapRemove(sp[s], i)])
  {
    var r := SwapRemove(sp[s], i);
    forall j | 0 <= j < |r|
      ensures r[j].virt < USER_PAGES
    {
      RemovedAt(sp[s], i, j);
      assert sp[s][j].virt < USER_PAGES && sp[s][|sp[s]| - 1].virt < USER_PAGES;
    }
    BoundedMore(sp, s, r);
  }

  /** One covered record: unmap, free, remove. */
  method ReleaseRecord(mc: Machine, s: nat, i: nat, ghost gone: seq<Mapping>, ghost m0: Memory, ghost sp0: Spaces, ghost ow0: Owners, ghost free0: set<nat>)
    requires Released(mc, s, gone, m0, sp0, ow0, free0) && i < |mc.spaces[s]|
    modifies mc, mc.pmm, mc.pmm.bitmap
    ensures mc.spaces == old(mc.spaces)[s := SwapRemove(old(mc.spaces)[s], i)]
    ensures Released(mc, s, gone + [old(mc.spaces)[s][i]], m0, sp0, ow0, free0)
  {
    hide Inv, KernelShared, RecordsBounded, Pmm.FreeSet, Pmm.Sized, Partition, Leaf, UserPage, Cleared, DataSame, SwapRemove,
         FrameSet, PageOf, LeafSet;
    ghost var m1 := mc.mem;
    ghost var r := mc.spaces[s][i];
    var virt, frame := mc.spaces[s][i].virt, mc.spaces[s][i].frame;
    RecordInUser(mc, s, i);
    var _ := mc.UnmapPage(s, PageOf(virt), {});
    SwapRemoveKeeps(mc.spaces[s], i);
    ghost var r' := DropRecord(mc, s, i);
    mc.FreeFrame(frame, {frame});
    assert {frame} - {frame} == {};
    GoneMore(m0, m1, mc.mem, sp0, old(mc.spaces), s, gone, r, old(mc.owner), mc.owner);
  }

  lemma RecordInUser(mc: Machine, s: nat, i: nat)
    requires mc.Ready() && s in mc.spaces && i < |mc.spaces[s]|
    ensures UserPage(PageOf(mc.spaces[s][i].virt))
  {
    PageRoundTrip(mc.spaces[s][i].virt);
  }

  lemma GoneMore(m0: Memory, m1: Memory, m2: Memory, sp0: Spaces, sp1: Spaces, s: nat, gone: seq<Mapping>, r: Mapping, ow1: Owners, ow2: Owners)
    requires s in sp0 && sp1.Keys == sp0.Keys && Cleared(m0, m1, sp0, s, gone)
    requires LeafSet(m1, m2, sp1, s, PageOf(r.virt), if Leaf(m1, s, PageOf(r.virt)).flags.present then ZERO_PTE else Leaf(m1, s, PageOf(r.virt)))
    requires DataSame(m0, m1, ow1) && DataSame(m1, m2, ow1) && ow2 == ow1 - {r.frame}
    ensures Cleared(m0, m2, sp0, s, gone + [r])
    ensures DataSame(m0, m2, ow2)
    ensures FrameSet(gone + [r]) == FrameSet(gone) + {r.frame}
    ensures multiset(gone + [r]) == multiset(gone) + multiset{r}
  {
    hide Leaf, UserPage, PageOf;
    var all := gone + [r];
    assert all[..|gone|] == gone && all[..|gone| + 1] == all;
    MoreCleared(m0, m1, m2, sp0, s, all, |gone|);
    forall f | f in ow2 && ow2[f].DataOf? && f < |m0|
      ensures m2[f] == m0[f]
    {
      assert ow1[f] == ow2[f] && m1[f] == m0[f];
    }
    forall f | f in FrameSet(all)
      ensures f in FrameSet(gone) + {r.frame}
    {
      var j :| 0 <= j < |all| && all[j].frame == f;
      if j < |gone| {
        assert gone[j] == all[j];
      }
    }
    forall f | f in FrameSet(gone)
      ensures f in FrameSet(all)
    {
      var j :| 0 <= j < |gone| && gone[j].frame == f;
      assert all[j] == gone[j];
    }
    assert all[|gone|] == r;
  }

  /** `um_release_from`: exactly the records from `start` up to the stack go, their frames are
      free again, and nothing else changes. */
  method ReleaseFrom(mc: Machine, s: nat, start: nat) returns (ghost gone: seq<Mapping>)
    requires mc.Ready() && s in mc.spaces
    modifies mc, mc.pmm, mc.pmm.bitmap
    ensures Released(mc, s, gone, old(mc.mem), old(mc.spaces), old(mc.owner), old(mc.pmm.FreeSet()))
    ensures forall r :: r in gone <==> r in old(mc.spaces)[s] && Covered(r, start)
    ensures forall r :: r in mc.spaces[s] <==> r in old(mc.spaces)[s] && !Covered(r, start)
  {
    hide Inv, Pmm.FreeSet, Cleared, DataSame, Machine.Ready;
    ghost var sp0, m0, ow0, free0 := mc.spaces, mc.mem, mc.owner, mc.pmm.FreeSet();
    gone := [];
    NothingGone(mc.mem, mc.spaces, s, mc.owner);
    assert ow0 - FrameSet(gone) == ow0;
    var i := 0;
    while i < |mc.spaces[s]|
      invariant Released(mc, s, gone, m0, sp0, ow0, free0)
      invariant i <= |mc.spaces[s]| && forall j :: 0 <= j < i ==> !Covered(mc.spaces[s][j], start)
      invariant AllCovered(gone, start)
      decreases |mc.spaces[s]| - i
    {
      var r := mc.spaces[s][i];
      if start <= r.virt && r.virt < MmapSearch.MMAP_TOP {
        SwapRemoveKeeps(mc.spaces[s], i);
        ghost var before := mc.spaces[s];
        ReleaseRecord(mc, s, i, gone, m0, sp0, ow0, free0);
        gone := gone + [r];
        assert forall j :: 0 <= j < i ==> mc.spaces[s][j] == mc.spaces[s][..i][j];
        assert forall j :: 0 <= j < i ==> before[j] == before[..i][j];
      } else {
        i := i + 1;
      }
    }
    Separated(sp0[s], mc.spaces[s], gone, start);
  }

  lemma NothingGone(m: Memory, sp: Spaces, s: nat, ow: Owners)
    ensures Cleared(m, m, sp, s, []) && DataSame(m, m, ow) && FrameSet([]) == {}
  {
  }

  lemma Separated(all: seq<Mapping>, left: seq<Mapping>, gone: seq<Mapping>, start: nat)
    requires multiset(left) + multiset(gone) == multiset(all)
    requires AllCovered(gone, start) && forall j :: 0 <= j < |left| ==> !Covered(left[j], start)
    ensures forall r :: r in gone <==> r in all && Covered(r, start)
    ensures forall r :: r in left <==> r in all && !Covered(r, start)
  {
    forall r
      ensures r in all <==> r in left || r in gone
    {
      assert r in all <==> r in multiset(all);
      assert r in left <==> r in multiset(left);
      assert r in gone <==> r in multiset(gone);
    }
  }

  // -----------------------------------------------------------------------------
  // How many pages a search can meet

  /** The pages of a space as the search sees them. */
  ghost function PresentIn(m: Memory, s: nat): nat -> bool {
    (v: nat) => Leaf(m, s, PageOf(v)).flags.present
  }

  ghost function VirtSet(records: seq<Mapping>, n: nat): set<nat>
    requires n <= |records|
  {
    if n == 0 then {} else VirtSet(records, n - 1) + {records[n - 1].virt}
  }

  lemma {:induction false} VirtSetSize(records: seq<Mapping>, n: nat)
    requires n <= |records|
    ensures |VirtSet(records, n)| <= n && forall i :: 0 <= i < n ==> records[i].virt in VirtSet(records, n)
  {
    if n > 0 {
      VirtSetSize(records, n - 1);
    }
  }

  /** A space whose mapped pages are all recorded has no more pages than records. */
  lemma FewPages(m: Memory, sp: Spaces, s: nat, floor: nat)
    requires s in sp && RecordsBounded(sp) && Backed(m, s, sp[s])
    ensures |MmapSearch.Mapped(PresentIn(m, s), floor, MmapSearch.MMAP_TOP)| <= MAX_UMAP
  {
    hide Leaf, PageOf, PageNumber, UserPage;
    var records := sp[s];
    var pages := MmapSearch.Mapped(PresentIn(m, s), floor, MmapSearch.MMAP_TOP);
    VirtSetSize(records, |records|);
    forall v | v in pages
      ensures v in VirtSet(records, |records|)
    {
      PageRoundTrip(v);
      var i :| 0 <= i < |records| && PageOf(records[i].virt) == PageOf(v);
      PageRoundTrip(records[i].virt);
    }
    MmapSearch.Smaller(pages, VirtSet(records, |records|));
  }

  /** So for every process the search is right when the length does not exceed the rounded break or
      257 windows fit below the stack; with a table of 256 pages it can be wrong otherwise. */
  lemma ReserveInProcess(m: Memory, sp: Spaces, s: nat, n: nat, floor: nat)
    requires s in sp && RecordsBounded(sp) && Backed(m, s, sp[s]) && 0 < n && floor + n <= MmapSearch.MMAP_TOP
    requires n <= floor || (MAX_UMAP + 1) * n <= MmapSearch.MMAP_TOP
    ensures MmapSearch.Correct(PresentIn(m, s), n, floor, MmapSearch.Search(PresentIn(m, s), MmapSearch.MMAP_TOP - n, n, floor))
  {
    hide Backed, PresentIn, MmapSearch.Correct, MmapSearch.Search, RecordsBounded;
    FewPages(m, sp, s, floor);
    MmapSearch.ReserveCorrectIff(n, floor, MAX_UMAP);
  }

  /** Released frames were data frames of the space. */
  lemma GoneOwned(m: Memory, sp: Spaces, ow: Owners, c: nat, gone: seq<Mapping>)
    requires Inv(m, sp, ow) && c in sp && forall r :: r in gone ==> r in sp[c]
    ensures forall f :: f in FrameSet(gone) ==> f in ow && ow[f] == DataOf(c)
  {
    hide NoHuge, NodesOwned, OwnersAreNodes, OwnersAreData;
    forall f | f in FrameSet(gone)
      ensures f in ow && ow[f] == DataOf(c)
    {
      var i :| 0 <= i < |gone| && gone[i].frame == f;
      assert gone[i] in sp[c];
      var j :| 0 <= j < |sp[c]| && sp[c][j] == gone[i];
    }
  }
}
