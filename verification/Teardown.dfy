/** Giving memory back: releasing pages, destroying a whole user space. */
module Teardown {
  import opened Common
  import opened Frames
  import opened PageTable
  import opened Ownership
  import opened AddressSpaces

  ghost function FrameSet(records: seq<Mapping>): set<nat> {
    set i | 0 <= i < |records| :: records[i].frame
  }

  ghost predicate Distinct(records: seq<Mapping>) {
    forall i, j :: 0 <= i < j < |records| ==> records[i].frame != records[j].frame
  }

  /** Page `v` is one of the recorded pages. */
  ghost predicate Listed(records: seq<Mapping>, v: Page) {
    exists i :: 0 <= i < |records| && PageOf(records[i].virt) == v
  }

  /** In space `s` exactly the listed pages are gone; everything else reads as before. */
  ghost predicate Cleared(m: Memory, m': Memory, sp: Spaces, s: nat, records: seq<Mapping>) {
    forall t, v :: t in sp && UserPage(v) ==>
      if t == s && Listed(records, v) then !Leaf(m', t, v).flags.present else Leaf(m', t, v) == Leaf(m, t, v)
  }

  /** Unmaps every recorded page and frees its frame; `umap_count` is reset first here, which
      nothing reads in between. */
  method ReleaseAll(mc: Machine, s: nat)
    requires mc.Ready() && s in mc.spaces
    modifies mc, mc.pmm, mc.pmm.bitmap
    ensures mc.Ready() && mc.spaces == old(mc.spaces)[s := []]
    ensures mc.owner == old(mc.owner) - old(DataFramesOf(mc.owner, s))
    ensures mc.pmm.FreeSet() == old(mc.pmm.FreeSet()) + old(DataFramesOf(mc.owner, s))
    ensures Cleared(old(mc.mem), mc.mem, old(mc.spaces), s, old(mc.spaces)[s])
    ensures DataSame(old(mc.mem), mc.mem, mc.owner)
  {
    hide *;
    var records := TakeRecords(mc, s);
    ReleaseRecords(mc, s, records);
    ClearedKeys(old(mc.mem), mc.mem, old(mc.spaces), s, records);
  }

  /** Resets the record list of `s`; its frames are now in hand. */
  method TakeRecords(mc: Machine, s: nat) returns (records: seq<Mapping>)
    requires mc.Ready() && s in mc.spaces
    modifies mc
    ensures records == old(mc.spaces)[s] && FrameSet(records) == old(DataFramesOf(mc.owner, s))
    ensures Distinct(records) && forall i :: 0 <= i < |records| ==> records[i].virt < USER_PAGES
    ensures mc.Valid(FrameSet(records)) && mc.mem == old(mc.mem)
    ensures mc.spaces == old(mc.spaces)[s := []] && mc.owner == old(mc.owner) - FrameSet(records)
    ensures mc.pmm.FreeSet() == old(mc.pmm.FreeSet())
  {
    hide Inv, KernelShared, RecordsBounded, Pmm.FreeSet, Pmm.Sized, Partition, FrameSet, DataFramesOf, Distinct;
    records := mc.spaces[s];
    ghost var held := FrameSet(records);
    RecordFacts(mc.mem, mc.spaces, mc.owner, s);
    RecordsDropped(mc.mem, mc.spaces, mc.owner, s);
    KernelSame(mc.mem, mc.spaces, mc.spaces[s := []], mc.kroot);
    BoundedMore(mc.spaces, s, []);
    PartitionDisown(mc.pmm.FreeSet(), mc.owner, {}, mc.pool, held);
    assert {} + held == held;
    mc.spaces := mc.spaces[s := []];
    mc.owner := mc.owner - held;
  }

  method ReleaseRecords(mc: Machine, s: nat, records: seq<Mapping>)
    requires mc.Valid(FrameSet(records)) && s in mc.spaces && Distinct(records)
    requires forall i :: 0 <= i < |records| ==> records[i].virt < USER_PAGES
    modifies mc, mc.pmm, mc.pmm.bitmap
    ensures mc.Ready() && mc.spaces == old(mc.spaces) && mc.owner == old(mc.owner)
    ensures mc.pmm.FreeSet() == old(mc.pmm.FreeSet()) + FrameSet(records)
    ensures Cleared(old(mc.mem), mc.mem, mc.spaces, s, records)
    ensures DataSame(old(mc.mem), mc.mem, mc.owner)
  {
    hide Inv, KernelShared, RecordsBounded, Pmm.FreeSet, Pmm.Sized, Partition, Leaf, FrameSet, Cleared, DataSame, Distinct, Machine.Valid;
    StartCleared(mc.mem, mc.spaces, s, records, mc.owner);
    for i := 0 to |records|
      invariant mc.spaces == old(mc.spaces) && mc.owner == old(mc.owner)
      invariant mc.Valid(FrameSet(records[i..]))
      invariant mc.pmm.FreeSet() == old(mc.pmm.FreeSet()) + FrameSet(records[..i])
      invariant Cleared(old(mc.mem), mc.mem, mc.spaces, s, records[..i])
      invariant DataSame(old(mc.mem), mc.mem, mc.owner)
    {
      ghost var m1 := mc.mem;
      NextRecord(records, i);
      ReleaseOne(mc, s, records[i], FrameSet(records[i..]));
      MoreCleared(old(mc.mem), m1, mc.mem, mc.spaces, s, records, i);
      KeptOn(old(mc.mem), m1, mc.mem, mc.owner);
    }
    EndRecords(records);
    assert mc.Valid({});
    ReadyIs(mc);
  }

  lemma ReadyIs(mc: Machine)
    requires mc.Valid({})
    ensures mc.Ready()
  {
  }

  lemma EndRecords(records: seq<Mapping>)
    ensures records[..|records|] == records && FrameSet(records[|records|..]) == {}
  {
  }

  lemma ClearedKeys(m: Memory, m': Memory, sp: Spaces, s: nat, records: seq<Mapping>)
    requires Cleared(m, m', sp[s := []], s, records)
    ensures Cleared(m, m', sp, s, records)
  {
    hide Leaf, UserPage, Listed;
    forall t, v | t in sp && UserPage(v)
      ensures if t == s && Listed(records, v) then !Leaf(m', t, v).flags.present else Leaf(m', t, v) == Leaf(m, t, v)
    {
      assert t in sp[s := []];
    }
  }

  /** Unmap one page and free its frame. */
  method ReleaseOne(mc: Machine, s: nat, r: Mapping, ghost held: set<nat>)
    requires mc.Valid(held) && s in mc.spaces && r.virt < USER_PAGES && r.frame in held
    modifies mc, mc.pmm, mc.pmm.bitmap
    ensures mc.Valid(held - {r.frame}) && mc.spaces == old(mc.spaces) && mc.owner == old(mc.owner)
    ensures mc.pmm.FreeSet() == old(mc.pmm.FreeSet()) + {r.frame}
    ensures LeafSet(old(mc.mem), mc.mem, mc.spaces, s, PageOf(r.virt),
                    if Leaf(old(mc.mem), s, PageOf(r.virt)).flags.present then ZERO_PTE else Leaf(old(mc.mem), s, PageOf(r.virt)))
    ensures DataSame(old(mc.mem), mc.mem, mc.owner)
  {
    hide Inv, KernelShared, RecordsBounded, Pmm.FreeSet, Pmm.Sized, Partition, Leaf, LeafSet, DataSame;
    PageRoundTrip(r.virt);
    var _ := mc.UnmapPage(s, PageOf(r.virt), held);
    mc.FreeFrame(r.frame, held);
  }

  lemma RecordFacts(m: Memory, sp: Spaces, ow: Owners, s: nat)
    requires Inv(m, sp, ow) && RecordsBounded(sp) && s in sp
    ensures Distinct(sp[s]) && FrameSet(sp[s]) == DataFramesOf(ow, s) && FrameSet(sp[s]) <= ow.Keys
    ensures forall i :: 0 <= i < |sp[s]| ==> sp[s][i].virt < USER_PAGES && sp[s][i].frame in FrameSet(sp[s])
  {
    hide NoHuge;
    RecordsDropped(m, sp, ow, s);
  }

  lemma NextRecord(records: seq<Mapping>, i: nat)
    requires Distinct(records) && i < |records|
    ensures FrameSet(records[i + 1..]) == FrameSet(records[i..]) - {records[i].frame}
    ensures FrameSet(records[..i + 1]) == FrameSet(records[..i]) + {records[i].frame}
    ensures records[i].frame in FrameSet(records[i..])
  {
    var now, later := records[i..], records[i + 1..];
    assert now[0] == records[i];
    forall j | 0 <= j < |later|
      ensures later[j] == now[j + 1] && later[j].frame != records[i].frame
    {
    }
    assert FrameSet(later) == FrameSet(now) - {records[i].frame} by {
      forall f | f in FrameSet(now) - {records[i].frame}
        ensures f in FrameSet(later)
      {
        var j :| 0 <= j < |now| && now[j].frame == f;
        assert later[j - 1].frame == f;
      }
      forall f | f in FrameSet(later)
        ensures f in FrameSet(now)
      {
        var j :| 0 <= j < |later| && later[j].frame == f;
        assert now[j + 1].frame == f;
      }
    }
    var before, after := records[..i], records[..i + 1];
    assert forall j :: 0 <= j < i ==> after[j] == before[j];
    assert after[i] == records[i];
    forall f | f in FrameSet(after)
      ensures f in FrameSet(before) + {records[i].frame}
    {
      var j :| 0 <= j < |after| && after[j].frame == f;
      if j < i {
        assert before[j].frame == f;
      }
    }
  }

  lemma StartCleared(m: Memory, sp: Spaces, s: nat, records: seq<Mapping>, ow: Owners)
    ensures Cleared(m, m, sp, s, records[..0]) && DataSame(m, m, ow)
    ensures records[0..] == records && FrameSet(records[..0]) == {}
  {
  }

  lemma MoreCleared(m: Memory, m1: Memory, m2: Memory, sp: Spaces, s: nat, records: seq<Mapping>, i: nat)
    requires i < |records| && Cleared(m, m1, sp, s, records[..i]) && s in sp
    requires LeafSet(m1, m2, sp, s, PageOf(records[i].virt),
                     if Leaf(m1, s, PageOf(records[i].virt)).flags.present then ZERO_PTE else Leaf(m1, s, PageOf(records[i].virt)))
    ensures Cleared(m, m2, sp, s, records[..i + 1])
  {
    hide Leaf, UserPage;
    forall t, v | t in sp && UserPage(v)
      ensures if t == s && Listed(records[..i + 1], v) then !Leaf(m2, t, v).flags.present else Leaf(m2, t, v) == Leaf(m, t, v)
    {
      ListedNext(records, i, v);
    }
  }

  lemma ListedNext(records: seq<Mapping>, i: nat, v: Page)
    requires i < |records|
    ensures Listed(records[..i + 1], v) <==> Listed(records[..i], v) || PageOf(records[i].virt) == v
  {
    hide PageOf;
    var before, after := records[..i], records[..i + 1];
    if Listed(before, v) {
      var j :| 0 <= j < |before| && PageOf(before[j].virt) == v;
      assert after[j] == before[j];
    }
    if Listed(after, v) {
      var j :| 0 <= j < |after| && PageOf(after[j].virt) == v;
      if j < i {
        assert before[j] == after[j];
      }
    }
    assert after[i] == records[i];
  }

  lemma KeptOn(m: Memory, m1: Memory, m2: Memory, ow: Owners)
    requires DataSame(m, m1, ow) && DataSame(m1, m2, ow)
    ensures DataSame(m, m2, ow)
  {
    forall f | f in ow && ow[f].DataOf? && f < |m|
      ensures m2[f] == m[f]
    {
      assert m1[f] == m[f];
    }
  }

  // -----------------------------------------------------------------------------
  // Destroying a user space

  /** The table at `p` has been freed when the walk stands at PML4 entry `i`, PDPT entry `j`
      and PD entry `k`: last-level tables go first, each table after the tables below it. */
  predicate Before(p: Path, i: nat, j: nat, k: nat) {
    match p
    case Root => false
    case Sub(Root, a) => a < i
    case Sub(Sub(Root, a), b) => a < i || (a == i && b < j)
    case Sub(Sub(Sub(Root, a), b), c) => a < i || (a == i && (b < j || (b == j && c < k)))
    case _ => false
  }

  /** The frames of `s` still to be freed. */
  ghost function Remaining(ow: Owners, s: nat, i: nat, j: nat, k: nat): set<nat> {
    set f | f in ow && ow[f].space == s && !(ow[f].TableOf? && Before(ow[f].path, i, j, k))
  }

  /** What the walk may rely on: the trees as they were when it started, with the PML4
      entries from `i` on still in place. */
  ghost predicate Walking(m: Memory, m0: Memory, sp: Spaces, ow: Owners, s: nat, i: nat) {
    && Inv(m0, sp, ow) && s in sp && |m| == |m0|
    && (forall f :: f in ow && ow[f].space == s ==> ow[f].TableOf?)
    && (forall f {:trigger m[f]} :: f in ow && ow[f].space == s && f != s ==> f < |m0| && m[f] == m0[f])
    && s < |m| && IsTable(m[s]) && IsTable(m0[s])
    && (forall a :: i <= a < USER_TOP ==> m[s].entries[a] == m0[s].entries[a])
  }

  /** Moving the walk past the position `p` alone. */
  ghost predicate Passes(p: Path, i: nat, j: nat, k: nat, i': nat, j': nat, k': nat) {
    && !Before(p, i, j, k)
    && forall q :: UserPath(q) ==> (Before(q, i', j', k') <==> Before(q, i, j, k) || q == p)
  }

  lemma NextFreed(m0: Memory, sp: Spaces, ow: Owners, s: nat, p: Path, i: nat, j: nat, k: nat, i': nat, j': nat, k': nat)
    requires Inv(m0, sp, ow) && s in sp && UserPath(p) && Passes(p, i, j, k, i', j', k')
    ensures Node(m0, s, p).Some? ==>
              && Node(m0, s, p).value in Remaining(ow, s, i, j, k)
              && Remaining(ow, s, i', j', k') == Remaining(ow, s, i, j, k) - {Node(m0, s, p).value}
    ensures Node(m0, s, p).None? ==> Remaining(ow, s, i', j', k') == Remaining(ow, s, i, j, k)
  {
    hide NoHuge, Before, Node;
    forall f | f in ow && ow[f].space == s && ow[f].TableOf?
      ensures UserPath(ow[f].path) && Node(m0, s, ow[f].path) == Some(f)
    {
    }
    if Node(m0, s, p).Some? {
      assert ow[Node(m0, s, p).value] == TableOf(s, p);
    }
  }

  lemma PassesPt(i: nat, j: nat, k: nat)
    ensures Passes(Sub(Sub(Sub(Root, i), j), k), i, j, k, i, j, k + 1)
  {
  }

  lemma PassesPd(i: nat, j: nat)
    ensures Passes(Sub(Sub(Root, i), j), i, j, ENTRIES, i, j + 1, 0)
  {
  }

  lemma PassesPdpt(i: nat)
    ensures Passes(Sub(Root, i), i, ENTRIES, 0, i + 1, 0, 0)
  {
    forall q | UserPath(q)
      ensures Before(q, i + 1, 0, 0) <==> Before(q, i, ENTRIES, 0) || q == Sub(Root, i)
    {
      match q
      case Sub(Sub(Sub(Root, a), b), c) => assert UserPath(q.parent) && b < ENTRIES;
      case _ =>
    }
  }

  lemma ParentThere(m: Memory, s: nat, q: Path)
    requires Node(m, s, q).Some?
    ensures q.Sub? ==> Node(m, s, q.parent).Some?
  {
  }

  /** An absent entry has no tables below it. */
  lemma NoneBelow(m0: Memory, sp: Spaces, ow: Owners, s: nat, i: nat, j: nat)
    requires Inv(m0, sp, ow) && s in sp && Node(m0, s, Sub(Sub(Root, i), j)).None?
    ensures Remaining(ow, s, i, j + 1, 0) == Remaining(ow, s, i, j, 0)
  {
    hide NoHuge;
    forall f | f in ow && ow[f].space == s && ow[f].TableOf?
      ensures Before(ow[f].path, i, j + 1, 0) <==> Before(ow[f].path, i, j, 0)
    {
      var q := ow[f].path;
      assert Node(m0, s, q) == Some(f);
      ParentThere(m0, s, q);
    }
  }

  lemma NoneUnder(m0: Memory, sp: Spaces, ow: Owners, s: nat, i: nat)
    requires Inv(m0, sp, ow) && s in sp && Node(m0, s, Sub(Root, i)).None?
    ensures Remaining(ow, s, i + 1, 0, 0) == Remaining(ow, s, i, 0, 0)
  {
    hide NoHuge;
    forall f | f in ow && ow[f].space == s && ow[f].TableOf?
      ensures Before(ow[f].path, i + 1, 0, 0) <==> Before(ow[f].path, i, 0, 0)
    {
      var q := ow[f].path;
      assert Node(m0, s, q) == Some(f);
      ParentThere(m0, s, q);
      if q.Sub? {
        ParentThere(m0, s, q.parent);
      }
    }
  }

  /** The three step facts of the walk: an absent entry leaves nothing to free, a present one
      leads to a frame that is next in line. */
  lemma PtStep(m0: Memory, sp: Spaces, ow: Owners, s: nat, i: nat, j: nat, k: nat, pd: nat)
    requires Inv(m0, sp, ow) && s in sp && i < USER_TOP && j < ENTRIES && k < ENTRIES
    requires Node(m0, s, Sub(Sub(Root, i), j)) == Some(pd)
    ensures
      var e := Entry(m0, pd, k);
      if e.flags.present then
        e.frame in Remaining(ow, s, i, j, k) && Remaining(ow, s, i, j, k + 1) == Remaining(ow, s, i, j, k) - {e.frame}
      else
        Remaining(ow, s, i, j, k + 1) == Remaining(ow, s, i, j, k)
  {
    var p := Sub(Sub(Sub(Root, i), j), k);
    assert UserPath(Sub(Root, i)) && UserPath(Sub(Sub(Root, i), j)) && UserPath(p);
    PassesPt(i, j, k);
    NextFreed(m0, sp, ow, s, p, i, j, k, i, j, k + 1);
  }

  lemma PdStep(m0: Memory, sp: Spaces, ow: Owners, s: nat, i: nat, j: nat, pdpt: nat)
    requires Inv(m0, sp, ow) && s in sp && i < USER_TOP && j < ENTRIES
    requires Node(m0, s, Sub(Root, i)) == Some(pdpt)
    ensures
      var e := Entry(m0, pdpt, j);
      if e.flags.present then
        e.frame in Remaining(ow, s, i, j, ENTRIES) && Remaining(ow, s, i, j + 1, 0) == Remaining(ow, s, i, j, ENTRIES) - {e.frame}
      else
        Remaining(ow, s, i, j + 1, 0) == Remaining(ow, s, i, j, 0)
  {
    var p := Sub(Sub(Root, i), j);
    assert UserPath(Sub(Root, i)) && UserPath(p);
    if Entry(m0, pdpt, j).flags.present {
      PassesPd(i, j);
      NextFreed(m0, sp, ow, s, p, i, j, ENTRIES, i, j + 1, 0);
    } else {
      NoneBelow(m0, sp, ow, s, i, j);
    }
  }

  lemma PdptStep(m0: Memory, sp: Spaces, ow: Owners, s: nat, i: nat)
    requires Inv(m0, sp, ow) && s in sp && i < USER_TOP
    ensures
      var e := Entry(m0, s, i);
      if e.flags.present then
        e.frame in Remaining(ow, s, i, ENTRIES, 0) && Remaining(ow, s, i + 1, 0, 0) == Remaining(ow, s, i, ENTRIES, 0) - {e.frame}
      else
        Remaining(ow, s, i + 1, 0, 0) == Remaining(ow, s, i, 0, 0)
  {
    var p := Sub(Root, i);
    TwoLevels(i, 0);
    if Entry(m0, s, i).flags.present {
      PassesPdpt(i);
      NextFreed(m0, sp, ow, s, p, i, ENTRIES, 0, i + 1, 0, 0);
    } else {
      NoneUnder(m0, sp, ow, s, i);
    }
  }

  lemma TwoLevels(i: nat, j: nat)
    requires i < USER_TOP && j < ENTRIES
    ensures UserPath(Sub(Root, i)) && UserPath(Sub(Sub(Root, i), j))
  {
    assert Depth(Root) == 0 && UserPath(Root);
    assert UserPath(Sub(Root, i)) && Depth(Sub(Root, i)) == 1;
  }

  /** Frees the last-level tables below one page directory. */
  method FreePts(mc: Machine, s: nat, i: nat, j: nat, pd: nat, ghost m0: Memory, ghost sp: Spaces, ghost ow: Owners)
    requires i < USER_TOP && j < ENTRIES && Walking(mc.mem, m0, sp, ow, s, i)
    requires Node(m0, s, Sub(Sub(Root, i), j)) == Some(pd)
    requires mc.Valid(Remaining(ow, s, i, j, 0))
    modifies mc, mc.pmm, mc.pmm.bitmap
    ensures mc.mem == old(mc.mem) && mc.spaces == old(mc.spaces) && mc.owner == old(mc.owner)
    ensures mc.Valid(Remaining(ow, s, i, j, ENTRIES))
  {
    hide Inv, Machine.Valid, Remaining, Node;
    TwoLevels(i, j);
    for k := 0 to ENTRIES
      invariant mc.mem == old(mc.mem) && mc.spaces == old(mc.spaces) && mc.owner == old(mc.owner)
      invariant mc.Valid(Remaining(ow, s, i, j, k))
    {
      PtStep(m0, sp, ow, s, i, j, k, pd);
      TableIntact(mc.mem, m0, sp, ow, s, i, Sub(Sub(Root, i), j), pd);
      var e := Entry(mc.mem, pd, k);
      if e.flags.present {
        mc.FreeFrame(e.frame, Remaining(ow, s, i, j, k));
      }
    }
  }

  /** Frees everything below one page-directory-pointer table. */
  method FreePds(mc: Machine, s: nat, i: nat, pdpt: nat, ghost m0: Memory, ghost sp: Spaces, ghost ow: Owners)
    requires i < USER_TOP && Walking(mc.mem, m0, sp, ow, s, i)
    requires Node(m0, s, Sub(Root, i)) == Some(pdpt)
    requires mc.Valid(Remaining(ow, s, i, 0, 0))
    modifies mc, mc.pmm, mc.pmm.bitmap
    ensures mc.mem == old(mc.mem) && mc.spaces == old(mc.spaces) && mc.owner == old(mc.owner)
    ensures mc.Valid(Remaining(ow, s, i, ENTRIES, 0))
  {
    hide Inv, Machine.Valid, Remaining;
    for j := 0 to ENTRIES
      invariant mc.mem == old(mc.mem) && mc.spaces == old(mc.spaces) && mc.owner == old(mc.owner)
      invariant mc.Valid(Remaining(ow, s, i, j, 0))
    {
      PdStep(m0, sp, ow, s, i, j, pdpt);
      TableIntact(mc.mem, m0, sp, ow, s, i, Sub(Root, i), pdpt);
      var e := Entry(mc.mem, pdpt, j);
      if e.flags.present {
        FreePts(mc, s, i, j, e.frame, m0, sp, ow);
        mc.FreeFrame(e.frame, Remaining(ow, s, i, j, ENTRIES));
      }
    }
  }

  lemma TableIntact(m: Memory, m0: Memory, sp: Spaces, ow: Owners, s: nat, i: nat, p: Path, f: nat)
    requires Walking(m, m0, sp, ow, s, i) && UserPath(p) && p != Root && Node(m0, s, p) == Some(f)
    ensures forall a :: Entry(m, f, a) == Entry(m0, f, a)
  {
    hide NoHuge;
    assert ow[f] == TableOf(s, p);
    assert Node(m0, s, Root) == Some(s);
    assert ow[s] == TableOf(s, Root);
    assert m[f] == m0[f];
  }

  /** Ghost bookkeeping of `cr3 = 0`: the space is gone and its frames are in hand. */
  method ForgetSpace(mc: Machine, s: nat)
    requires mc.Ready() && s in mc.spaces
    modifies mc`spaces, mc`owner
    ensures mc.spaces == old(mc.spaces) - {s} && mc.owner == old(mc.owner) - FramesOf(old(mc.owner), s)
    ensures mc.Valid(FramesOf(old(mc.owner), s))
  {
    hide Inv, KernelShared, RecordsBounded, Pmm.FreeSet, Pmm.Sized, Partition, Leaf, UserPage;
    ghost var gone := FramesOf(mc.owner, s);
    SpaceDropped(mc.mem, mc.mem, mc.spaces, mc.owner, s);
    KernelSame(mc.mem, mc.spaces, mc.spaces - {s}, mc.kroot);
    BoundedLess(mc.spaces, s);
    PartitionDisown(mc.pmm.FreeSet(), mc.owner, {}, mc.pool, gone);
    assert {} + gone == gone;
    mc.spaces := mc.spaces - {s};
    mc.owner := mc.owner - gone;
  }

  lemma BoundedLess(sp: Spaces, s: nat)
    requires RecordsBounded(sp)
    ensures RecordsBounded(sp - {s})
  {
    var sp': Spaces := sp - {s};
    forall t, i | t in sp' && 0 <= i < |sp'[t]|
      ensures sp'[t][i].virt < USER_PAGES
    {
      assert sp'[t][i] == sp[t][i];
    }
  }

  /** Clears one entry of the PML4 that is being torn down. */
  method ClearTop(mc: Machine, s: nat, i: nat, ghost held: set<nat>, ghost m0: Memory, ghost sp: Spaces, ghost ow: Owners)
    requires mc.Valid(held) && s in held && i < USER_TOP && Walking(mc.mem, m0, sp, ow, s, i)
    modifies mc`mem
    ensures mc.Valid(held) && Walking(mc.mem, m0, sp, ow, s, i + 1)
    ensures LeavesSame(old(mc.mem), mc.mem, mc.spaces)
    ensures |mc.mem| == |old(mc.mem)| && forall f {:trigger mc.mem[f]} :: 0 <= f < |mc.mem| && f != s ==> mc.mem[f] == old(mc.mem)[f]
  {
    hide Inv, KernelShared, RecordsBounded, Pmm.FreeSet, Pmm.Sized, Partition, Leaf, UserPage, Walking;
    PartitionHeld(mc.pmm.FreeSet(), mc.owner.Keys, held, mc.pool, s);
    WalkingCleared(mc.mem, m0, sp, ow, s, i);
    ghost var m1 := mc.mem;
    ghost var d := Table(m1[s].entries[i := ZERO_PTE]);
    FrameWritten(m1, m1[s := d], mc.spaces, mc.owner, s, d);
    FrameKeepsKernel(m1, m1[s := d], mc.spaces, mc.owner, mc.kroot, s, d);
    mc.mem := mc.mem[s := Table(mc.mem[s].entries[i := ZERO_PTE])];
  }

  lemma PartitionHeld(free: set<nat>, owned: set<nat>, held: set<nat>, pool: set<nat>, n: nat)
    requires Partition(free, owned, held, pool) && n in held
    ensures n !in owned && n !in free && n in pool
  {
  }

  /** `process_destroy_user_space`: frees exactly what the space owned, and no other space
      notices. */
  method DestroySpace(mc: Machine, s: nat)
    requires mc.Ready() && s in mc.spaces
    modifies mc, mc.pmm, mc.pmm.bitmap
    ensures mc.Ready() && mc.spaces == old(mc.spaces) - {s}
    ensures mc.owner == old(mc.owner) - old(FramesOf(mc.owner, s))
    ensures mc.pmm.FreeSet() == old(mc.pmm.FreeSet()) + old(FramesOf(mc.owner, s))
    ensures LeavesSame(old(mc.mem), mc.mem, mc.spaces) && DataSame(old(mc.mem), mc.mem, mc.owner)
  {
    hide Inv, KernelShared, RecordsBounded, Pmm.FreeSet, Pmm.Sized, Leaf, UserPage, Partition, Cleared;
    ReleaseAll(mc, s);
    AfterRelease(old(mc.mem), mc.mem, old(mc.spaces), old(mc.owner), s);
    ghost var m0, sp, ow := mc.mem, mc.spaces, mc.owner;
    ForgetSpace(mc, s);
    FreeTables(mc, s, m0, sp, ow);
    Restored(old(mc.pmm.FreeSet()), old(mc.owner), mc.pmm.FreeSet(), mc.pool, s);
    DestroyedViews(old(mc.mem), m0, mc.mem, mc.spaces, mc.owner);
  }

  lemma DestroyedViews(m: Memory, m1: Memory, m2: Memory, sp: Spaces, ow: Owners)
    requires LeavesSame(m, m1, sp) && LeavesSame(m1, m2, sp) && DataSame(m, m1, ow) && DataSame(m1, m2, ow)
    ensures LeavesSame(m, m2, sp) && DataSame(m, m2, ow)
  {
    hide Leaf, UserPage;
    LeavesTrans(m, m1, m2, sp);
    KeptOn(m, m1, m2, ow);
  }

  lemma AfterRelease(m: Memory, m1: Memory, sp: Spaces, ow: Owners, s: nat)
    requires s in sp && Cleared(m, m1, sp, s, sp[s])
    requires DataSame(m, m1, ow - DataFramesOf(ow, s))
    ensures LeavesSame(m, m1, sp[s := []] - {s})
    ensures DataSame(m, m1, ow - DataFramesOf(ow, s) - FramesOf(ow - DataFramesOf(ow, s), s))
    ensures ow - DataFramesOf(ow, s) - FramesOf(ow - DataFramesOf(ow, s), s) == ow - FramesOf(ow, s)
    ensures sp[s := []] - {s} == sp - {s}
    ensures forall f :: f in ow - DataFramesOf(ow, s) && (ow - DataFramesOf(ow, s))[f].space == s ==> (ow - DataFramesOf(ow, s))[f].TableOf?
  {
    hide Leaf, UserPage;
    var ow1: Owners := ow - DataFramesOf(ow, s);
    var ow2: Owners := ow1 - FramesOf(ow1, s);
    forall f | f in ow2 && ow2[f].DataOf? && f < |m|
      ensures m1[f] == m[f]
    {
      assert ow1[f] == ow2[f];
    }
    forall f | f in ow1 && ow1[f].space == s
      ensures ow1[f].TableOf?
    {
      assert ow[f] == ow1[f];
    }
  }

  lemma Restored(free: set<nat>, ow: Owners, free': set<nat>, pool: set<nat>, s: nat)
    requires Partition(free, ow.Keys, {}, pool) && Partition(free', (ow - FramesOf(ow, s)).Keys, {}, pool)
    ensures free' == free + FramesOf(ow, s)
  {
    assert (ow - FramesOf(ow, s)).Keys == ow.Keys - FramesOf(ow, s);
  }

  /** The triple walk over the lower half, then the PML4 itself. */
  method FreeTables(mc: Machine, s: nat, ghost m0: Memory, ghost sp: Spaces, ghost ow: Owners)
    requires mc.mem == m0 && Inv(m0, sp, ow) && s in sp
    requires forall f :: f in ow && ow[f].space == s ==> ow[f].TableOf?
    requires mc.Valid(FramesOf(ow, s)) && mc.owner == ow - FramesOf(ow, s)
    modifies mc, mc.pmm, mc.pmm.bitmap
    ensures mc.Ready() && mc.spaces == old(mc.spaces) && mc.owner == old(mc.owner)
    ensures LeavesSame(m0, mc.mem, mc.spaces) && DataSame(m0, mc.mem, mc.owner)
  {
    hide Inv, Machine.Valid, Remaining, LeavesSame, Leaf, UserPage, Walking, DataSame;
    StartWalk(m0, sp, ow, s);
    Unchanged(m0, mc.spaces, mc.owner, {}, s);
    for i := 0 to USER_TOP
      invariant mc.Valid(Remaining(ow, s, i, 0, 0)) && Walking(mc.mem, m0, sp, ow, s, i)
      invariant mc.spaces == old(mc.spaces) && mc.owner == old(mc.owner)
      invariant LeavesSame(m0, mc.mem, mc.spaces)
      invariant |mc.mem| == |m0| && forall f {:trigger mc.mem[f]} :: 0 <= f < |m0| && f != s ==> mc.mem[f] == m0[f]
    {
      PdptStep(m0, sp, ow, s, i);
      WalkingOn(mc.mem, m0, sp, ow, s, i);
      var e := Entry(mc.mem, s, i);
      if e.flags.present {
        FreePds(mc, s, i, e.frame, m0, sp, ow);
        mc.FreeFrame(e.frame, Remaining(ow, s, i, ENTRIES, 0));
        RootRemains(m0, sp, ow, s, i + 1);
        ghost var m1 := mc.mem;
        ClearTop(mc, s, i, Remaining(ow, s, i + 1, 0, 0), m0, sp, ow);
        LeavesTrans(m0, m1, mc.mem, mc.spaces);
      }
    }
    OnlyRoot(m0, sp, ow, s);
    mc.FreeFrame(s, Remaining(ow, s, USER_TOP, 0, 0));
    assert {s} - {s} == {};
    ReadyIs(mc);
    DataUntouched(m0, mc.mem, mc.owner, s);
  }

  lemma DataUntouched(m: Memory, m': Memory, ow: Owners, s: nat)
    requires |m'| == |m| && s !in ow && forall f {:trigger m'[f]} :: 0 <= f < |m| && f != s ==> m'[f] == m[f]
    ensures DataSame(m, m', ow)
  {
  }

  lemma StartWalk(m0: Memory, sp: Spaces, ow: Owners, s: nat)
    requires Inv(m0, sp, ow) && s in sp
    requires forall f :: f in ow && ow[f].space == s ==> ow[f].TableOf?
    ensures Walking(m0, m0, sp, ow, s, 0) && Remaining(ow, s, 0, 0, 0) == FramesOf(ow, s) && s in FramesOf(ow, s)
  {
    hide NoHuge;
    assert Node(m0, s, Root) == Some(s);
    assert ow[s] == TableOf(s, Root);
    forall f | f in ow && ow[f].space == s
      ensures !Before(ow[f].path, 0, 0, 0)
    {
      AllBefore(ow[f].path);
    }
  }

  lemma RootRemains(m0: Memory, sp: Spaces, ow: Owners, s: nat, i: nat)
    requires Inv(m0, sp, ow) && s in sp
    ensures s in Remaining(ow, s, i, 0, 0)
  {
    hide NoHuge;
    assert Node(m0, s, Root) == Some(s);
  }

  lemma OnlyRoot(m0: Memory, sp: Spaces, ow: Owners, s: nat)
    requires Inv(m0, sp, ow) && s in sp
    requires forall f :: f in ow && ow[f].space == s ==> ow[f].TableOf?
    ensures Remaining(ow, s, USER_TOP, 0, 0) == {s}
  {
    hide NoHuge;
    RootRemains(m0, sp, ow, s, USER_TOP);
    forall f | f in Remaining(ow, s, USER_TOP, 0, 0)
      ensures f == s
    {
      assert Node(m0, s, ow[f].path) == Some(f);
      AllBefore(ow[f].path);
    }
  }

  lemma DepthThree(p: Path, a: nat, b: nat, c: nat)
    ensures Depth(Sub(Sub(Sub(p, a), b), c)) >= 3
  {
    assert Depth(Sub(p, a)) >= 1;
    assert Depth(Sub(Sub(p, a), b)) >= 2;
  }

  lemma AllBefore(q: Path)
    requires UserPath(q)
    ensures q == Root || Before(q, USER_TOP, 0, 0)
    ensures !Before(q, 0, 0, 0)
  {
    match q
    case Root =>
    case Sub(Root, a) =>
    case Sub(Sub(Root, a), b) => assert UserPath(q.parent);
    case Sub(Sub(Sub(Root, a), b), c) => assert UserPath(q.parent) && UserPath(q.parent.parent);
    case Sub(Sub(Sub(Sub(p, a), b), c), d) => DepthThree(p, a, b, c);
  }

  lemma WalkingOn(m: Memory, m0: Memory, sp: Spaces, ow: Owners, s: nat, i: nat)
    requires Walking(m, m0, sp, ow, s, i)
    ensures Walking(m, m0, sp, ow, s, i + 1)
    ensures s < |m| && IsTable(m[s]) && (i < USER_TOP ==> Entry(m, s, i) == Entry(m0, s, i))
  {
    hide NoHuge;
  }

  lemma WalkingCleared(m: Memory, m0: Memory, sp: Spaces, ow: Owners, s: nat, i: nat)
    requires Walking(m, m0, sp, ow, s, i) && i < USER_TOP
    ensures s < |m| && IsTable(m[s])
    ensures Walking(m[s := Table(m[s].entries[i := ZERO_PTE])], m0, sp, ow, s, i + 1)
  {
    hide NoHuge;
  }
}
