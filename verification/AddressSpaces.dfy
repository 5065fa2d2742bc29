/** Physical memory, the frame allocator and all address spaces together: mapping, unmapping,
    creating and destroying. */
module AddressSpaces {
  import opened Common
  import opened Frames
  import opened PageTable
  import opened Ownership

  /** Size of `umap[]`. */
  const MAX_UMAP: nat := 256

  /** First page number of the kernel half: 0x0000_8000_0000_0000 / 4096. */
  const USER_PAGES: nat := 0x8_0000_0000

  /** Every lookup of every space reads as before. */
  ghost predicate LeavesSame(m: Memory, m': Memory, sp: Spaces) {
    forall t, v :: t in sp && UserPage(v) ==> Leaf(m', t, v) == Leaf(m, t, v)
  }

  /** Only the lookup of page `v` in space `s` changed, to `e`. */
  ghost predicate LeafSet(m: Memory, m': Memory, sp: Spaces, s: nat, v: Page, e: Pte) {
    forall t, w :: t in sp && UserPage(w) ==> Leaf(m', t, w) == if t == s && w == v then e else Leaf(m, t, w)
  }

  /** Every data page of every space holds the bytes it held. */
  ghost predicate DataSame(m: Memory, m': Memory, ow: Owners) {
    |m'| == |m| && forall f {:trigger m'[f]} :: f in ow && ow[f].DataOf? && f < |m| ==> m'[f] == m[f]
  }

  /** Ownership is only added to, and only for space `s`. */
  ghost predicate Extends(ow: Owners, ow': Owners, s: nat) {
    && (forall f {:trigger ow[f]} {:trigger ow'[f]} :: f in ow ==> f in ow' && ow'[f] == ow[f])
    && (forall f {:trigger ow'[f]} :: f in ow' && f !in ow ==> ow'[f].space == s)
  }

  /** The kernel half of every PML4 is the kernel's own. */
  ghost predicate KernelShared(m: Memory, sp: Spaces, kroot: nat) {
    forall s, i {:trigger Entry(m, s, i)} :: s in sp && USER_TOP <= i < ENTRIES ==> Entry(m, s, i) == Entry(m, kroot, i)
  }

  /** Records fit in `umap[]` and lie in the user half. */
  ghost predicate RecordsBounded(sp: Spaces) {
    && (forall s :: s in sp ==> |sp[s]| <= MAX_UMAP)
    && (forall s, i {:trigger sp[s][i]} :: s in sp && 0 <= i < |sp[s]| ==> sp[s][i].virt < USER_PAGES)
  }

  class Machine {
    const pmm: Pmm
    const kroot: nat                // the kernel PML4
    ghost const pool: set<nat>      // the frames user spaces can ever have
    var mem: Memory
    var spaces: Spaces
    ghost var owner: Owners

    /** The machine after boot: no address space yet; frame 0 and the kernel PML4 are reserved. */
    constructor (allocator: Pmm, kernelRoot: nat, memory: Memory)
      requires allocator.Valid() && |memory| == allocator.total
      requires 0 !in allocator.FreeSet() && kernelRoot !in allocator.FreeSet() && kernelRoot < |memory| && IsTable(memory[kernelRoot])
      ensures pmm == allocator && kroot == kernelRoot && mem == memory && spaces == map[]
      ensures Ready() && pool == pmm.FreeSet()
    {
      pmm, kroot, mem := allocator, kernelRoot, memory;
      spaces, owner := map[], map[];
      pool := allocator.FreeSet();
    }

    /** `held` are frames taken from the allocator that nobody owns yet. */
    ghost predicate Valid(held: set<nat>)
      reads this, pmm, pmm.bitmap
    {
      && pmm.Valid() && |mem| == pmm.total
      && Inv(mem, spaces, owner)
      && KernelShared(mem, spaces, kroot) && RecordsBounded(spaces)
      && Partition(pmm.FreeSet(), owner.Keys, held, pool)
      && 0 !in pool && kroot !in pool && (forall f :: f in pool ==> f < |mem|)
      && kroot < |mem| && IsTable(mem[kroot])
    }

    ghost predicate Ready()
      reads this, pmm, pmm.bitmap
    {
      Valid({})
    }

    method AllocFrame(ghost held: set<nat>) returns (n: nat)
      requires Valid(held)
      modifies this, pmm, pmm.bitmap
      ensures mem == old(mem) && spaces == old(spaces) && owner == old(owner)
      ensures n == 0 ==> Valid(held) && pmm.FreeSet() == {} && old(pmm.FreeSet()) == {}
      ensures n != 0 ==>
                && n in old(pmm.FreeSet()) && n in pool && n < |mem| && n !in owner && n !in held
                && pmm.FreeSet() == old(pmm.FreeSet()) - {n}
                && Valid(held + {n})
    {
      hide Inv, KernelShared, RecordsBounded, Pmm.FreeSet, Pmm.Sized, Partition;
      n := pmm.AllocFrame();
      PartitionTake(old(pmm.FreeSet()), owner.Keys, held, pool, n);
    }

    method FreeFrame(n: nat, ghost held: set<nat>)
      requires Valid(held) && n in held
      modifies this, pmm, pmm.bitmap
      ensures mem == old(mem) && spaces == old(spaces) && owner == old(owner)
      ensures Valid(held - {n}) && pmm.FreeSet() == old(pmm.FreeSet()) + {n}
    {
      hide Inv, KernelShared, RecordsBounded, Pmm.FreeSet, Pmm.Sized, Partition;
      PartitionGive(pmm.FreeSet(), owner.Keys, held, pool, n);
      pmm.FreeFrame(n);
    }

    /** Makes sure entry `idx` of the table `f` points to a table; 0 when no frame is left. */
    method WalkOrCreate(s: nat, f: nat, ghost p: Path, idx: nat, flags: Flags, ghost held: set<nat>) returns (t: nat)
      requires Valid(held) && s in spaces && UserPath(Sub(p, idx)) && Node(mem, s, p) == Some(f)
      requires flags.present && !flags.huge
      modifies this, pmm, pmm.bitmap
      ensures Valid(held) && spaces == old(spaces)
      ensures t == 0 ==> mem == old(mem) && owner == old(owner) && pmm.FreeSet() == {} && old(pmm.FreeSet()) == {}
      ensures t != 0 ==> Node(mem, s, Sub(p, idx)) == Some(t)
      ensures t != 0 ==> GrewAt(old(mem), mem, s, {Sub(p, idx)})
      ensures old(Node(mem, s, Sub(p, idx))).Some? ==> t != 0 && mem == old(mem) && pmm.FreeSet() == old(pmm.FreeSet())
      ensures old(Node(mem, s, Sub(p, idx))).None? && t != 0 ==>
                t in old(pmm.FreeSet()) && pmm.FreeSet() == old(pmm.FreeSet()) - {t} && forall j :: Node(mem, s, Sub(Sub(p, idx), j)).None?
      ensures LeavesSame(old(mem), mem, spaces) && DataSame(old(mem), mem, old(owner)) && Extends(old(owner), owner, s)
      ensures HeldSame(old(mem), mem, held)
    {
      hide Inv, KernelShared, RecordsBounded, Pmm.FreeSet, Pmm.Sized, Partition, Leaf, LeavesSame, DataSame, Extends, HeldSame, GrewAt;
      PartitionWithin(pmm.FreeSet(), owner.Keys, held, pool);
      NodeFacts(mem, spaces, owner, s, p);
      assert idx < ENTRIES;
      var e := mem[f].entries[idx];
      if !e.flags.present {
        t := HangTable(s, f, p, idx, flags, held);
      } else {
        Unchanged(mem, spaces, owner, held, s);
        NodeFacts(mem, spaces, owner, s, Sub(p, idx));
        GrewNone(mem, s, {Sub(p, idx)});
        t := e.frame;
      }
    }

    method HangTable(s: nat, f: nat, ghost p: Path, idx: nat, flags: Flags, ghost held: set<nat>) returns (n: nat)
      requires Valid(held) && s in spaces && UserPath(Sub(p, idx)) && Node(mem, s, p) == Some(f)
      requires f < |mem| && IsTable(mem[f]) && f in owner && idx < ENTRIES && !mem[f].entries[idx].flags.present
      requires flags.present && !flags.huge
      modifies this, pmm, pmm.bitmap
      ensures Valid(held) && spaces == old(spaces)
      ensures n == 0 ==> mem == old(mem) && owner == old(owner) && pmm.FreeSet() == {} && old(pmm.FreeSet()) == {}
      ensures n != 0 ==> Node(mem, s, Sub(p, idx)) == Some(n)
      ensures n != 0 ==> GrewAt(old(mem), mem, s, {Sub(p, idx)})
      ensures n != 0 ==>
                n in old(pmm.FreeSet()) && pmm.FreeSet() == old(pmm.FreeSet()) - {n} && forall j :: Node(mem, s, Sub(Sub(p, idx), j)).None?
      ensures LeavesSame(old(mem), mem, spaces) && DataSame(old(mem), mem, old(owner)) && Extends(old(owner), owner, s)
      ensures HeldSame(old(mem), mem, held)
    {
      hide Inv, KernelShared, RecordsBounded, Pmm.FreeSet, Pmm.Sized, Partition, Leaf, LeavesSame, DataSame, Extends, HeldSame, Node,
           GrewAt;
      PartitionWithin(pmm.FreeSet(), owner.Keys, held, pool);
      n := AllocFrame(held);
      if n == 0 {
        Unchanged(mem, spaces, owner, held, s);
        return 0;
      }
      mem := mem[n := ZeroTable()];
      mem := mem[f := Table(mem[f].entries[idx := Pte(flags, n)])];
      PartitionApart(pmm.FreeSet(), owner.Keys, held + {n}, pool, f);
      TableHung(old(mem), mem, spaces, owner, kroot, s, p, idx, n, flags, held);
      PartitionOwn(pmm.FreeSet(), owner, held + {n}, pool, n, TableOf(s, Sub(p, idx)));
      owner := owner[n := TableOf(s, Sub(p, idx))];
      assert held + {n} - {n} == held;
      NothingBelow(mem, s, Sub(p, idx), n);
    }

    /** `vmm_map_page`: succeeds exactly when there are frames for the missing tables, and then
        exactly the lookup of `v` in `s` changes; out of memory, no lookup changes even though
        tables may have been added. */
    method MapPage(s: nat, v: Page, frame: nat, flags: Flags, ghost held: set<nat>) returns (ok: bool)
      requires Valid(held) && s in spaces && UserPage(v)
      modifies this, pmm, pmm.bitmap
      ensures Valid(held) && spaces == old(spaces)
      ensures ok <==> Missing(old(mem), s, v) <= |old(pmm.FreeSet())|
      ensures ok ==> |pmm.FreeSet()| == |old(pmm.FreeSet())| - Missing(old(mem), s, v)
      ensures ok ==> GrewAt(old(mem), mem, s, Way(v))
      ensures ok ==> LeafSet(old(mem), mem, spaces, s, v, Pte(flags, frame))
      ensures !ok ==> LeavesSame(old(mem), mem, spaces) && pmm.FreeSet() == {}
      ensures DataSame(old(mem), mem, old(owner)) && Extends(old(owner), owner, s) && HeldSame(old(mem), mem, held)
    {
      hide Inv, KernelShared, RecordsBounded, Pmm.FreeSet, Pmm.Sized, Partition, Leaf, LeavesSame, Extends, DataSame, HeldSame, GrewAt, Way;
      var tbl := Flags(true, true, flags.user, false, false);
      PtPathUser(v);
      ghost var p3 := Sub(Root, v.i4);
      ghost var p2 := Sub(p3, v.i3);
      var pdpt := WalkOrCreate(s, s, Root, v.i4, tbl, held);
      if pdpt == 0 {
        return false;
      }
      ghost var m1, ow1 := mem, owner;
      var pd := WalkOrCreate(s, pdpt, p3, v.i3, tbl, held);
      Chain(old(mem), m1, mem, spaces, old(owner), ow1, owner, s, held);
      if pd == 0 {
        return false;
      }
      ghost var m2, ow2 := mem, owner;
      var pt := WalkOrCreate(s, pd, p2, v.i2, tbl, held);
      Chain(old(mem), m2, mem, spaces, old(owner), ow2, owner, s, held);
      if pt == 0 {
        return false;
      }
      ghost var m3 := mem;
      SetEntry(s, v, pt, Pte(flags, frame), old(mem), old(owner), held);
      WaySteps(old(mem), m1, m2, m3, mem, s, v);
      return true;
    }

    /** The one store into a last-level table. */
    method SetEntry(s: nat, v: Page, pt: nat, e: Pte, ghost m0: Memory, ghost ow0: Owners, ghost held: set<nat>)
      requires Valid(held) && s in spaces && UserPage(v) && Node(mem, s, PtPath(v)) == Some(pt)
      requires LeavesSame(m0, mem, spaces) && DataSame(m0, mem, ow0) && Extends(ow0, owner, s) && HeldSame(m0, mem, held)
      modifies this`mem
      ensures Valid(held) && LeafSet(m0, mem, spaces, s, v, e) && GrewAt(old(mem), mem, s, {})
      ensures DataSame(m0, mem, ow0) && HeldSame(m0, mem, held)
    {
      hide Inv, KernelShared, RecordsBounded, Pmm.FreeSet, Pmm.Sized, Partition, Leaf;
      PtPathUser(v);
      NodeFacts(mem, spaces, owner, s, PtPath(v));
      PartitionWithin(pmm.FreeSet(), owner.Keys, held, pool);
      assert pt !in held by { PartitionApart(pmm.FreeSet(), owner.Keys, held, pool, pt); }
      ghost var m1 := mem;
      mem := mem[pt := Table(mem[pt].entries[v.i1 := e])];
      LeafWritten(m1, mem, spaces, owner, s, v, pt, e);
      assert NodesOwned(m1, spaces, owner) && NoHugePages(m1, spaces) by { InvParts(m1, spaces, owner); }
      LeafWrittenTree(m1, mem, spaces, owner, s, v, pt, e);
      EntryKeepsKernel(m1, mem, spaces, owner, kroot, s, PtPath(v), pt, v.i1, e);
    }

    /** `vmm_unmap_page`: clears the entry of `v` if it is present, and nothing else. */
    method UnmapPage(s: nat, v: Page, ghost held: set<nat>) returns (r: nat)
      requires Valid(held) && s in spaces && UserPage(v)
      modifies this`mem
      ensures Valid(held)
      ensures r == if Leaf(old(mem), s, v).flags.present then Leaf(old(mem), s, v).frame else 0
      ensures LeafSet(old(mem), mem, spaces, s, v, if Leaf(old(mem), s, v).flags.present then ZERO_PTE else Leaf(old(mem), s, v))
      ensures DataSame(old(mem), mem, owner) && HeldSame(old(mem), mem, held)
    {
      hide Inv, KernelShared, RecordsBounded, Pmm.FreeSet, Pmm.Sized, Partition, Leaf, Node;
      LeafWalk(mem, s, v);
      var e4 := Entry(mem, s, v.i4);
      if !e4.flags.present {
        return 0;
      }
      var e3 := Entry(mem, e4.frame, v.i3);
      if !e3.flags.present {
        return 0;
      }
      var e2 := Entry(mem, e3.frame, v.i2);
      if !e2.flags.present {
        return 0;
      }
      var e1 := Entry(mem, e2.frame, v.i1);
      if !e1.flags.present {
        return 0;
      }
      r := e1.frame;
      SetEntry(s, v, e2.frame, ZERO_PTE, mem, owner, held);
    }

    /** `address_space_create`: an empty lower half under the kernel's upper half; 0 when no
        frame is left. */
    method CreateSpace(ghost held: set<nat>) returns (s: nat)
      requires Valid(held)
      modifies this, pmm, pmm.bitmap
      ensures Valid(held)
      ensures s == 0 ==> mem == old(mem) && spaces == old(spaces) && owner == old(owner) && pmm.FreeSet() == old(pmm.FreeSet()) == {}
      ensures s != 0 ==>
                && s !in old(spaces) && s in old(pmm.FreeSet()) && s !in old(owner) && pmm.FreeSet() == old(pmm.FreeSet()) - {s}
                && spaces == old(spaces)[s := []] && owner == old(owner)[s := TableOf(s, Root)]
                && LeavesSame(old(mem), mem, old(spaces)) && (forall v :: UserPage(v) ==> Leaf(mem, s, v) == ZERO_PTE) && Bare(mem, s)
      ensures DataSame(old(mem), mem, old(owner)) && HeldSame(old(mem), mem, held)
    {
      hide Inv, KernelShared, RecordsBounded, Pmm.FreeSet, Pmm.Sized, Partition, Leaf, UserPage, Bare;
      var n := AllocFrame(held);
      if n == 0 {
        return 0;
      }
      var kernel := mem[kroot].entries;
      var entries := seq(ENTRIES, i requires 0 <= i < ENTRIES => if i < USER_TOP then ZERO_PTE else kernel[i]);
      mem := mem[n := Table(entries)];
      SpaceFresh(old(mem), spaces, owner, n);
      SpaceAdded(old(mem), mem, spaces, owner, n, entries);
      SpaceAddedKernel(old(mem), mem, spaces, owner, kroot, n, entries);
      assert Bare(mem, n) by { BareSpace(mem, n); }
      BoundedMore(spaces, n, []);
      PartitionOwn(pmm.FreeSet(), owner, held + {n}, pool, n, TableOf(n, Root));
      assert held + {n} - {n} == held;
      owner := owner[n := TableOf(n, Root)];
      spaces := spaces[n := []];
      s := n;
    }

    /** The page is in the user half and `umap[]` has room for it. */
    ghost predicate Room(s: nat, virt: nat)
      requires s in spaces
      reads this
    {
      virt < USER_PAGES && |spaces[s]| < MAX_UMAP
    }

    /** There is room, and frames for the page and the tables it lacks. */
    ghost predicate CanMap(s: nat, virt: nat)
      requires s in spaces
      reads this, pmm.bitmap
    {
      Room(s, virt) && Missing(mem, s, PageOf(virt)) < |pmm.FreeSet()|
    }

    /** `process_map_user`: the kernel half and a full `umap[]` are refused. */
    method MapUser(s: nat, virt: nat, frame: nat, flags: Flags, ghost held: set<nat>) returns (ok: bool)
      requires Valid(held) && s in spaces && frame in held && frame < |mem| && IsData(mem[frame])
      modifies this, pmm, pmm.bitmap
      ensures HeldSame(old(mem), mem, held) && DataSame(old(mem), mem, old(owner)) && Extends(old(owner), owner, s)
      ensures ok <==> old(Room(s, virt)) && Missing(old(mem), s, PageOf(virt)) <= |old(pmm.FreeSet())|
      ensures ok ==> |pmm.FreeSet()| == |old(pmm.FreeSet())| - Missing(old(mem), s, PageOf(virt)) && GrewAt(old(mem), mem, s, Way(PageOf(virt)))
      ensures ok ==>
                && Valid(held - {frame}) && spaces == old(spaces)[s := old(spaces)[s] + [Mapping(virt, frame)]]
                && LeafSet(old(mem), mem, old(spaces), s, PageOf(virt), Pte(flags.(present := true, user := true), frame))
      ensures !ok ==>
                Valid(held) && spaces == old(spaces) && LeavesSame(old(mem), mem, spaces)
    {
      hide Inv, KernelShared, RecordsBounded, Pmm.FreeSet, Pmm.Sized, Partition, Leaf, LeavesSame, LeafSet, DataSame, HeldSame, GrewAt, Way;
      if virt >= USER_PAGES || |spaces[s]| >= MAX_UMAP {
        Unchanged(mem, spaces, owner, held, s);
        return false;
      }
      PageRoundTrip(virt);
      ok := MapPage(s, PageOf(virt), frame, flags.(present := true, user := true), held);
      if !ok {
        return false;
      }
      HeldAt(old(mem), mem, held, frame);
      PartitionOwn(pmm.FreeSet(), owner, held, pool, frame, DataOf(s));
      RecordAdded(mem, spaces, owner, s, virt, frame);
      KernelSame(mem, spaces, spaces[s := spaces[s] + [Mapping(virt, frame)]], kroot);
      ExtendsMore(old(owner), owner, s, frame, DataOf(s));
      BoundedAppend(spaces, s, virt, frame);
      spaces := spaces[s := spaces[s] + [Mapping(virt, frame)]];
      owner := owner[frame := DataOf(s)];
    }

    /** `process_alloc_user_page`: a zeroed page, or nothing changes for any lookup. */
    method AllocUserPage(s: nat, virt: nat, flags: Flags) returns (ok: bool, ghost n: nat)
      requires Ready() && s in spaces
      modifies this, pmm, pmm.bitmap
      ensures Ready() && DataSame(old(mem), mem, old(owner)) && Extends(old(owner), owner, s)
      ensures ok <==> old(CanMap(s, virt))
      ensures ok ==> |pmm.FreeSet()| == |old(pmm.FreeSet())| - 1 - Missing(old(mem), s, PageOf(virt)) && GrewAt(old(mem), mem, s, Way(PageOf(virt)))
      ensures ok ==>
                && n in old(pmm.FreeSet()) && n < |mem| && mem[n] == ZeroData()
                && spaces == old(spaces)[s := old(spaces)[s] + [Mapping(virt, n)]]
                && LeafSet(old(mem), mem, old(spaces), s, PageOf(virt), Pte(flags.(present := true, user := true), n))
      ensures !ok ==> spaces == old(spaces) && LeavesSame(old(mem), mem, spaces)
      ensures pmm.FreeSet() <= old(pmm.FreeSet())
    {
      hide *;
      ok, n := AddPage(s, virt, flags, ZeroData());
    }

    /** A fresh frame filled with `d` is mapped at `virt`; on failure it goes back. */
    method AddPage(s: nat, virt: nat, flags: Flags, d: Frame) returns (ok: bool, ghost n: nat)
      requires Ready() && s in spaces && IsData(d)
      modifies this, pmm, pmm.bitmap
      ensures Ready() && DataSame(old(mem), mem, old(owner)) && Extends(old(owner), owner, s)
      ensures ok <==> old(CanMap(s, virt))
      ensures ok ==> |pmm.FreeSet()| == |old(pmm.FreeSet())| - 1 - Missing(old(mem), s, PageOf(virt)) && GrewAt(old(mem), mem, s, Way(PageOf(virt)))
      ensures ok ==>
                && n in old(pmm.FreeSet()) && n < |mem| && mem[n] == d
                && spaces == old(spaces)[s := old(spaces)[s] + [Mapping(virt, n)]]
                && LeafSet(old(mem), mem, old(spaces), s, PageOf(virt), Pte(flags.(present := true, user := true), n))
      ensures !ok ==> spaces == old(spaces) && LeavesSame(old(mem), mem, spaces)
      ensures pmm.FreeSet() <= old(pmm.FreeSet())
    {
      hide Inv, KernelShared, RecordsBounded, Pmm.FreeSet, Pmm.Sized, Partition, Leaf, LeavesSame, LeafSet, Extends, GrewAt, Way;
      var frame := AllocFrame({});
      n := frame;
      if frame == 0 {
        Unchanged(mem, spaces, owner, {}, s);
        return false, n;
      }
      mem := mem[frame := d];
      FrameWritten(old(mem), mem, spaces, owner, frame, d);
      FrameKeepsKernel(old(mem), mem, spaces, owner, kroot, frame, d);
      ghost var m1 := mem;
      assert {} + {frame} == {frame};
      LeavesSameFrom(old(mem), m1, spaces);
      MissingSame(old(mem), m1, spaces, owner, s, PageOf(virt), frame);
      ok := MapUser(s, virt, frame, flags, {frame});
      assert DataSame(old(mem), mem, old(owner)) by { DataSameTrans(old(mem), m1, mem, old(owner), frame); }
      if !ok {
        LeavesTrans(old(mem), m1, mem, spaces);
        FreeFrame(frame, {frame});
        assert {frame} - {frame} == {};
      } else {
        assert {frame} - {frame} == {};
        GrewTwice(old(mem), m1, mem, s, {}, Way(PageOf(virt)));
        assert {} + Way(PageOf(virt)) == Way(PageOf(virt));
        LeafSetTrans(old(mem), m1, mem, old(spaces), s, PageOf(virt), Pte(flags.(present := true, user := true), frame));
      }
      OnlyTaken(old(pmm.FreeSet()), old(owner), pmm.FreeSet(), owner, pool, s);
    }
  }

  /** The space has no table but its PML4. */
  ghost predicate Bare(m: Memory, s: nat) {
    forall q {:trigger Node(m, s, q)} :: UserPath(q) && q != Root ==> Node(m, s, q).None?
  }

  lemma BareSpace(m: Memory, s: nat)
    requires forall i :: 0 <= i < USER_TOP ==> !Entry(m, s, i).flags.present
    ensures Bare(m, s)
  {
    forall q | UserPath(q) && q != Root
      ensures Node(m, s, q).None?
    {
      BareBelow(m, s, q);
    }
  }

  lemma {:induction false} BareBelow(m: Memory, s: nat, q: Path)
    requires UserPath(q) && q != Root && forall i :: 0 <= i < USER_TOP ==> !Entry(m, s, i).flags.present
    ensures Node(m, s, q).None?
  {
    if q.parent != Root {
      BareBelow(m, s, q.parent);
    } else {
      assert Node(m, s, Root) == Some(s);
    }
  }

  /** The positions of the tables on the way to page `v`. */
  function Way(v: Page): set<Path> { {Sub(Root, v.i4), Sub(Sub(Root, v.i4), v.i3), PtPath(v)} }

  /** Tables of `s` sit where they sat, and at the positions `ps`. */
  ghost predicate GrewAt(m: Memory, m': Memory, s: nat, ps: set<Path>) {
    forall q {:trigger Node(m', s, q)} :: UserPath(q) ==> (Node(m', s, q).Some? <==> Node(m, s, q).Some? || q in ps)
  }

  lemma GrewTwice(m0: Memory, m1: Memory, m2: Memory, s: nat, ps: set<Path>, qs: set<Path>)
    requires GrewAt(m0, m1, s, ps) && GrewAt(m1, m2, s, qs)
    ensures GrewAt(m0, m2, s, ps + qs)
  {
    hide Node, UserPath;
    forall q | UserPath(q)
      ensures Node(m2, s, q).Some? <==> Node(m0, s, q).Some? || q in ps + qs
    {
      assert Node(m1, s, q).Some? <==> Node(m0, s, q).Some? || q in ps;
    }
  }

  lemma GrewNone(m: Memory, s: nat, ps: set<Path>)
    requires forall q :: q in ps && UserPath(q) ==> Node(m, s, q).Some?
    ensures GrewAt(m, m, s, ps)
  {
    hide Node, UserPath;
  }

  lemma WaySteps(m0: Memory, m1: Memory, m2: Memory, m3: Memory, m4: Memory, s: nat, v: Page)
    requires GrewAt(m0, m1, s, {Sub(Root, v.i4)}) && GrewAt(m1, m2, s, {Sub(Sub(Root, v.i4), v.i3)}) && GrewAt(m2, m3, s, {PtPath(v)})
    requires GrewAt(m3, m4, s, {})
    ensures GrewAt(m0, m4, s, Way(v))
  {
    hide GrewAt;
    GrewTwice(m0, m1, m2, s, {Sub(Root, v.i4)}, {Sub(Sub(Root, v.i4), v.i3)});
    GrewTwice(m0, m2, m3, s, {Sub(Root, v.i4)} + {Sub(Sub(Root, v.i4), v.i3)}, {PtPath(v)});
    GrewTwice(m0, m3, m4, s, {Sub(Root, v.i4)} + {Sub(Sub(Root, v.i4), v.i3)} + {PtPath(v)}, {});
    assert {Sub(Root, v.i4)} + {Sub(Sub(Root, v.i4), v.i3)} + {PtPath(v)} + {} == Way(v);
  }

  /** How many tables the walk to page `v` still lacks. */
  ghost function Missing(m: Memory, s: nat, v: Page): nat {
    if Node(m, s, Sub(Root, v.i4)).None? then 3
    else if Node(m, s, Sub(Sub(Root, v.i4), v.i3)).None? then 2
    else if Node(m, s, PtPath(v)).None? then 1
    else 0
  }

  lemma NothingBelow(m: Memory, s: nat, q: Path, n: nat)
    requires Node(m, s, q) == Some(n) && n < |m| && m[n] == ZeroTable()
    ensures forall j :: Node(m, s, Sub(q, j)).None?
  {
  }

  lemma MissingSame(m: Memory, m': Memory, sp: Spaces, ow: Owners, s: nat, v: Page, f: nat)
    requires Inv(m, sp, ow) && s in sp && |m'| == |m| && f !in ow && forall g :: 0 <= g < |m| && g != f ==> m'[g] == m[g]
    ensures UserPage(v) ==> Missing(m', s, v) == Missing(m, s, v)
    ensures GrewAt(m, m', s, {})
  {
    hide NoHuge, OwnersAreNodes, DataOwned, OwnersAreData, Node, UserPath, PtPath;
    Untouched(m, m', sp, ow, s, {f});
    if UserPage(v) {
      var p3 := Sub(Root, v.i4);
      var p2 := Sub(p3, v.i3);
      PtPathUser(v);
      PtPathParts(v);
    }
  }

  lemma PtPathParts(v: Page)
    ensures PtPath(v) == Sub(Sub(Sub(Root, v.i4), v.i3), v.i2)
  {
  }

  /** Frames in hand keep their contents. */
  ghost predicate HeldSame(m: Memory, m': Memory, held: set<nat>) {
    |m'| == |m| && forall f {:trigger m'[f]} :: f in held && f < |m| ==> m'[f] == m[f]
  }

  lemma Chain(m: Memory, m1: Memory, m2: Memory, sp: Spaces, ow: Owners, ow1: Owners, ow2: Owners, s: nat, held: set<nat>)
    requires LeavesSame(m, m1, sp) && LeavesSame(m1, m2, sp)
    requires DataSame(m, m1, ow) && DataSame(m1, m2, ow1) && HeldSame(m, m1, held) && HeldSame(m1, m2, held)
    requires Extends(ow, ow1, s) && Extends(ow1, ow2, s)
    ensures LeavesSame(m, m2, sp) && DataSame(m, m2, ow) && HeldSame(m, m2, held) && Extends(ow, ow2, s)
  {
    hide Leaf;
    forall f | f in ow && ow[f].DataOf? && f < |m|
      ensures m2[f] == m[f]
    {
      assert ow[f] == ow1[f] && m1[f] == m[f];
    }
    forall f | f in ow
      ensures f in ow2 && ow2[f] == ow[f]
    {
      assert ow[f] == ow1[f];
    }
    forall f | f in held && f < |m|
      ensures m2[f] == m[f]
    {
      assert m1[f] == m[f];
    }
    forall f | f in ow2 && f !in ow
      ensures ow2[f].space == s
    {
      if f in ow1 {
        assert ow1[f] == ow2[f];
      }
    }
  }

  lemma EntryKeepsKernel(m: Memory, m': Memory, sp: Spaces, ow: Owners, kroot: nat, s: nat, p: Path, f: nat, l: nat, e: Pte)
    requires Inv(m, sp, ow) && KernelShared(m, sp, kroot) && s in sp && UserPath(p) && p != Root && Node(m, s, p) == Some(f)
    requires kroot !in ow && f < |m| && IsTable(m[f]) && l < ENTRIES && m' == WithEntry(m, f, l, e)
    ensures KernelShared(m', sp, kroot)
  {
    hide NoHuge;
    assert ow[f] == TableOf(s, p);
    forall t, i | t in sp && USER_TOP <= i < ENTRIES
      ensures Entry(m', t, i) == Entry(m', kroot, i)
    {
      assert Node(m, t, Root) == Some(t);
      assert t in ow && ow[t] == TableOf(t, Root);
      assert Entry(m, t, i) == Entry(m, kroot, i);
    }
  }

  lemma PartitionApart(free: set<nat>, owned: set<nat>, held: set<nat>, pool: set<nat>, n: nat)
    requires Partition(free, owned, held, pool) && n in owned
    ensures n !in held && n !in free
  {
  }

  lemma Unchanged(m: Memory, sp: Spaces, ow: Owners, held: set<nat>, s: nat)
    ensures LeavesSame(m, m, sp) && DataSame(m, m, ow) && HeldSame(m, m, held) && Extends(ow, ow, s)
  {
  }

  lemma HeldAt(m: Memory, m': Memory, held: set<nat>, f: nat)
    requires HeldSame(m, m', held) && f in held && f < |m|
    ensures f < |m'| && m'[f] == m[f]
  {
  }

  lemma ExtendsMore(ow: Owners, ow1: Owners, s: nat, n: nat, o: Owner)
    requires Extends(ow, ow1, s) && n !in ow1 && o.space == s
    ensures Extends(ow, ow1[n := o], s)
  {
    forall f | f in ow
      ensures f in ow1[n := o] && ow1[n := o][f] == ow[f]
    {
      assert ow[f] == ow1[f];
    }
  }

  lemma LeavesSameFrom(m: Memory, m': Memory, sp: Spaces)
    requires forall t, v :: t in sp && UserPage(v) ==> Leaf(m', t, v) == Leaf(m, t, v)
    ensures LeavesSame(m, m', sp)
  {
    hide Leaf, UserPage;
  }

  lemma LeavesTrans(m: Memory, m1: Memory, m2: Memory, sp: Spaces)
    requires LeavesSame(m, m1, sp) && LeavesSame(m1, m2, sp)
    ensures LeavesSame(m, m2, sp)
  {
    hide Leaf, UserPage;
  }

  lemma LeafSetTrans(m: Memory, m1: Memory, m2: Memory, sp: Spaces, s: nat, v: Page, e: Pte)
    requires LeavesSame(m, m1, sp) && LeafSet(m1, m2, sp, s, v, e)
    ensures LeafSet(m, m2, sp, s, v, e)
  {
    hide Leaf, UserPage;
  }

  lemma DataSameTrans(m: Memory, m1: Memory, m2: Memory, ow: Owners, f: nat)
    requires |m1| == |m| && (forall g :: 0 <= g < |m| && g != f ==> m1[g] == m[g]) && f !in ow
    requires DataSame(m1, m2, ow)
    ensures DataSame(m, m2, ow)
  {
    forall g | g in ow && ow[g].DataOf? && g < |m|
      ensures m2[g] == m[g]
    {
      assert m1[g] == m[g];
    }
  }

  lemma KernelSame(m: Memory, sp: Spaces, sp': Spaces, kroot: nat)
    requires KernelShared(m, sp, kroot) && sp'.Keys <= sp.Keys
    ensures KernelShared(m, sp', kroot)
  {
  }

  lemma FrameKeepsKernel(m: Memory, m': Memory, sp: Spaces, ow: Owners, kroot: nat, f: nat, d: Frame)
    requires Inv(m, sp, ow) && KernelShared(m, sp, kroot) && f < |m| && f != kroot && m' == m[f := d]
    requires f in ow ==> ow[f].DataOf?
    ensures KernelShared(m', sp, kroot)
  {
    hide NoHuge;
    forall t, i | t in sp && USER_TOP <= i < ENTRIES
      ensures Entry(m', t, i) == Entry(m', kroot, i)
    {
      assert Node(m, t, Root) == Some(t);
      assert t in ow && ow[t] == TableOf(t, Root);
      assert Entry(m, t, i) == Entry(m, kroot, i);
    }
  }

  lemma BoundedMore(sp: Spaces, s: nat, umap: seq<Mapping>)
    requires RecordsBounded(sp) && |umap| <= MAX_UMAP && forall i :: 0 <= i < |umap| ==> umap[i].virt < USER_PAGES
    ensures RecordsBounded(sp[s := umap])
  {
  }

  lemma BoundedAppend(sp: Spaces, s: nat, virt: nat, f: nat)
    requires RecordsBounded(sp) && s in sp && |sp[s]| < MAX_UMAP && virt < USER_PAGES
    ensures RecordsBounded(sp[s := sp[s] + [Mapping(virt, f)]])
  {
    forall i | 0 <= i < |sp[s]|
      ensures (sp[s] + [Mapping(virt, f)])[i].virt < USER_PAGES
    {
      assert sp[s][i].virt < USER_PAGES;
    }
    BoundedMore(sp, s, sp[s] + [Mapping(virt, f)]);
  }

  lemma SpaceFresh(m: Memory, sp: Spaces, ow: Owners, n: nat)
    requires Inv(m, sp, ow) && n !in ow
    ensures n !in sp
  {
    forall t | t in sp
      ensures t in ow
    {
      assert Node(m, t, Root) == Some(t);
    }
  }

  lemma SpaceAddedKernel(m: Memory, m': Memory, sp: Spaces, ow: Owners, kroot: nat, n: nat, entries: seq<Pte>)
    requires Inv(m, sp, ow) && KernelShared(m, sp, kroot) && n < |m| && n !in ow && n != kroot && m' == m[n := Table(entries)]
    requires kroot < |m| && IsTable(m[kroot]) && |entries| == ENTRIES
    requires forall i :: USER_TOP <= i < ENTRIES ==> entries[i] == m[kroot].entries[i]
    ensures KernelShared(m', sp[n := []], kroot)
  {
    hide NoHuge;
    FrameKeepsKernel(m, m', sp, ow, kroot, n, Table(entries));
  }

  lemma NodeFacts(m: Memory, sp: Spaces, ow: Owners, s: nat, p: Path)
    requires Inv(m, sp, ow) && s in sp && UserPath(p) && Node(m, s, p).Some?
    ensures var f := Node(m, s, p).value; f in ow && ow[f] == TableOf(s, p) && f < |m| && IsTable(m[f])
  {
    hide NoHuge;
  }

  lemma TableHung(m: Memory, m': Memory, sp: Spaces, ow: Owners, kroot: nat, s: nat, p: Path, idx: nat, n: nat, flags: Flags, held: set<nat>)
    requires Inv(m, sp, ow) && KernelShared(m, sp, kroot) && s in sp && UserPath(Sub(p, idx)) && Node(m, s, p).Some?
    requires n < |m| && n !in ow && kroot !in ow && kroot != n && flags.present && !flags.huge
    requires var f := Node(m, s, p).value; f < |m| && IsTable(m[f]) && f != n && m' == WithTable(m, f, idx, n, flags) && !m[f].entries[idx].flags.present && f !in held && n !in held
    ensures DataSame(m, m', ow) && HeldSame(m, m', held) && Extends(ow, ow[n := TableOf(s, Sub(p, idx))], s)
    ensures Inv(m', sp, ow[n := TableOf(s, Sub(p, idx))]) && KernelShared(m', sp, kroot)
    ensures Node(m', s, Sub(p, idx)) == Some(n)
    ensures LeavesSame(m, m', sp) && GrewAt(m, m', s, {Sub(p, idx)})
  {
    hide Inv, KernelShared, RecordsBounded, Leaf, UserPage, GrewAt;
    AddedTable(m, m', sp, ow, s, p, idx, n, flags);
    TableKeepsKernel(m, m', sp, ow, kroot, s, p, idx, n, flags);
    assert NodesOwned(m, sp, ow) && NoHugePages(m, sp) by { InvParts(m, sp, ow); }
    AddedNode(m, sp, ow, s, p, idx, n, flags, Sub(p, idx));
    NodeFacts(m, sp, ow, s, p);
    HungGrew(m, m', sp, ow, s, p, idx, n, flags);
  }

  lemma HungGrew(m: Memory, m': Memory, sp: Spaces, ow: Owners, s: nat, p: Path, idx: nat, n: nat, flags: Flags)
    requires NodesOwned(m, sp, ow) && s in sp && UserPath(Sub(p, idx)) && Node(m, s, p).Some? && Node(m, s, Sub(p, idx)).None?
    requires n < |m| && n !in ow && flags.present
    requires var f := Node(m, s, p).value; f < |m| && IsTable(m[f]) && f != n && m' == WithTable(m, f, idx, n, flags)
    ensures GrewAt(m, m', s, {Sub(p, idx)})
  {
    hide Node, UserPath;
    forall q | UserPath(q)
      ensures Node(m', s, q).Some? <==> Node(m, s, q).Some? || q in {Sub(p, idx)}
    {
      AddedNode(m, sp, ow, s, p, idx, n, flags, q);
    }
  }

  lemma InvParts(m: Memory, sp: Spaces, ow: Owners)
    requires Inv(m, sp, ow)
    ensures NodesOwned(m, sp, ow) && OwnersAreNodes(m, sp, ow) && DataOwned(m, sp, ow) && OwnersAreData(sp, ow) && NoHugePages(m, sp)
  {
  }

  ghost predicate Partition(free: set<nat>, owned: set<nat>, held: set<nat>, pool: set<nat>) {
    free !! owned !! held && free + owned + held == pool
  }

  lemma PartitionWithin(free: set<nat>, owned: set<nat>, held: set<nat>, pool: set<nat>)
    requires Partition(free, owned, held, pool)
    ensures free <= pool && owned <= pool && held <= pool
  {
  }

  lemma PartitionTake(free: set<nat>, owned: set<nat>, held: set<nat>, pool: set<nat>, n: nat)
    requires Partition(free, owned, held, pool)
    ensures n in free ==> Partition(free - {n}, owned, held + {n}, pool) && n in pool && n !in owned && n !in held
  {
  }

  lemma PartitionGive(free: set<nat>, owned: set<nat>, held: set<nat>, pool: set<nat>, n: nat)
    requires Partition(free, owned, held, pool) && n in held
    ensures Partition(free + {n}, owned, held - {n}, pool) && n in pool && n !in owned && n !in free
  {
  }

  lemma PartitionOwn(free: set<nat>, ow: Owners, held: set<nat>, pool: set<nat>, n: nat, o: Owner)
    requires Partition(free, ow.Keys, held, pool) && n in held
    ensures Partition(free, ow[n := o].Keys, held - {n}, pool) && n in pool && n !in ow && n !in free
  {
    assert ow[n := o].Keys == ow.Keys + {n};
  }

  lemma OnlyTaken(free: set<nat>, ow: Owners, free': set<nat>, ow': Owners, pool: set<nat>, s: nat)
    requires Partition(free, ow.Keys, {}, pool) && Partition(free', ow'.Keys, {}, pool) && Extends(ow, ow', s)
    ensures free' <= free
  {
    forall f | f in ow
      ensures f in ow'
    {
      assert ow[f] == ow[f];
    }
  }

  lemma PartitionDisown(free: set<nat>, ow: Owners, held: set<nat>, pool: set<nat>, gone: set<nat>)
    requires Partition(free, ow.Keys, held, pool) && gone <= ow.Keys
    ensures Partition(free, (ow - gone).Keys, held + gone, pool)
  {
    assert (ow - gone).Keys == ow.Keys - gone;
  }

  lemma TableKeepsKernel(m: Memory, m': Memory, sp: Spaces, ow: Owners, kroot: nat, s: nat, p: Path, idx: nat, n: nat, flags: Flags)
    requires Inv(m, sp, ow) && KernelShared(m, sp, kroot) && s in sp && UserPath(Sub(p, idx)) && Node(m, s, p).Some?
    requires n < |m| && n !in ow && kroot !in ow && kroot != n
    requires var f := Node(m, s, p).value; f < |m| && IsTable(m[f]) && f != n && m' == WithTable(m, f, idx, n, flags)
    ensures KernelShared(m', sp, kroot)
  {
    hide NoHuge;
    var f := Node(m, s, p).value;
    assert ow[f] == TableOf(s, p);
    forall t, i | t in sp && USER_TOP <= i < ENTRIES
      ensures Entry(m', t, i) == Entry(m', kroot, i)
    {
      assert Node(m, t, Root) == Some(t);
      assert t in ow && ow[t] == TableOf(t, Root);
      assert Entry(m, t, i) == Entry(m, kroot, i);
    }
  }
}
