/** Many address spaces over whole runs: creation, mapping, brk, mmap, munmap, fork, copies, exec,
    exit and destruction in any order. */
module MemoryRuns {
  import opened Common
  import opened Frames
  import opened PageTable
  import opened Ownership
  import opened AddressSpaces
  import opened Teardown
  import opened Records
  import opened Fork
  import opened UserBytes
  import opened ElfImage
  import ElfLoad
  import opened UserCalls
  import UserCopy
  import UserMem
  import opened Effects
  import Exec

  /** Every table of every space sits in a frame of its own, in use. */
  ghost predicate TablesApart(m: Memory, sp: Spaces, free: set<nat>) {
    && (forall s, p {:trigger Node(m, s, p)} :: s in sp && UserPath(p) && Node(m, s, p).Some? ==>
          Node(m, s, p).value !in free && Node(m, s, p).value != 0)
    && (forall s, p, t, q {:trigger Node(m, s, p), Node(m, t, q)} ::
          s in sp && t in sp && UserPath(p) && UserPath(q) && Node(m, s, p).Some? && Node(m, s, p) == Node(m, t, q) ==> s == t && p == q)
  }

  /** Every recorded page of every space sits in a frame of its own, in use, and no table's. */
  ghost predicate PagesApart(m: Memory, sp: Spaces, free: set<nat>) {
    && (forall s, i {:trigger sp[s][i]} :: s in sp && 0 <= i < |sp[s]| ==> sp[s][i].frame !in free && sp[s][i].frame != 0)
    && (forall s, i, t, j {:trigger sp[s][i], sp[t][j]} ::
          s in sp && t in sp && 0 <= i < |sp[s]| && 0 <= j < |sp[t]| && sp[s][i].frame == sp[t][j].frame ==> s == t && i == j)
    && (forall s, i, t, q {:trigger sp[s][i], Node(m, t, q)} ::
          s in sp && t in sp && 0 <= i < |sp[s]| && UserPath(q) && Node(m, t, q).Some? ==> Node(m, t, q).value != sp[s][i].frame)
  }

  /** The PML4s, tables and pages of all spaces are pairwise distinct frames, all marked in use. */
  lemma FramesDistinct(mc: Machine)
    requires mc.Ready()
    ensures TablesApart(mc.mem, mc.spaces, mc.pmm.FreeSet()) && PagesApart(mc.mem, mc.spaces, mc.pmm.FreeSet())
  {
    hide NoHuge, KernelShared, RecordsBounded, Pmm.FreeSet, Pmm.Sized, OwnersAreNodes, OwnersAreData;
    var m: Memory, sp: Spaces, ow: Owners := mc.mem, mc.spaces, mc.owner;
    forall f | f in ow
      ensures f !in mc.pmm.FreeSet() && f != 0
    {
      assert f in mc.pool;
    }
    forall s, i, t, j | s in sp && t in sp && 0 <= i < |sp[s]| && 0 <= j < |sp[t]| && sp[s][i].frame == sp[t][j].frame
      ensures s == t && i == j
    {
      assert ow[sp[s][i].frame] == DataOf(s) && ow[sp[t][j].frame] == DataOf(t);
    }
    forall s, i, t, q | s in sp && t in sp && 0 <= i < |sp[s]| && UserPath(q) && Node(m, t, q).Some?
      ensures Node(m, t, q).value != sp[s][i].frame
    {
      assert ow[sp[s][i].frame] == DataOf(s) && ow[Node(m, t, q).value] == TableOf(t, q);
    }
  }

  // -----------------------------------------------------------------------------
  // Isolation

  lemma PagesSame(m: Memory, m': Memory, sp: Spaces, ow: Owners, t: nat)
    requires Inv(m, sp, ow) && t in sp && Backed(m, t, sp[t]) && forall v :: UserPage(v) ==> Leaf(m', t, v) == Leaf(m, t, v)
    requires |m'| == |m| && forall f {:trigger m'[f]} :: f in ow && ow[f] == DataOf(t) && f < |m| ==> m'[f] == m[f]
    ensures BytesSame(m, m', t)
  {
    hide Leaf, PageOf, UserPage, Inv, Backed;
    BackedPrivate(m, sp, ow, t);
    forall a: nat | a < USER_BYTES
      ensures ByteAt(m', t, a) == ByteAt(m, t, a)
    {
      UserAddress(a);
      var v := PageOf(a / FRAME_BYTES);
      assert Leaf(m', t, v) == Leaf(m, t, v);
      if Leaf(m, t, v).flags.present {
        assert m'[Leaf(m, t, v).frame] == m[Leaf(m, t, v).frame];
      }
    }
  }

  /** Space `t` owns the same frames for the same purposes. */
  ghost predicate Holds(ow: Owners, ow': Owners, t: nat) {
    && (forall f {:trigger ow[f]} :: f in ow && ow[f].space == t ==> f in ow' && ow'[f] == ow[f])
    && (forall f {:trigger ow'[f]} :: f in ow' && ow'[f].space == t ==> f in ow && ow[f] == ow'[f])
  }

  lemma TablesStay(m: Memory, m': Memory, sp: Spaces, sp': Spaces, ow: Owners, ow': Owners, t: nat)
    requires Inv(m, sp, ow) && Inv(m', sp', ow') && t in sp && t in sp' && Holds(ow, ow', t)
    ensures TablesSame(m, m', t)
  {
    hide DataOwned, OwnersAreData, NoHugePages, UserPath;
    forall p | UserPath(p)
      ensures Node(m', t, p) == Node(m, t, p)
    {
      if Node(m, t, p).Some? {
        assert ow[Node(m, t, p).value] == TableOf(t, p);
      }
      if Node(m', t, p).Some? {
        assert ow'[Node(m', t, p).value] == TableOf(t, p);
      }
    }
  }

  lemma KeptHolds(m: Memory, m': Memory, ow: Owners, ow': Owners, s: nat)
    requires OthersKept(m, m', ow, ow', s)
    ensures forall t :: t != s ==> Holds(ow, ow', t)
  {
  }

  lemma MoreHolds(sp: Spaces, ow: Owners, ow': Owners, c: nat)
    requires c !in sp && Extends(ow, ow', c)
    ensures forall t :: t in sp ==> Holds(ow, ow', t)
  {
  }

  lemma RootHolds(sp: Spaces, ow: Owners, ow': Owners, c: nat)
    requires ow' == ow || (c !in sp && c !in ow && ow' == ow[c := TableOf(c, Root)])
    ensures forall t :: t in sp ==> Holds(ow, ow', t)
  {
  }

  lemma SameHolds(ow: Owners)
    ensures forall t :: Holds(ow, ow, t)
  {
  }

  lemma SwapHolds(sp: Spaces, ow: Owners, ow': Owners, s: nat, c: nat)
    requires c !in sp && Exec.Handover(ow, ow', s, c)
    ensures forall t :: t in sp && t != s ==> Holds(ow, ow', t)
  {
  }

  /** A step that keeps the frames and lookups of all spaces but `s` disturbs only `s`. */
  lemma SparedBut(m: Memory, m': Memory, sp: Spaces, sp': Spaces, ow: Owners, ow': Owners, s: nat)
    requires Inv(m, sp, ow) && Inv(m', sp', ow') && AllBacked(m, sp) && LeavesSame(m, m', sp - {s})
    requires |m'| == |m| && forall f {:trigger m'[f]} :: f in ow && ow[f].DataOf? && ow[f].space != s && f < |m| ==> m'[f] == m[f]
    requires forall t :: t in sp && t != s ==> Holds(ow, ow', t)
    requires forall t :: t in sp && t != s ==> t in sp' && sp'[t] == sp[t]
    ensures Spared(m, sp, m', sp', Some(s))
  {
    hide Leaf, PageOf, UserPage, Inv, Backed, BytesSame, TablesSame, Holds;
    forall t | t in sp && t != s
      ensures Undisturbed(m, sp, m', sp', t)
    {
      assert t in sp - {s};
      TablesStay(m, m', sp, sp', ow, ow', t);
      PagesSame(m, m', sp, ow, t);
    }
  }

  lemma SparedKept(m: Memory, m': Memory, sp: Spaces, sp': Spaces, ow: Owners, ow': Owners, s: nat)
    requires Inv(m, sp, ow) && Inv(m', sp', ow') && AllBacked(m, sp) && LeavesSame(m, m', sp - {s}) && OthersKept(m, m', ow, ow', s)
    requires forall t :: t in sp && t != s ==> t in sp' && sp'[t] == sp[t]
    ensures Spared(m, sp, m', sp', Some(s))
  {
    hide Inv, AllBacked, LeavesSame, Holds, Spared;
    KeptHolds(m, m', ow, ow', s);
    SparedBut(m, m', sp, sp', ow, ow', s);
  }

  lemma SparedAll(m: Memory, m': Memory, sp: Spaces, sp': Spaces, ow: Owners, ow': Owners)
    requires Inv(m, sp, ow) && Inv(m', sp', ow') && AllBacked(m, sp) && LeavesSame(m, m', sp) && DataSame(m, m', ow)
    requires forall t :: t in sp ==> Holds(ow, ow', t)
    requires forall t :: t in sp ==> t in sp' && sp'[t] == sp[t]
    ensures Spared(m, sp, m', sp', None)
  {
    hide Leaf, PageOf, UserPage, Inv, Backed, BytesSame, TablesSame, Holds;
    forall t | t in sp
      ensures Undisturbed(m, sp, m', sp', t)
    {
      TablesStay(m, m', sp, sp', ow, ow', t);
      PagesSame(m, m', sp, ow, t);
    }
  }

  lemma SparedFewer(m: Memory, sp: Spaces, m': Memory, sp': Spaces, s: nat)
    requires Spared(m, sp, m', sp', None)
    ensures Spared(m, sp, m', sp', Some(s))
  {
    hide Undisturbed;
  }

  // -----------------------------------------------------------------------------
  // Steps

  ghost function Now(mc: Machine): State
    reads mc, mc.pmm, mc.pmm.bitmap
  {
    State(mc.mem, mc.spaces, mc.pmm.FreeSet())
  }

  method CreateStep(mc: Machine)
    requires Good(mc)
    modifies mc, mc.pmm, mc.pmm.bitmap
    ensures Good(mc)
    ensures AllAgree(old(mc.mem), old(mc.spaces)) ==> AllAgree(mc.mem, mc.spaces)
    ensures Spared(old(mc.mem), old(mc.spaces), mc.mem, mc.spaces, None)
    ensures Created(old(Now(mc)), Now(mc))
  {
    hide Inv, KernelShared, RecordsBounded, Pmm.FreeSet, Pmm.Sized, Partition, Leaf, UserPage, LeavesSame, DataSame, Agrees, Backed,
         AllAgree, Holds, Spared;
    ghost var m, sp, ow := mc.mem, mc.spaces, mc.owner;
    var c := mc.CreateSpace({});
    SameLeaves(m, sp);
    Parts(mc);
    assert forall t :: t in sp ==> Holds(ow, mc.owner, t) by { RootHolds(sp, ow, mc.owner, c); }
    SparedAll(m, mc.mem, sp, mc.spaces, ow, mc.owner);
    assert c != 0 ==> NewSpace(old(Now(mc)), Now(mc), c);
    if c != 0 {
      EmptySpace(mc.mem, c);
      Fewer(m, mc.mem, sp, c);
      AddedGood(m, mc.mem, sp, mc.spaces, c);
    }
  }

  lemma SameLeaves(m: Memory, sp: Spaces)
    ensures LeavesSame(m, m, sp)
  {
  }

  lemma EmptySpace(m: Memory, c: nat)
    requires forall v :: UserPage(v) ==> !Leaf(m, c, v).flags.present
    ensures Agrees(m, c, []) && Backed(m, c, [])
  {
    hide Leaf, UserPage;
  }

  /** A new space next to the old ones. */
  lemma AddedGood(m: Memory, m': Memory, sp: Spaces, sp': Spaces, c: nat)
    requires AllBacked(m, sp) && RecordsBounded(sp) && LeavesSame(m, m', sp - {c}) && c in sp' && sp' == sp[c := sp'[c]]
    requires Backed(m', c, sp'[c])
    ensures AllBacked(m', sp')
    ensures AllAgree(m, sp) ==> (AllAgree(m', sp') <==> Agrees(m', c, sp'[c]))
  {
    hide Agrees, Backed, RecordsBounded, LeavesSame;
    OthersBacked(m, m', sp, sp', c);
    if AllAgree(m, sp) {
      OthersAgree(m, m', sp, sp', c);
    }
  }

  lemma SameGood(m: Memory, m': Memory, sp: Spaces)
    requires AllBacked(m, sp) && RecordsBounded(sp) && LeavesSame(m, m', sp)
    ensures AllBacked(m', sp) && (AllAgree(m, sp) ==> AllAgree(m', sp))
  {
    hide Leaf, UserPage, PageOf, Agrees, Backed, RecordsBounded, UserRecords;
    forall s | s in sp
      ensures Backed(m', s, sp[s]) && (Agrees(m, s, sp[s]) ==> Agrees(m', s, sp[s]))
    {
      BoundedUser(sp, s);
      SameViews(m, m', s, sp[s]);
    }
  }

  method ForkStep(mc: Machine, s: nat, restOk: bool)
    requires Good(mc) && s in mc.spaces
    modifies mc, mc.pmm, mc.pmm.bitmap
    ensures Good(mc)
    ensures AllAgree(old(mc.mem), old(mc.spaces)) ==> AllAgree(mc.mem, mc.spaces)
    ensures Spared(old(mc.mem), old(mc.spaces), mc.mem, mc.spaces, None)
    ensures Forked(old(Now(mc)), Now(mc), s, restOk)
  {
    hide RecordsBounded, Pmm.FreeSet, DataSame, Agrees, Backed, AllAgree, AllBacked, Machine.Ready, Inv, Leaf, UserPage, LeavesSame,
         Extends, Copies, SamePages, Copyable, DistinctPages, Spared;
    ghost var m, sp := mc.mem, mc.spaces;
    Parts(mc);
    var c := ForkSpace(mc, s, restOk);
    Parts(mc);
    if c == 0 {
      SameHolds(mc.owner);
    } else {
      MoreHolds(sp, old(mc.owner), mc.owner, c);
    }
    SparedAll(m, mc.mem, sp, mc.spaces, old(mc.owner), mc.owner);
    assert c != 0 ==> Child(old(Now(mc)), Now(mc), s, c);
    if c == 0 {
      SameGood(m, mc.mem, sp);
    } else {
      Fewer(m, mc.mem, sp, c);
      AddedGood(m, mc.mem, sp, mc.spaces, c);
      assert AllAgree(m, sp) ==> DistinctPages(sp[s]) by { AgreesDistinct(m, sp, s); }
    }
  }

  lemma AgreesDistinct(m: Memory, sp: Spaces, s: nat)
    requires s in sp
    ensures AllAgree(m, sp) ==> DistinctPages(sp[s])
  {
    hide Leaf, UserPage, PageOf, DistinctPages, Listed;
    assert Agrees(m, s, sp[s]) ==> DistinctPages(sp[s]);
  }

  method CopyToStep(mc: Machine, s: nat, dst: nat, data: seq<byte>)
    requires Good(mc) && s in mc.spaces
    modifies mc`mem
    ensures Good(mc)
    ensures AllAgree(old(mc.mem), old(mc.spaces)) ==> AllAgree(mc.mem, mc.spaces)
    ensures Spared(old(mc.mem), old(mc.spaces), mc.mem, mc.spaces, Some(s))
    ensures Written(old(Now(mc)), Now(mc), s, dst, data)
  {
    hide RecordsBounded, Pmm.FreeSet, Agrees, Backed, AllAgree, Machine.Ready, Inv, Leaf, UserPage, LeavesSame, BytesSet, OthersData,
         Private, UserCopy.RangeOk, BytesSame, Spared, Holds, OthersKept, DataSame;
    ghost var m, sp := mc.mem, mc.spaces;
    Parts(mc);
    NothingDone(m, sp, mc.owner, s);
    if dst >= WORD || |data| >= WORD {
      return;
    }
    BackedPrivate(m, sp, mc.owner, s);
    var ok := UserCopy.CopyToUser(mc, s, dst, data);
    if ok {
      SameGood(m, mc.mem, sp);
      KeptOthers(m, mc.mem, mc.owner, s);
      Fewer(m, mc.mem, sp, s);
      Parts(mc);
      SparedKept(m, mc.mem, sp, sp, mc.owner, mc.owner, s);
    }
  }

  lemma KeptOthers(m: Memory, m': Memory, ow: Owners, s: nat)
    requires OthersData(m, m', ow, s)
    ensures OthersKept(m, m', ow, ow, s)
  {
  }

  lemma NothingDone(m: Memory, sp: Spaces, ow: Owners, s: nat)
    requires Inv(m, sp, ow) && AllBacked(m, sp)
    ensures Spared(m, sp, m, sp, Some(s))
  {
    hide Inv, AllBacked;
    SameLeaves(m, sp);
    SameHolds(ow);
    SparedAll(m, m, sp, sp, ow, ow);
    SparedFewer(m, sp, m, sp, s);
  }

  method CopyFromStep(mc: Machine, s: nat, src: nat, len: nat)
    requires Good(mc) && s in mc.spaces
  {
    hide RecordsBounded, Pmm.FreeSet, Agrees, Backed, Machine.Ready, Inv, Leaf, UserPage, Private, UserCopy.RangeOk, UserCopy.Holds;
    if src >= WORD || len >= WORD {
      return;
    }
    Parts(mc);
    BackedPrivate(mc.mem, mc.spaces, mc.owner, s);
    var buffer := new byte[len];
    var _ := UserCopy.CopyFromUser(mc, s, buffer, src, len);
  }

  /** The release of pages at process exit; tables stay until the process is reaped. */
  method ExitStep(mc: Machine, s: nat)
    requires Good(mc) && s in mc.spaces
    modifies mc, mc.pmm, mc.pmm.bitmap
    ensures Good(mc)
    ensures AllAgree(old(mc.mem), old(mc.spaces)) ==> AllAgree(mc.mem, mc.spaces)
    ensures Spared(old(mc.mem), old(mc.spaces), mc.mem, mc.spaces, Some(s))
    ensures Exited(old(Now(mc)), Now(mc), s)
  {
    hide RecordsBounded, Pmm.FreeSet, Cleared, DataSame, Agrees, Backed, AllAgree, AllBacked, Machine.Ready, Inv, DataFramesOf,
         LeavesSame, Spared, Holds, OthersKept;
    ghost var m, sp := mc.mem, mc.spaces;
    Parts(mc);
    BackedHere(m, sp, s);
    ReleaseAll(mc, s);
    NoneLeft(m, mc.mem, sp, s);
    assert DataFramesOf(old(mc.owner), s) == FrameSet(sp[s]) by { RecordsDropped(m, sp, old(mc.owner), s); }
    DataOfOnly(old(mc.owner), s);
    KeptWithout(m, mc.mem, old(mc.owner), DataFramesOf(old(mc.owner), s), s);
    assert multiset(mc.spaces[s]) + multiset(sp[s]) == multiset(sp[s]);
    ReleasedGood(m, mc.mem, sp, mc.spaces, s, sp[s]);
    Parts(mc);
    SparedKept(m, mc.mem, sp, mc.spaces, old(mc.owner), mc.owner, s);
  }

  lemma DataOfOnly(ow: Owners, s: nat)
    ensures forall f :: f in DataFramesOf(ow, s) && f in ow ==> ow[f].space == s
    ensures forall f :: f in FramesOf(ow, s) && f in ow ==> ow[f].space == s
  {
  }

  method DestroyStep(mc: Machine, s: nat)
    requires Good(mc) && s in mc.spaces
    modifies mc, mc.pmm, mc.pmm.bitmap
    ensures Good(mc)
    ensures AllAgree(old(mc.mem), old(mc.spaces)) ==> AllAgree(mc.mem, mc.spaces)
    ensures Spared(old(mc.mem), old(mc.spaces), mc.mem, mc.spaces, Some(s))
    ensures Destroyed(old(Now(mc)), Now(mc), s)
  {
    hide RecordsBounded, Pmm.FreeSet, DataSame, Agrees, Backed, AllAgree, AllBacked, Machine.Ready, Inv, LeavesSame, FramesOf, Spared,
         Holds, OthersKept;
    ghost var m, sp := mc.mem, mc.spaces;
    Parts(mc);
    DestroySpace(mc, s);
    AllGone(m, sp, old(mc.owner), s);
    DataOfOnly(old(mc.owner), s);
    KeptWithout(m, mc.mem, old(mc.owner), FramesOf(old(mc.owner), s), s);
    Parts(mc);
    SparedKept(m, mc.mem, sp, mc.spaces, old(mc.owner), mc.owner, s);
    OthersBacked(m, mc.mem, sp, mc.spaces, s);
    if AllAgree(m, sp) {
      OthersAgree(m, mc.mem, sp, mc.spaces, s);
    }
  }

  lemma AllGone(m: Memory, sp: Spaces, ow: Owners, s: nat)
    requires Inv(m, sp, ow) && s in sp
    ensures forall f :: f in FramesOf(ow, s) <==> f in FrameSet(sp[s]) || TableFrame(m, s, f)
  {
    hide Inv, FramesOf, FrameSet, TableFrame;
    forall f
      ensures f in FramesOf(ow, s) <==> f in FrameSet(sp[s]) || TableFrame(m, s, f)
    {
      OwnedFrames(m, sp, ow, s, f);
    }
  }

  method ExecStep(mc: Machine, s: nat, upath: nat, find: seq<byte> -> Option<Image>, nx: bool)
    requires Good(mc) && s in mc.spaces && Exec.AllSound(find)
    modifies mc, mc.pmm, mc.pmm.bitmap
    ensures Good(mc)
    ensures AllAgree(old(mc.mem), old(mc.spaces)) ==> AllAgree(mc.mem, mc.spaces)
    ensures Spared(old(mc.mem), old(mc.spaces), mc.mem, mc.spaces, Some(s))
    ensures Executed(old(Now(mc)), Now(mc), s, upath, find, nx)
  {
    hide RecordsBounded, Pmm.FreeSet, DataSame, Agrees, Backed, AllAgree, AllBacked, Machine.Ready, Inv, LeavesSame, FramesOf, Private,
         Exec.AllSound, Exec.Runs, ElfLoad.WxSafe, UserCopy.RangeOk, UserCopy.Holds, Spared, Holds, OthersKept;
    ghost var m, sp, ow := mc.mem, mc.spaces, mc.owner;
    Parts(mc);
    NothingDone(m, sp, ow, s);
    if upath >= WORD {
      return;
    }
    BackedHere(m, sp, s);
    BackedPrivate(m, sp, mc.owner, s);
    var p := new Exec.Process(s);
    var r;
    ghost var name;
    r, name := Exec.Execve(mc, p, upath, find, nx);
    if r == Exec.Done {
      assert Replaced(old(Now(mc)), Now(mc), s, p.cr3, p.rip, p.heapStart, p.brk, find(name + [0]).value, find, nx);
      SwapGood(m, mc.mem, sp, mc.spaces, s, p.cr3);
      DataOfOnly(ow, s);
      KeptWithout(m, mc.mem, ow, FramesOf(ow, s), s);
      Parts(mc);
      SwapHolds(sp, ow, mc.owner, s, p.cr3);
      SparedBut(m, mc.mem, sp, mc.spaces, ow, mc.owner, s);
    } else {
      SameGood(m, mc.mem, sp);
      Parts(mc);
      SameHolds(ow);
      SparedAll(m, mc.mem, sp, mc.spaces, ow, mc.owner);
      SparedFewer(m, sp, mc.mem, mc.spaces, s);
    }
    assert r != Exec.Fault ==> Loaded(old(Now(mc)), Now(mc), s, upath, name, find, nx);
  }

  lemma BackedHere(m: Memory, sp: Spaces, s: nat)
    requires AllBacked(m, sp) && s in sp
    ensures Backed(m, s, sp[s])
  {
    hide Backed;
  }

  lemma SwapGood(m: Memory, m': Memory, sp: Spaces, sp': Spaces, s: nat, c: nat)
    requires AllBacked(m, sp) && RecordsBounded(sp) && s in sp && c !in sp && c in sp' && sp' == (sp - {s})[c := sp'[c]]
    requires LeavesSame(m, m', sp - {s}) && Agrees(m', c, sp'[c])
    ensures AllBacked(m', sp') && (AllAgree(m, sp) ==> AllAgree(m', sp'))
  {
    hide Leaf, PageOf, UserPage, Agrees, Backed, RecordsBounded, UserRecords;
    AgreesBacked(m', c, sp'[c]);
    forall t | t in sp' && t != c
      ensures Backed(m', t, sp'[t]) && (Agrees(m, t, sp[t]) ==> Agrees(m', t, sp'[t]))
    {
      assert t in sp - {s};
      BoundedUser(sp, t);
      SameViews(m, m', t, sp[t]);
    }
  }

  // -----------------------------------------------------------------------------
  // Whole runs

  /** The two ways in which records and page tables part: a mapping over a page that is mapped, and
      pages taken back by a failed mmap. */
  ghost predicate Diverges(e: Event, m: Memory, sp: Spaces, m': Memory, sp': Spaces)
    requires Names(e, sp)
  {
    match e
    case Map(s, virt, _) => s in sp' && |sp[s]| < |sp'[s]| && Mapped(m, s, virt)
    case Brk(s, _, cur, _, _) =>
      s in sp' && |sp[s]| < |sp'[s]| && !NoneMapped(m, s, cur / FRAME_BYTES, cur / FRAME_BYTES + (|sp'[s]| - |sp[s]|))
    case Mmap(s, _, _, _, _, _) => s in sp' && |sp[s]| < |sp'[s]| && Stale(m', s, sp'[s][|sp[s]|..])
    case _ => false
  }

  method MapStep(mc: Machine, s: nat, virt: nat, flags: Flags)
    requires Good(mc) && s in mc.spaces
    modifies mc, mc.pmm, mc.pmm.bitmap
    ensures Good(mc)
    ensures AllAgree(old(mc.mem), old(mc.spaces)) ==>
              (AllAgree(mc.mem, mc.spaces) <==> !Diverges(Map(s, virt, flags), old(mc.mem), old(mc.spaces), mc.mem, mc.spaces))
    ensures Spared(old(mc.mem), old(mc.spaces), mc.mem, mc.spaces, Some(s))
    ensures OneMore(old(Now(mc)), Now(mc), s, virt, flags)
  {
    hide Good, AllAgree, Leaf, PageOf, SameOutside, LeavesSame, Pmm.FreeSet, Missing, Mapped, DistinctPages, Listed, Spared, Holds,
         OthersKept, Inv, RecordsBounded;
    ghost var m, sp, ow := mc.mem, mc.spaces, mc.owner;
    GoodNow(mc);
    var _ := MapOne(mc, s, virt, flags);
    RetainedOld(old(Now(mc)), Now(mc), ow, s);
    GoodNow(mc);
    SparedKept(m, mc.mem, sp, mc.spaces, ow, mc.owner, s);
  }

  method BrkStep(mc: Machine, s: nat, heapStart: nat, cur: nat, want: nat, flags: Flags)
    requires Good(mc) && s in mc.spaces
    modifies mc, mc.pmm, mc.pmm.bitmap
    ensures Good(mc)
    ensures AllAgree(old(mc.mem), old(mc.spaces)) ==>
              (AllAgree(mc.mem, mc.spaces) <==> !Diverges(Brk(s, heapStart, cur, want, flags), old(mc.mem), old(mc.spaces), mc.mem, mc.spaces))
    ensures Spared(old(mc.mem), old(mc.spaces), mc.mem, mc.spaces, Some(s))
    ensures BreakSet(old(Now(mc)), Now(mc), s, heapStart, cur, want, flags)
  {
    hide Retained, FreshPages, DataSame, FitsIn, RunCost, Dropped, CoveredFrames, UserMem.Covered, Good, AllAgree, Leaf, PageOf,
         SameOutside, LeavesSame, Machine.CanMap, Pmm.FreeSet, Missing, AllMapped, Appended, Spared, Holds, OthersKept, Inv,
         RecordsBounded;
    ghost var m, sp, ow := mc.mem, mc.spaces, mc.owner;
    GoodNow(mc);
    var r, brk := SetBreak(mc, s, heapStart, cur, want, flags);
    GoodNow(mc);
    if r != BadCall && cur < want {
      RetainedOld(old(Now(mc)), Now(mc), ow, s);
    } else if r != BadCall && want < cur {
      RetainedNew(old(Now(mc)), Now(mc), mc.owner, s);
    }
    GoodNow(mc);
    SparedKept(m, mc.mem, sp, mc.spaces, ow, mc.owner, s);
  }

  method MmapStep(mc: Machine, s: nat, brk: nat, addr: nat, length: nat, argsOk: bool, flags: Flags)
    requires Good(mc) && s in mc.spaces
    modifies mc, mc.pmm, mc.pmm.bitmap
    ensures Good(mc)
    ensures AllAgree(old(mc.mem), old(mc.spaces)) ==>
              (AllAgree(mc.mem, mc.spaces) <==> !Diverges(Event.Mmap(s, brk, addr, length, argsOk, flags), old(mc.mem), old(mc.spaces), mc.mem, mc.spaces))
    ensures Spared(old(mc.mem), old(mc.spaces), mc.mem, mc.spaces, Some(s))
    ensures MapPlaced(old(Now(mc)), Now(mc), s, brk, addr, length, argsOk, flags)
  {
    hide Good, AllAgree, Leaf, PageOf, SameOutside, LeavesSame, Pmm.FreeSet, Missing, AllMapped, NoneMapped, Stale, Appended, Starts,
         SeenSame, PagesUp, Chosen, Spared, Holds, OthersKept, Inv, RecordsBounded;
    ghost var m, sp, ow := mc.mem, mc.spaces, mc.owner;
    GoodNow(mc);
    var r := UserCalls.Mmap(mc, s, brk, addr, length, argsOk, flags);
    RetainedOld(old(Now(mc)), Now(mc), ow, s);
    GoodNow(mc);
    SparedKept(m, mc.mem, sp, mc.spaces, ow, mc.owner, s);
    if r.At? {
      NotStale(mc.mem, s, sp[s], mc.spaces[s], r.base, Window(r.base, PagesUp(length)));
    }
  }

  method MunmapStep(mc: Machine, s: nat, addr: nat, length: nat)
    requires Good(mc) && s in mc.spaces
    modifies mc, mc.pmm, mc.pmm.bitmap
    ensures Good(mc)
    ensures AllAgree(old(mc.mem), old(mc.spaces)) ==> AllAgree(mc.mem, mc.spaces)
    ensures Spared(old(mc.mem), old(mc.spaces), mc.mem, mc.spaces, Some(s))
    ensures Unplaced(old(Now(mc)), Now(mc), s, addr, length)
  {
    hide Good, AllAgree, LeavesSame, Spared, Holds, OthersKept, Inv, RecordsBounded;
    ghost var m, sp, ow := mc.mem, mc.spaces, mc.owner;
    GoodNow(mc);
    var r := UserCalls.Munmap(mc, s, addr, length);
    GoodNow(mc);
    if r == Fine {
      RetainedNew(old(Now(mc)), Now(mc), mc.owner, s);
    }
    GoodNow(mc);
    SparedKept(m, mc.mem, sp, mc.spaces, ow, mc.owner, s);
  }

  lemma GoodNow(mc: Machine)
    requires Good(mc)
    ensures Inv(mc.mem, mc.spaces, mc.owner) && AllBacked(mc.mem, mc.spaces)
  {
    hide Inv, AllBacked;
  }

  lemma NotStale(m: Memory, s: nat, a: seq<Mapping>, b: seq<Mapping>, q0: nat, n: nat)
    requires Appended(a, b, q0, n) && AllMapped(m, s, q0, q0 + n)
    ensures |a| < |b| ==> !Stale(m, s, b[|a|..])
  {
    hide Leaf, PageOf;
    if |a| < |b| {
      assert b[|a|..][0] == b[|a|] && b[|a|].virt == q0;
      assert Mapped(m, s, q0);
    }
  }

  /** The space an event may change. */
  function Touches(e: Event): Option<nat> {
    if e.Create? || e.Fork? || e.CopyFrom? then None else Some(e.s)
  }

  /** Serves one event.  Only the space it names is disturbed.  Every mapped page stays
      recorded; records and page tables part exactly in the two ways named. */
  method Serve(mc: Machine, e: Event, find: seq<byte> -> Option<Image>, nx: bool)
    requires Good(mc) && Names(e, mc.spaces) && Exec.AllSound(find)
    modifies mc, mc.pmm, mc.pmm.bitmap
    ensures Good(mc)
    ensures AllAgree(old(mc.mem), old(mc.spaces)) ==>
              (AllAgree(mc.mem, mc.spaces) <==> !Diverges(e, old(mc.mem), old(mc.spaces), mc.mem, mc.spaces))
    ensures Spared(old(mc.mem), old(mc.spaces), mc.mem, mc.spaces, Touches(e))
    ensures Effect(e, old(Now(mc)), Now(mc), find, nx)
  {
    hide Good, Exec.AllSound, AllAgree, OnlySpace, Spared, Created, OneMore, BreakSet, MapPlaced, Unplaced, Forked, Written, Executed,
         Exited, Destroyed, Pmm.FreeSet;
    match e
    case Create =>
      CreateStep(mc);
    case Map(s, virt, flags) =>
      MapStep(mc, s, virt, flags);
    case Brk(s, heapStart, cur, want, flags) =>
      BrkStep(mc, s, heapStart, cur, want, flags);
    case Mmap(s, brk, addr, length, argsOk, flags) =>
      MmapStep(mc, s, brk, addr, length, argsOk, flags);
    case Munmap(s, addr, length) =>
      MunmapStep(mc, s, addr, length);
    case Fork(s, restOk) =>
      ForkStep(mc, s, restOk);
    case CopyTo(s, dst, data) =>
      CopyToStep(mc, s, dst, data);
    case CopyFrom(s, src, len) =>
      CopyFromStep(mc, s, src, len);
      GoodNow(mc);
      SameLeaves(mc.mem, mc.spaces);
      SameHolds(mc.owner);
      SparedAll(mc.mem, mc.mem, mc.spaces, mc.spaces, mc.owner, mc.owner);
    case Exec(s, upath) =>
      ExecStep(mc, s, upath, find, nx);
    case Exit(s) =>
      ExitStep(mc, s);
    case Destroy(s) =>
      DestroyStep(mc, s);
  }

  /** Step `i` of a run: only the space named is disturbed, and records and page tables part exactly
      when the event says so. */
  ghost predicate Traced(events: seq<Event>, trace: seq<State>, i: nat)
    requires i < |events| && i + 1 < |trace|
  {
    && AllBacked(trace[i + 1].mem, trace[i + 1].spaces)
    && if Names(events[i], trace[i].spaces) then
         && Spared(trace[i].mem, trace[i].spaces, trace[i + 1].mem, trace[i + 1].spaces, Touches(events[i]))
         && (AllAgree(trace[i].mem, trace[i].spaces) ==>
               (AllAgree(trace[i + 1].mem, trace[i + 1].spaces) <==>
                !Diverges(events[i], trace[i].mem, trace[i].spaces, trace[i + 1].mem, trace[i + 1].spaces)))
       else trace[i + 1] == trace[i]
  }

  /** Step `i` of a run has the effect of its event. */
  ghost predicate Stepped(events: seq<Event>, trace: seq<State>, i: nat, find: seq<byte> -> Option<Image>, nx: bool)
    requires i < |events| && i + 1 < |trace|
  {
    Names(events[i], trace[i].spaces) ==> Effect(events[i], trace[i], trace[i + 1], find, nx)
  }

  /** Tables and pages of all spaces are in distinct frames, and exactly the frames none of them uses
      are free. */
  ghost predicate InOrder(a: State, pool: set<nat>) {
    TablesApart(a.mem, a.spaces, a.free) && PagesApart(a.mem, a.spaces, a.free) && Accounted(a, pool)
  }

  lemma NowInOrder(mc: Machine)
    requires mc.Ready()
    ensures InOrder(Now(mc), mc.pool)
  {
    hide Machine.Ready, Pmm.FreeSet, TablesApart, PagesApart, Inv, Uses, RecordsBounded;
    FramesDistinct(mc);
    Conserved(mc);
    Parts(mc);
    UsedOwned(mc.mem, mc.spaces, mc.owner);
  }

  /** The frames with an owner are those some space uses. */
  lemma UsedOwned(m: Memory, sp: Spaces, ow: Owners)
    requires Inv(m, sp, ow)
    ensures forall f :: f in ow <==> exists t :: Uses(m, sp, t, f)
  {
    hide Inv, FrameSet, TableFrame;
    Exec.OwnersLive(m, sp, ow);
    forall f
      ensures f in ow <==> exists t :: Uses(m, sp, t, f)
    {
      if f in ow {
        OwnedFrames(m, sp, ow, ow[f].space, f);
        assert Uses(m, sp, ow[f].space, f);
      }
      if t :| Uses(m, sp, t, f) {
        OwnedFrames(m, sp, ow, t, f);
      }
    }
  }

  /** In every state of a run the frames of all spaces are distinct and in use and all others free;
      each step has the effect of its event; at the end each space is private.  `trace[i]` is the
      state before event `i`; an event that names no space is refused. */
  method Run(mc: Machine, events: seq<Event>, find: seq<byte> -> Option<Image>, nx: bool) returns (ghost trace: seq<State>)
    requires mc.Ready() && mc.spaces == map[] && Exec.AllSound(find)
    modifies mc, mc.pmm, mc.pmm.bitmap
    ensures Good(mc) && mc.pmm.FreeSet() + mc.owner.Keys == mc.pool && mc.pmm.FreeSet() !! mc.owner.Keys
    ensures mc.spaces == map[] ==> mc.pmm.FreeSet() == mc.pool
    ensures forall s :: s in mc.spaces ==> Private(mc.mem, s, mc.owner)
    ensures |trace| == |events| + 1 && trace[0] == old(Now(mc)) && trace[|events|] == Now(mc)
    ensures forall i :: 0 <= i < |events| ==> Traced(events, trace, i)
    ensures forall i :: 0 <= i < |events| ==> Stepped(events, trace, i, find, nx)
    ensures forall i :: 0 <= i <= |events| ==> InOrder(trace[i], mc.pool)
  {
    hide Exec.AllSound, Machine.Ready, Pmm.FreeSet, AllBacked, AllAgree, Diverges, Effect, Private, RecordsBounded, Inv, InOrder;
    trace := [Now(mc)];
    NowInOrder(mc);
    assert AllBacked(mc.mem, map[]) by { NoSpaces(mc.mem); }
    for i := 0 to |events|
      invariant Good(mc) && |trace| == i + 1 && trace[0] == old(Now(mc)) && trace[i] == Now(mc)
      invariant forall j :: 0 <= j < i ==> Traced(events, trace, j)
      invariant forall j :: 0 <= j < i ==> Stepped(events, trace, j, find, nx)
      invariant forall j :: 0 <= j <= i ==> InOrder(trace[j], mc.pool)
    {
      if Names(events[i], mc.spaces) {
        Serve(mc, events[i], find, nx);
      }
      NowInOrder(mc);
      ghost var more := trace + [Now(mc)];
      TraceMore(events, trace, more, i);
      StepMore(events, trace, more, i, find, nx);
      trace := more;
    }
    Conserved(mc);
    AllPrivate(mc);
  }

  lemma NoSpaces(m: Memory)
    ensures AllBacked(m, map[])
  {
  }

  lemma TraceMore(events: seq<Event>, trace: seq<State>, more: seq<State>, i: nat)
    requires i < |events| && |trace| == i + 1 && |more| == i + 2 && more[..i + 1] == trace
    requires forall j :: 0 <= j < i ==> Traced(events, trace, j)
    requires Traced(events, more, i)
    ensures forall j :: 0 <= j < i + 1 ==> Traced(events, more, j)
  {
    hide AllBacked, AllAgree, Diverges;
    forall j | 0 <= j < i
      ensures Traced(events, more, j)
    {
      assert Traced(events, trace, j) && more[j] == more[..i + 1][j] && more[j + 1] == more[..i + 1][j + 1];
    }
  }

  lemma StepMore(events: seq<Event>, trace: seq<State>, more: seq<State>, i: nat, find: seq<byte> -> Option<Image>, nx: bool)
    requires i < |events| && |trace| == i + 1 && |more| == i + 2 && more[..i + 1] == trace
    requires forall j :: 0 <= j < i ==> Stepped(events, trace, j, find, nx)
    requires Stepped(events, more, i, find, nx)
    ensures forall j :: 0 <= j < i + 1 ==> Stepped(events, more, j, find, nx)
  {
    hide Effect;
    forall j | 0 <= j < i
      ensures Stepped(events, more, j, find, nx)
    {
      assert Stepped(events, trace, j, find, nx) && more[j] == more[..i + 1][j] && more[j + 1] == more[..i + 1][j + 1];
    }
  }

  lemma AllPrivate(mc: Machine)
    requires Good(mc)
    ensures forall s :: s in mc.spaces ==> Private(mc.mem, s, mc.owner)
  {
    hide RecordsBounded, Backed, Machine.Ready, Inv, Private;
    Parts(mc);
    forall s | s in mc.spaces
      ensures Private(mc.mem, s, mc.owner)
    {
      BackedPrivate(mc.mem, mc.spaces, mc.owner, s);
    }
  }

  /** As long as no event makes them part, records and page tables of all spaces agree. */
  lemma {:induction false} AgreeThroughout(events: seq<Event>, trace: seq<State>, n: nat)
    requires n <= |events| && |trace| == |events| + 1 && AllAgree(trace[0].mem, trace[0].spaces)
    requires forall i :: 0 <= i < |events| ==> Traced(events, trace, i)
    requires forall i {:trigger trace[i]} :: 0 <= i < n && Names(events[i], trace[i].spaces) ==>
               !Diverges(events[i], trace[i].mem, trace[i].spaces, trace[i + 1].mem, trace[i + 1].spaces)
    ensures AllAgree(trace[n].mem, trace[n].spaces)
  {
    hide AllBacked, AllAgree, Diverges;
    if n > 0 {
      AgreeThroughout(events, trace, n - 1);
      assert Traced(events, trace, n - 1) && trace[n - 1] == trace[n - 1];
    }
  }

  /** Isolation over a run: a space that no event names from step `k` on keeps its records, its
      mappings and its bytes. */
  lemma {:induction false} IsolatedThroughout(events: seq<Event>, trace: seq<State>, k: nat, n: nat, t: nat)
    requires k <= n <= |events| && |trace| == |events| + 1 && t in trace[k].spaces
    requires forall i :: 0 <= i < |events| ==> Traced(events, trace, i)
    requires forall i :: k <= i < n ==> Touches(events[i]) != Some(t)
    ensures Undisturbed(trace[k].mem, trace[k].spaces, trace[n].mem, trace[n].spaces, t)
  {
    hide AllBacked, AllAgree, Diverges, Leaf, UserPage, ByteAt;
    if k < n {
      IsolatedThroughout(events, trace, k, n - 1, t);
      assert Traced(events, trace, n - 1);
      UndisturbedTwice(trace[k], trace[n - 1], trace[n], t);
    }
  }

  /** Nothing leaks and nothing is lost: once all spaces that came after step `k` are gone again, and the
      ones from before were left alone, the same frames are free as at step `k`. */
  lemma FreeAgain(events: seq<Event>, trace: seq<State>, k: nat, n: nat, pool: set<nat>)
    requires k <= n <= |events| && |trace| == |events| + 1 && trace[n].spaces.Keys == trace[k].spaces.Keys
    requires forall i :: 0 <= i < |events| ==> Traced(events, trace, i)
    requires InOrder(trace[k], pool) && InOrder(trace[n], pool)
    requires forall i :: k <= i < n ==> Touches(events[i]).None? || Touches(events[i]).value !in trace[k].spaces
    ensures trace[n].free == trace[k].free
  {
    hide Traced, Undisturbed, TablesApart, PagesApart, Uses;
    var a, b := trace[k], trace[n];
    forall t, f
      ensures Uses(a.mem, a.spaces, t, f) <==> Uses(b.mem, b.spaces, t, f)
    {
      if t in a.spaces {
        IsolatedThroughout(events, trace, k, n, t);
        SameUse(a, b, t, f);
      } else {
        NoUse(a, b, t, f);
      }
    }
  }

  lemma SameUse(a: State, b: State, t: nat, f: nat)
    requires Undisturbed(a.mem, a.spaces, b.mem, b.spaces, t)
    ensures Uses(a.mem, a.spaces, t, f) <==> Uses(b.mem, b.spaces, t, f)
  {
    hide Leaf, UserPage, BytesSame, FrameSet, UserPath;
    if TableFrame(a.mem, t, f) {
      var p :| UserPath(p) && Node(a.mem, t, p) == Some(f);
      assert Node(b.mem, t, p) == Some(f);
    }
    if TableFrame(b.mem, t, f) {
      var p :| UserPath(p) && Node(b.mem, t, p) == Some(f);
      assert Node(a.mem, t, p) == Some(f);
    }
  }

  lemma NoUse(a: State, b: State, t: nat, f: nat)
    requires t !in a.spaces && b.spaces.Keys == a.spaces.Keys
    ensures !Uses(a.mem, a.spaces, t, f) && !Uses(b.mem, b.spaces, t, f)
  {
  }

  lemma UndisturbedTwice(a: State, b: State, c: State, t: nat)
    requires Undisturbed(a.mem, a.spaces, b.mem, b.spaces, t)
    requires c == b || Undisturbed(b.mem, b.spaces, c.mem, c.spaces, t)
    ensures Undisturbed(a.mem, a.spaces, c.mem, c.spaces, t)
  {
    hide Leaf, UserPage, ByteAt;
  }

  lemma Conserved(mc: Machine)
    requires mc.Ready()
    ensures mc.pmm.FreeSet() + mc.owner.Keys == mc.pool && mc.pmm.FreeSet() !! mc.owner.Keys
    ensures mc.spaces == map[] ==> mc.pmm.FreeSet() == mc.pool
  {
    hide Inv, KernelShared, RecordsBounded, Pmm.FreeSet, Pmm.Sized;
    Exec.OwnersLive(mc.mem, mc.spaces, mc.owner);
    assert mc.spaces == map[] ==> mc.owner.Keys == {};
  }
}
