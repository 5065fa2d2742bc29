/** What each event does to the address spaces, on values: the state before, the state after. */
module Effects {
  import opened Common
  import opened Frames
  import opened PageTable
  import opened Ownership
  import opened AddressSpaces
  import opened Teardown
  import opened Records
  import opened Fork
  import opened UserBytes
  import opened ElfImage
  import LoadPlan
  import opened UserCalls
  import UserCopy
  import UserMem
  import MmapSearch
  import Exec

  datatype Event =
    | Create
    | Map(s: nat, virt: nat, flags: Flags)
    | Brk(s: nat, heapStart: nat, cur: nat, want: nat, flags: Flags)
    | Mmap(s: nat, brk: nat, addr: nat, length: nat, argsOk: bool, flags: Flags)
    | Munmap(s: nat, addr: nat, length: nat)
    | Fork(s: nat, restOk: bool)
    | CopyTo(s: nat, dst: nat, data: seq<byte>)
    | CopyFrom(s: nat, src: nat, len: nat)
    | Exec(s: nat, upath: nat)
    | Exit(s: nat)
    | Destroy(s: nat)

  predicate Names(e: Event, sp: Spaces) { e.Create? || e.s in sp }

  datatype State = State(mem: Memory, spaces: Spaces, free: set<nat>)

  // -----------------------------------------------------------------------------
  // Isolation

  /** The tables of space `t` are in the same frames. */
  ghost predicate TablesSame(m: Memory, m': Memory, t: nat) {
    forall p {:trigger Node(m', t, p)} {:trigger Node(m, t, p)} :: UserPath(p) ==> Node(m', t, p) == Node(m, t, p)
  }

  /** Space `t` has the same records, the same tables, the same mappings and the same bytes. */
  ghost predicate Undisturbed(m: Memory, sp: Spaces, m': Memory, sp': Spaces, t: nat) {
    t in sp && t in sp' && sp'[t] == sp[t] && TablesSame(m, m', t) && (forall v :: UserPage(v) ==> Leaf(m', t, v) == Leaf(m, t, v)) && BytesSame(m, m', t)
  }

  /** So has every space but the one named. */
  ghost predicate Spared(m: Memory, sp: Spaces, m': Memory, sp': Spaces, but: Option<nat>) {
    forall t :: t in sp && but != Some(t) ==> Undisturbed(m, sp, m', sp', t)
  }

  // -----------------------------------------------------------------------------
  // One space

  /** All spaces read as before and the same frames are free; only free frames may hold other bytes. */
  ghost predicate Restored(a: State, b: State) {
    b.spaces == a.spaces && b.free == a.free && Spared(a.mem, a.spaces, b.mem, b.spaces, None)
  }

  /** The recorded pages that stay keep their bytes; no other space gains or loses a record. */
  ghost predicate Retained(a: State, b: State, s: nat) {
    && s in a.spaces && s in b.spaces && b.spaces == a.spaces[s := b.spaces[s]] && |b.mem| == |a.mem|
    && forall r :: r in a.spaces[s] && r in b.spaces[s] && r.frame < |a.mem| ==> b.mem[r.frame] == a.mem[r.frame]
  }

  /** The pages `q0` to `q0 + n` are mapped anew and read as zero; all else is as it was. */
  ghost predicate Grown(a: State, b: State, s: nat, q0: nat, n: nat, flags: Flags) {
    && Retained(a, b, s) && Appended(a.spaces[s], b.spaces[s], q0, n)
    && SameOutside(a.mem, b.mem, s, q0, n) && FreshPages(b.mem, s, b.spaces[s], |a.spaces[s]|, flags)
  }

  /** A run of `n` pages was asked for and as many were mapped as there was room for. */
  ghost predicate GrownFar(a: State, b: State, s: nat, q0: nat, n: nat, flags: Flags) {
    && Retained(a, b, s) && |a.spaces[s]| <= |b.spaces[s]|
    && var done := |b.spaces[s]| - |a.spaces[s]|;
       && done <= n && Grown(a, b, s, q0, done, flags)
       && FitsIn(a.mem, s, |a.spaces[s]|, |a.free|, q0, done)
       && (done < n ==> !FitsIn(a.mem, s, |a.spaces[s]|, |a.free|, q0, done + 1))
       && (done == n ==> |a.free| == |b.free| + RunCost(a.mem, s, q0, n))
  }

  /** Exactly the recorded pages from `start` on below the stack are gone, and their frames are free. */
  ghost predicate Trimmed(a: State, b: State, s: nat, start: nat) {
    && Retained(a, b, s) && b.free == a.free + CoveredFrames(a.spaces[s], start)
    && (forall r :: r in b.spaces[s] <==> r in a.spaces[s] && !UserMem.Covered(r, start))
    && Dropped(a.mem, b.mem, s, a.spaces[s], start)
  }

  // -----------------------------------------------------------------------------
  // The events

  ghost predicate NewSpace(a: State, b: State, c: nat) {
    && c in a.free && c !in a.spaces && b.spaces == a.spaces[c := []] && b.free == a.free - {c}
    && forall v :: UserPage(v) ==> Leaf(b.mem, c, v) == ZERO_PTE
  }

  ghost predicate Created(a: State, b: State) {
    if a.free == {} then b == a else exists c :: NewSpace(a, b, c)
  }

  ghost predicate OneMore(a: State, b: State, s: nat, virt: nat, flags: Flags)
    requires s in a.spaces
  {
    var ok := virt < USER_PAGES && |a.spaces[s]| < MAX_UMAP && Missing(a.mem, s, PageOf(virt)) < |a.free|;
    Grown(a, b, s, virt, if ok then 1 else 0, flags) && (ok ==> |a.free| == |b.free| + 1 + Missing(a.mem, s, PageOf(virt)))
  }

  ghost predicate BreakSet(a: State, b: State, s: nat, heapStart: nat, cur: nat, want: nat, flags: Flags) {
    if heapStart == 0 || want < heapStart || cur == want then b == a
    else if cur < want then GrownFar(a, b, s, cur / FRAME_BYTES, Steps(cur, want), flags)
    else Trimmed(a, b, s, PagesUp(want))
  }

  /** Where a mapping of this length goes, if all of it can be had. */
  ghost function Place(a: State, s: nat, brk: nat, addr: nat, length: nat): Option<nat>
    requires s in a.spaces
  {
    if !Sized(length) || !(0 < PagesUp(length) <= MmapSearch.MMAP_TOP) then None else
    match Chosen(a.mem, s, brk, addr, PagesUp(length))
    case None => None
    case Some(base) => if FitsIn(a.mem, s, |a.spaces[s]|, |a.free|, base, Window(base, PagesUp(length))) then Some(base) else None
  }

  ghost predicate MapPlaced(a: State, b: State, s: nat, brk: nat, addr: nat, length: nat, argsOk: bool, flags: Flags)
    requires s in a.spaces
  {
    if !argsOk || !Sized(length) then b == a else
    match Place(a, s, brk, addr, length)
    case Some(base) =>
      && Grown(a, b, s, base, Window(base, PagesUp(length)), flags)
      && |a.free| == |b.free| + RunCost(a.mem, s, base, Window(base, PagesUp(length)))
    case None =>
      && Retained(a, b, s) && SeenSame(a.mem, b.mem, a.spaces)
      && a.spaces[s] <= b.spaces[s] && Stale(b.mem, s, b.spaces[s][|a.spaces[s]|..])
  }

  ghost predicate Unplaced(a: State, b: State, s: nat, addr: nat, length: nat) {
    if 0 < length && addr % FRAME_BYTES == 0 && addr / FRAME_BYTES + Pages64(length) <= MmapSearch.MMAP_TOP
    then Trimmed(a, b, s, addr / FRAME_BYTES) else b == a
  }

  ghost predicate Child(a: State, b: State, s: nat, c: nat) {
    && s in a.spaces && c !in a.spaces && c in b.spaces && b.spaces == a.spaces[c := b.spaces[c]]
    && |b.spaces[c]| == |a.spaces[s]| && Copies(b.mem, a.mem, a.spaces[s], b.spaces[c], a.free)
    && Backed(b.mem, c, b.spaces[c]) && (SamePages(b.mem, c, a.mem, s) <==> Copyable(a.mem, s, a.spaces[s]))
  }

  ghost predicate Forked(a: State, b: State, s: nat, restOk: bool)
    requires s in a.spaces
  {
    if restOk && ForkCost(a.spaces[s]) <= |a.free| then exists c :: Child(a, b, s, c) else Restored(a, b)
  }

  ghost predicate Written(a: State, b: State, s: nat, dst: nat, data: seq<byte>) {
    if dst < WORD && |data| < WORD && UserCopy.RangeOk(a.mem, s, dst, |data|, true)
    then b.spaces == a.spaces && b.free == a.free && LeavesSame(a.mem, b.mem, a.spaces) && BytesSet(a.mem, b.mem, s, dst, data)
    else b == a
  }

  /** The process of space `s` now runs `image` in space `c`. */
  ghost predicate Replaced(a: State, b: State, s: nat, c: nat, rip: nat, heapStart: nat, brk: nat, image: Image, find: seq<byte> -> Option<Image>, nx: bool) {
    && c !in a.spaces && c in b.spaces && b.spaces == (a.spaces - {s})[c := b.spaces[c]]
    && Exec.Runs(b.mem, c, rip, heapStart, brk, image, find, nx)
  }

  ghost predicate Loaded(a: State, b: State, s: nat, upath: nat, name: seq<byte>, find: seq<byte> -> Option<Image>, nx: bool) {
    && UserCopy.Holds(a.mem, s, upath, name) && |name| == Exec.NAME_LEN
    && match find(name + [0])
       case None => Restored(a, b)
       case Some(image) =>
         && |image| < USER_BYTES
         && if Exec.Expected(image, find, |a.free|, nx) == LoadPlan.Ok
            then exists c, rip, heapStart, brk :: Replaced(a, b, s, c, rip, heapStart, brk, image, find, nx)
            else Restored(a, b)
  }

  ghost predicate Executed(a: State, b: State, s: nat, upath: nat, find: seq<byte> -> Option<Image>, nx: bool) {
    if upath >= WORD then b == a
    else if !UserCopy.RangeOk(a.mem, s, upath, Exec.NAME_LEN, false) then Restored(a, b)
    else exists name :: Loaded(a, b, s, upath, name, find, nx)
  }

  /** The pages of `s` are gone and their frames free; its tables stay. */
  ghost predicate Exited(a: State, b: State, s: nat)
    requires s in a.spaces
  {
    && b.spaces == a.spaces[s := []] && b.free == a.free + FrameSet(a.spaces[s])
    && forall v :: UserPage(v) ==> !Leaf(b.mem, s, v).flags.present
  }

  /** Space `s` is gone; exactly the frames of its pages and of its tables have become free. */
  ghost predicate Destroyed(a: State, b: State, s: nat)
    requires s in a.spaces
  {
    && b.spaces == a.spaces - {s}
    && forall f :: f in b.free <==> f in a.free || f in FrameSet(a.spaces[s]) || TableFrame(a.mem, s, f)
  }

  ghost predicate TableFrame(m: Memory, s: nat, f: nat) { exists p :: UserPath(p) && Node(m, s, p) == Some(f) }

  /** Frame `f` holds a page or a table of space `t`. */
  ghost predicate Uses(m: Memory, sp: Spaces, t: nat, f: nat) {
    t in sp && (f in FrameSet(sp[t]) || TableFrame(m, t, f))
  }

  /** Of the frames that user spaces can have, exactly those no space uses are free. */
  ghost predicate Accounted(a: State, pool: set<nat>) {
    && a.free <= pool && (forall t, f :: Uses(a.mem, a.spaces, t, f) ==> f in pool)
    && (forall f :: f in pool ==> (f in a.free <==> forall t :: !Uses(a.mem, a.spaces, t, f)))
  }

  ghost predicate Effect(e: Event, a: State, b: State, find: seq<byte> -> Option<Image>, nx: bool)
    requires Names(e, a.spaces)
  {
    match e
    case Create => Created(a, b)
    case Map(s, virt, flags) => OneMore(a, b, s, virt, flags)
    case Brk(s, heapStart, cur, want, flags) => BreakSet(a, b, s, heapStart, cur, want, flags)
    case Mmap(s, brk, addr, length, argsOk, flags) => MapPlaced(a, b, s, brk, addr, length, argsOk, flags)
    case Munmap(s, addr, length) => Unplaced(a, b, s, addr, length)
    case Fork(s, restOk) => Forked(a, b, s, restOk)
    case CopyTo(s, dst, data) => Written(a, b, s, dst, data)
    case CopyFrom(_, _, _) => b == a
    case Exec(s, upath) => Executed(a, b, s, upath, find, nx)
    case Exit(s) => Exited(a, b, s)
    case Destroy(s) => Destroyed(a, b, s)
  }

  // -----------------------------------------------------------------------------
  // From the frames to the records

  lemma RetainedOld(a: State, b: State, ow: Owners, s: nat)
    requires Inv(a.mem, a.spaces, ow) && s in a.spaces && s in b.spaces && b.spaces == a.spaces[s := b.spaces[s]]
    requires DataSame(a.mem, b.mem, ow)
    ensures Retained(a, b, s)
  {
    hide NodesOwned, OwnersAreNodes, OwnersAreData, NoHugePages;
    forall r | r in a.spaces[s] && r in b.spaces[s] && r.frame < |a.mem|
      ensures b.mem[r.frame] == a.mem[r.frame]
    {
      var i :| 0 <= i < |a.spaces[s]| && a.spaces[s][i] == r;
      assert ow[a.spaces[s][i].frame] == DataOf(s);
    }
  }

  lemma RetainedNew(a: State, b: State, ow: Owners, s: nat)
    requires Inv(b.mem, b.spaces, ow) && s in a.spaces && s in b.spaces && b.spaces == a.spaces[s := b.spaces[s]]
    requires DataSame(a.mem, b.mem, ow)
    ensures Retained(a, b, s)
  {
    hide NodesOwned, OwnersAreNodes, OwnersAreData, NoHugePages;
    forall r | r in a.spaces[s] && r in b.spaces[s] && r.frame < |a.mem|
      ensures b.mem[r.frame] == a.mem[r.frame]
    {
      var i :| 0 <= i < |b.spaces[s]| && b.spaces[s][i] == r;
      assert ow[b.spaces[s][i].frame] == DataOf(s);
    }
  }

  /** The frames a space owns are those of its records and of its tables. */
  lemma OwnedFrames(m: Memory, sp: Spaces, ow: Owners, s: nat, f: nat)
    requires Inv(m, sp, ow) && s in sp
    ensures f in FramesOf(ow, s) <==> f in FrameSet(sp[s]) || TableFrame(m, s, f)
  {
    hide NoHugePages;
    if f in FramesOf(ow, s) {
      if ow[f].TableOf? {
        assert Node(m, s, ow[f].path) == Some(f);
      } else {
        assert Ownership.Records(sp[s], f);
      }
    }
    if TableFrame(m, s, f) {
      var p :| UserPath(p) && Node(m, s, p) == Some(f);
    }
  }

  /** When every recorded page is unmapped, and only recorded pages were mapped, none is left. */
  lemma NoneLeft(m: Memory, m': Memory, sp: Spaces, s: nat)
    requires s in sp && Backed(m, s, sp[s]) && Cleared(m, m', sp, s, sp[s])
    ensures forall v :: UserPage(v) ==> !Leaf(m', s, v).flags.present
  {
    hide Leaf, UserPage, PageOf;
    forall v | UserPage(v)
      ensures !Leaf(m', s, v).flags.present
    {
      ListedMember(sp[s], v);
    }
  }
}
