/** Replacing the program of a process. */
module Exec {
  import opened Common
  import opened Frames
  import opened PageTable
  import opened Ownership
  import opened AddressSpaces
  import opened Teardown
  import opened Records
  import opened Fork
  import opened UserBytes
  import opened ElfImage
  import opened Costs
  import opened LoadPlan
  import opened ElfLoad
  import opened Overlay
  import opened Startup
  import UserCopy

  /** The process fields execve works on; `umap[]` is the machine's record list of `cr3`. */
  class Process {
    var cr3: nat
    var heapStart: nat
    var brk: nat
    var brkPerm: Flags
    var rip: nat
    var rsp: nat

    constructor (root: nat)
      ensures cr3 == root
    {
      cr3, heapStart, brk, brkPerm, rip, rsp := root, 0, 0, NO_FLAGS, 0, 0;
    }
  }

  const NAME_LEN: nat := 31

  /** Heap pages are writable, and not executable where the processor can tell. */
  function HeapPerm(nx: bool): Flags { Flags(false, true, false, false, nx) }

  /** The headers of an accepted image. */
  function Phdrs(b: Image): seq<Phdr>
    requires EHDR_SIZE <= |b| && HeaderOk(ReadEhdr(b), |b|)
  {
    Headers(b, ReadEhdr(b))
  }

  /** An image the kernel may carry: smaller than the kernel half and, if accepted, without a
      segment end that wraps. */
  ghost predicate Sound(b: Image) {
    |b| < USER_BYTES && (Accepted(b) ==> NoneWraps(Phdrs(b), Base(ReadEhdr(b))))
  }

  ghost predicate AllSound(find: seq<byte> -> Option<Image>) {
    forall name :: find(name).Some? ==> Sound(find(name).value)
  }

  /** An accepted image with a proper layout. */
  ghost predicate Loadable(b: Image) {
    Accepted(b) && Layout(Phdrs(b), Base(ReadEhdr(b)), |b|)
  }

  lemma SoundLayout(b: Image)
    requires Sound(b) && Accepted(b)
    ensures Loadable(b)
  {
    hide TableOk, Layout, NoneWraps, Headers, ReadEhdr;
    LayoutIff(Phdrs(b), Base(ReadEhdr(b)), ReadEhdr(b).entry, |b|);
  }

  /** The break goes past the highest byte of any segment. */
  ghost predicate IsLoadEnd(phs: seq<Phdr>, n: nat, base: nat, end: nat)
    requires n <= |phs|
  {
    && (forall i :: 0 <= i < n && IsLoad(phs[i]) ==> End(phs[i], base) <= end)
    && (end == 0 || exists i :: 0 <= i < n && IsLoad(phs[i]) && End(phs[i], base) == end)
  }

  method LoadEnd(phs: seq<Phdr>, base: nat) returns (end: nat)
    ensures IsLoadEnd(phs, |phs|, base, end)
  {
    hide End;
    end := 0;
    for i := 0 to |phs|
      invariant IsLoadEnd(phs, i, base, end)
    {
      if IsLoad(phs[i]) && End(phs[i], base) > end {
        end := End(phs[i], base);
      }
    }
  }

  /** First page boundary at or above `a`. */
  function PageUp(a: nat): (r: nat)
    ensures a <= r < a + FRAME_BYTES && r % FRAME_BYTES == 0
  {
    (a + FRAME_BYTES - 1) / FRAME_BYTES * FRAME_BYTES
  }

  /** The user half of space `c` off the stack, byte for byte: the program alone, or the linker over
      the program. */
  ghost predicate BytesAre(m: Memory, c: nat, b: Image, linker: Option<Image>)
    requires Loadable(b) && (linker.Some? ==> Loadable(linker.value))
  {
    match linker
    case None => Exact(m, c, b, Phdrs(b), Base(ReadEhdr(b)))
    case Some(l) => JointExact(m, c, b, Phdrs(b), Base(ReadEhdr(b)), l, Phdrs(l), Base(ReadEhdr(l)))
  }

  /** The permissions of every user page. */
  ghost predicate PagesAre(m: Memory, c: nat, b: Image, linker: Option<Image>, nx: bool)
    requires Loadable(b) && (linker.Some? ==> Loadable(linker.value))
  {
    match linker
    case None => FinalMap(m, c, Phdrs(b), Base(ReadEhdr(b)), nx)
    case Some(l) => JointMap(m, c, Phdrs(b), Base(ReadEhdr(b)), Phdrs(l), Base(ReadEhdr(l)), nx)
  }

  ghost predicate StackIs(m: Memory, c: nat, ld: Loader)
    requires Loadable(ld.image)
  {
    && UserCopy.Holds(m, c, RSP, Encode(StackWords(ld, |Phdrs(ld.image)|, ARGV0_AT)))
    && UserCopy.Holds(m, c, ARGV0_AT, ARGV0)
  }

  /** Space `c` holds the loaded program, its linker if it has one, the initial stack, and nothing
      else. */
  ghost predicate Holding(m: Memory, c: nat, ld: Loader, linker: Option<Image>, nx: bool)
    requires Loadable(ld.image) && (linker.Some? ==> Loadable(linker.value))
  {
    BytesAre(m, c, ld.image, linker) && PagesAre(m, c, ld.image, linker, nx) && StackIs(m, c, ld)
  }

  /** Where control goes: the linker's entry point, or the program's own. */
  function EntryOf(b: Image): nat
    requires EHDR_SIZE <= |b|
  {
    Add64(ReadEhdr(b).entry, Base(ReadEhdr(b)))
  }

  /** The machine as it was with memory `m0`, up to the contents of frames nobody owns. */
  ghost predicate PutBack(mc: Machine, m0: Memory, sp0: Spaces, ow0: Owners, free0: set<nat>)
    reads mc, mc.pmm, mc.pmm.bitmap
  {
    && mc.Ready() && mc.spaces == sp0 && mc.owner == ow0 && mc.pmm.FreeSet() == free0
    && LeavesSame(m0, mc.mem, sp0) && DataSame(m0, mc.mem, ow0)
  }

  /** The image names a linker of its own. */
  predicate NamesLinker(b: Image)
    requires EHDR_SIZE <= |b| && HeaderOk(ReadEhdr(b), |b|)
  {
    exists i :: 0 <= i < |Phdrs(b)| && Phdrs(b)[i].kind == PT_INTERP
  }

  /** There is a linker, it is accepted, and names no linker itself. */
  ghost predicate GoodLinker(image: Option<Image>) {
    image.Some? && Accepted(image.value) && !NamesLinker(image.value)
  }

  /** The pages visited for the segments of an accepted image. */
  function ImageVisits(b: Image): seq<Visit>
    requires EHDR_SIZE <= |b| && HeaderOk(ReadEhdr(b), |b|)
  {
    Visits(Phdrs(b), Base(ReadEhdr(b)), |Phdrs(b)|)
  }

  /** `elf_load_interp`: the segments of the named linker, over what is there. */
  method LoadInterp(mc: Machine, c: nat, path: seq<byte>, find: seq<byte> -> Option<Image>, nx: bool, ghost vs: seq<Visit>,
                    ghost m0: Memory, ghost sp0: Spaces, ghost ow0: Owners, ghost free0: set<nat>)
    returns (r: Status, entry: nat)
    requires Loading(mc, c, nx, m0, sp0, ow0, free0) && AllSound(find) && Tallied(mc, c, vs, nx, free0)
    modifies mc, mc.pmm, mc.pmm.bitmap
    ensures Loading(mc, c, nx, m0, sp0, ow0, free0)
    ensures r == if GoodLinker(find(path)) then Verdict(vs + ImageVisits(find(path).value), |vs|, |free0|, nx) else NoExec
    ensures r.Ok? ==> find(path).Some? && Loadable(find(path).value) && entry == EntryOf(find(path).value)
    ensures r.Ok? ==>
              var l := find(path).value;
              && Perms(old(mc.mem), mc.mem, c, Phdrs(l), Base(ReadEhdr(l)), |Phdrs(l)|, 0, nx)
              && Laden(old(mc.mem), mc.mem, c, l, Phdrs(l), Base(ReadEhdr(l)))
  {
    hide Loading, Accepted, ReadEhdr, Layout, Headers, Interp, Base, Perms, Laden, Tallied, Verdict, Visits;
    entry := 0;
    var image := find(path);
    if image.None? {
      return NoExec, 0;
    }
    var b := image.value;
    var ld := Validate(b);
    if ld.Some? {
      InterpIff(b, Headers(b, ReadEhdr(b))) by { AcceptedHeader(b); }
    }
    if ld.None? || ld.value.interp.Some? {
      return NoExec, 0;
    }
    assert EHDR_SIZE <= |b| && HeaderOk(ReadEhdr(b), |b|) by { AcceptedHeader(b); }
    SoundLayout(b);
    r := LoadSegments(mc, c, b, Phdrs(b), ld.value.base, nx, vs, m0, sp0, ow0, free0);
    entry := Add64(ld.value.entry, ld.value.base);
  }

  lemma AcceptedHeader(b: Image)
    requires Accepted(b)
    ensures EHDR_SIZE <= |b| && HeaderOk(ReadEhdr(b), |b|)
  {
  }

  lemma StartLoading(mc: Machine, c: nat, nx: bool, m0: Memory, sp0: Spaces, ow0: Owners, free0: set<nat>)
    requires Building(mc, c, m0, sp0, ow0, free0) && mc.spaces[c] == [] && forall v :: UserPage(v) ==> Leaf(mc.mem, c, v) == ZERO_PTE
    ensures Loading(mc, c, nx, m0, sp0, ow0, free0)
  {
    hide Building, Leaf, UserPage, PageOf;
  }

  /** `address_space_create` for the scratch space. */
  method NewScratch(mc: Machine, nx: bool) returns (c: nat)
    requires mc.Ready()
    modifies mc, mc.pmm, mc.pmm.bitmap
    ensures c == 0 ==> PutBack(mc, old(mc.mem), old(mc.spaces), old(mc.owner), old(mc.pmm.FreeSet()))
    ensures c != 0 ==> Loading(mc, c, nx, old(mc.mem), old(mc.spaces), old(mc.owner), old(mc.pmm.FreeSet()))
    ensures c != 0 ==> Empty(mc.mem, c) && Tallied(mc, c, [], nx, old(mc.pmm.FreeSet()))
    ensures c == 0 <==> |old(mc.pmm.FreeSet())| == 0
  {
    hide Inv, KernelShared, RecordsBounded, Pmm.FreeSet, Pmm.Sized, Partition, Leaf, UserPage,
         LeavesSame, DataSame, Extends, Loading, Bare, Tallied;
    c := mc.CreateSpace({});
    if c == 0 {
      Unchanged(mc.mem, mc.spaces, mc.owner, {}, 0);
      return;
    }
    NewRoot(old(mc.owner), c);
    OnlyTaken(old(mc.pmm.FreeSet()), old(mc.owner), mc.pmm.FreeSet(), mc.owner, mc.pool, c);
    StartLoading(mc, c, nx, old(mc.mem), old(mc.spaces), old(mc.owner), old(mc.pmm.FreeSet()));
    StartTally(mc, c, nx, old(mc.pmm.FreeSet()));
  }

  lemma StartTally(mc: Machine, c: nat, nx: bool, free0: set<nat>)
    requires c in mc.spaces && mc.spaces[c] == [] && Bare(mc.mem, c) && c in free0 && mc.pmm.FreeSet() == free0 - {c}
    requires forall v :: UserPage(v) ==> Leaf(mc.mem, c, v) == ZERO_PTE
    ensures Tallied(mc, c, [], nx, free0)
  {
    hide Leaf, UserPage, PageOf, Pmm.FreeSet, Bare, Planted, Cost;
    NoPages();
    PlantedNone(mc.mem, c);
    forall q: nat | q < USER_PAGES
      ensures VisitFlags(Leaf(mc.mem, c, PageOf(q)).flags, [], nx, q)
    {
      UserNumber(q);
    }
  }

  /** The linker of a program: the image its interpreter path names. */
  function LinkerOf(interp: Option<seq<byte>>, find: seq<byte> -> Option<Image>): Option<Image> {
    if interp.None? then None else find(interp.value)
  }

  /** The visits of a program and its stack, and of its linker. */
  function AllVisits(b: Image, linker: Option<Image>): seq<Visit>
    requires EHDR_SIZE <= |b| && HeaderOk(ReadEhdr(b), |b|)
    requires linker.Some? ==> EHDR_SIZE <= |linker.value| && HeaderOk(ReadEhdr(linker.value), |linker.value|)
  {
    Plan(Phdrs(b), Base(ReadEhdr(b))) + if linker.None? then [] else ImageVisits(linker.value)
  }

  /** How the build of an accepted image ends: a frame for the PML4, then the program and the stack,
      then the search for the linker, then the linker. */
  ghost function BuildStatus(b: Image, interp: Option<seq<byte>>, find: seq<byte> -> Option<Image>, free: nat, nx: bool): Status
    requires Accepted(b)
  {
    if free == 0 then NoMem
    else if Verdict(AllVisits(b, None), 0, free, nx) != Ok || interp.None? then Verdict(AllVisits(b, None), 0, free, nx)
    else if !GoodLinker(find(interp.value)) then NoExec
    else Verdict(AllVisits(b, find(interp.value)), 0, free, nx)
  }

  lemma BuildCases(b: Image, interp: Option<seq<byte>>, find: seq<byte> -> Option<Image>, free: nat, nx: bool)
    requires Accepted(b)
    ensures var plan := Plan(Phdrs(b), Base(ReadEhdr(b)));
            BuildStatus(b, interp, find, free, nx) ==
            if free == 0 then NoMem
            else if Verdict(plan, 0, free, nx) != Ok || interp.None? then Verdict(plan, 0, free, nx)
            else if !GoodLinker(find(interp.value)) then NoExec
            else Verdict(plan + ImageVisits(find(interp.value).value), |plan|, free, nx)
  {
    hide Verdict, ReadEhdr, Headers, Plan, ImageVisits, TableOk;
    var plan := Plan(Phdrs(b), Base(ReadEhdr(b)));
    assert plan + [] == plan;
    if interp.Some? && GoodLinker(find(interp.value)) {
      VerdictOn(plan, plan + ImageVisits(find(interp.value).value), 0, free, nx);
    }
  }

  /** The new space of an image: built completely, or every frame given back. */
  method BuildImage(mc: Machine, ld: Loader, find: seq<byte> -> Option<Image>, nx: bool)
    returns (r: Status, c: nat, entry: nat, rsp: nat)
    requires mc.Ready() && AllSound(find)
    requires Loadable(ld.image) && ld.base == Base(ReadEhdr(ld.image)) && ld.entry == ReadEhdr(ld.image).entry
    modifies mc, mc.pmm, mc.pmm.bitmap
    ensures !r.Ok? ==> PutBack(mc, old(mc.mem), old(mc.spaces), old(mc.owner), old(mc.pmm.FreeSet()))
    ensures r.Ok? ==> Loading(mc, c, nx, old(mc.mem), old(mc.spaces), old(mc.owner), old(mc.pmm.FreeSet())) && rsp == RSP
    ensures r.Ok? ==> Started(ld, find, entry) && Holding(mc.mem, c, ld, LinkerOf(ld.interp, find), nx)
    ensures r == BuildStatus(ld.image, ld.interp, find, |old(mc.pmm.FreeSet())|, nx)
  {
    hide *;
    ghost var m0, sp0, ow0, free0 := mc.mem, mc.spaces, mc.owner, mc.pmm.FreeSet();
    LoadableParts(ld.image);
    BuildCases(ld.image, ld.interp, find, |free0|, nx);
    entry, rsp := 0, 0;
    c := NewScratch(mc, nx);
    if c == 0 {
      return NoMem, 0, 0, 0;
    }
    LoadableParts(ld.image);
    r, entry, rsp := LoadInto(mc, c, ld, Phdrs(ld.image), nx, m0, sp0, ow0, free0);
    ghost var m1 := mc.mem;
    if r.Ok? && ld.interp.Some? {
      r, entry := LoadInterp(mc, c, ld.interp.value, find, nx, Plan(Phdrs(ld.image), ld.base), m0, sp0, ow0, free0);
    }
    if !r.Ok? {
      LoadingBuilds(mc, c, nx, m0, sp0, ow0, free0);
      Undo(mc, c, m0, sp0, ow0, free0);
      PutBackIs(mc, m0, sp0, ow0, free0);
    } else {
      StartedIs(ld, find, entry);
      if ld.interp.None? {
        HoldingAlone(mc.mem, c, ld, find, nx);
      } else {
        HoldingBoth(m1, mc.mem, c, ld, find, nx);
      }
    }
  }

  /** The linker, if the program names one, is there and loadable, and control goes to it. */
  ghost predicate Started(ld: Loader, find: seq<byte> -> Option<Image>, entry: nat) {
    && Loadable(ld.image)
    && (ld.interp.Some? ==> LinkerOf(ld.interp, find).Some?)
    && (LinkerOf(ld.interp, find).Some? ==> Loadable(LinkerOf(ld.interp, find).value))
    && entry == EntryOf(if ld.interp.None? then ld.image else LinkerOf(ld.interp, find).value)
  }

  lemma LoadableParts(b: Image)
    requires Loadable(b)
    ensures Accepted(b) && EHDR_SIZE <= |b| && HeaderOk(ReadEhdr(b), |b|) && Layout(Phdrs(b), Base(ReadEhdr(b)), |b|)
  {
    hide TableOk, Layout;
  }

  lemma StartedIs(ld: Loader, find: seq<byte> -> Option<Image>, entry: nat)
    requires Loadable(ld.image) && ld.base == Base(ReadEhdr(ld.image)) && ld.entry == ReadEhdr(ld.image).entry
    requires ld.interp.None? ==> entry == Add64(ld.entry, ld.base)
    requires ld.interp.Some? ==> find(ld.interp.value).Some? && Loadable(find(ld.interp.value).value) && entry == EntryOf(find(ld.interp.value).value)
    ensures Started(ld, find, entry)
  {
    hide TableOk, Layout, ReadEhdr;
  }

  lemma HoldingAlone(m: Memory, c: nat, ld: Loader, find: seq<byte> -> Option<Image>, nx: bool)
    requires Loadable(ld.image) && ld.base == Base(ReadEhdr(ld.image)) && ld.interp.None?
    requires Exact(m, c, ld.image, Phdrs(ld.image), ld.base) && FinalMap(m, c, Phdrs(ld.image), ld.base, nx)
    requires UserCopy.Holds(m, c, RSP, Encode(StackWords(ld, |Phdrs(ld.image)|, ARGV0_AT))) && UserCopy.Holds(m, c, ARGV0_AT, ARGV0)
    ensures Holding(m, c, ld, LinkerOf(ld.interp, find), nx)
  {
    hide Loadable, Exact, FinalMap, UserCopy.Holds, Headers, ReadEhdr, Layout, Accepted;
  }

  lemma HoldingBoth(m1: Memory, m: Memory, c: nat, ld: Loader, find: seq<byte> -> Option<Image>, nx: bool)
    requires Loadable(ld.image) && ld.base == Base(ReadEhdr(ld.image)) && ld.interp.Some?
    requires Exact(m1, c, ld.image, Phdrs(ld.image), ld.base) && FinalMap(m1, c, Phdrs(ld.image), ld.base, nx)
    requires UserCopy.Holds(m1, c, RSP, Encode(StackWords(ld, |Phdrs(ld.image)|, ARGV0_AT))) && UserCopy.Holds(m1, c, ARGV0_AT, ARGV0)
    requires find(ld.interp.value).Some? && Loadable(find(ld.interp.value).value)
    requires var l := find(ld.interp.value).value;
             && Perms(m1, m, c, Phdrs(l), Base(ReadEhdr(l)), |Phdrs(l)|, 0, nx)
             && Laden(m1, m, c, l, Phdrs(l), Base(ReadEhdr(l)))
    ensures Holding(m, c, ld, LinkerOf(ld.interp, find), nx)
  {
    hide Exact, FinalMap, UserCopy.Holds, Headers, ReadEhdr, Layout, Accepted, JointExact, JointMap, Laden, Perms, Encode, StackWords;
    var b, l := ld.image, find(ld.interp.value).value;
    LoadableParts(b);
    LoadableParts(l);
    JointExactIs(m1, m, c, b, Phdrs(b), ld.base, l, Phdrs(l), Base(ReadEhdr(l)));
    JointMapIs(m1, m, c, Phdrs(b), ld.base, Phdrs(l), Base(ReadEhdr(l)), |l|, nx);
    StackKept(m1, m, c, l, Phdrs(l), Base(ReadEhdr(l)), RSP, Encode(StackWords(ld, |Phdrs(b)|, ARGV0_AT)));
    StackKept(m1, m, c, l, Phdrs(l), Base(ReadEhdr(l)), ARGV0_AT, ARGV0);
  }

  lemma LoadingBuilds(mc: Machine, c: nat, nx: bool, m0: Memory, sp0: Spaces, ow0: Owners, free0: set<nat>)
    requires Loading(mc, c, nx, m0, sp0, ow0, free0)
    ensures Building(mc, c, m0, sp0, ow0, free0)
  {
    hide Building, Agrees, WxSafe;
  }

  lemma PutBackIs(mc: Machine, m0: Memory, sp0: Spaces, ow0: Owners, free0: set<nat>)
    requires mc.Ready() && mc.spaces == sp0 && mc.owner == ow0 && mc.pmm.FreeSet() == free0
    requires LeavesSame(m0, mc.mem, sp0) && DataSame(m0, mc.mem, ow0)
    ensures PutBack(mc, m0, sp0, ow0, free0)
  {
    hide Machine.Ready, LeavesSame, DataSame, Pmm.FreeSet;
  }

  // -----------------------------------------------------------------------------
  // The swap

  datatype Outcome = Done | Fault | Failed(status: Status)

  /** The old space of the process is gone, all its frames are free again, and the new space has
      only frames that were free before; no other space changed. */
  ghost predicate Swapped(mc: Machine, s: nat, c: nat, nx: bool, m0: Memory, sp0: Spaces, ow0: Owners, free0: set<nat>)
    reads mc, mc.pmm, mc.pmm.bitmap
  {
    && mc.Ready() && s in sp0 && c !in sp0 && c in mc.spaces && mc.spaces == (sp0 - {s})[c := mc.spaces[c]]
    && FramesOf(mc.owner, c) <= free0
    && mc.pmm.FreeSet() == free0 + FramesOf(ow0, s) - FramesOf(mc.owner, c)
    && LeavesSame(m0, mc.mem, sp0 - {s}) && DataSame(m0, mc.mem, ow0 - FramesOf(ow0, s)) && Handover(ow0, mc.owner, s, c)
    && Agrees(mc.mem, c, mc.spaces[c]) && WxSafe(mc.mem, c, nx)
  }

  /** The frames of `s` go, those of `c` come, and all others stay with their owner. */
  ghost predicate Handover(ow: Owners, ow': Owners, s: nat, c: nat) {
    && (forall f {:trigger ow[f]} :: f in ow && ow[f].space != s ==> f in ow' && ow'[f] == ow[f])
    && (forall f {:trigger ow'[f]} :: f in ow' && ow'[f].space != c ==> f in ow && ow[f] == ow'[f])
  }

  lemma HandedOver(ow0: Owners, ow1: Owners, s: nat, c: nat)
    requires Extends(ow0, ow1, c) && FramesOf(ow1, s) == FramesOf(ow0, s)
    ensures Handover(ow0, ow1 - FramesOf(ow1, s), s, c)
  {
    var ow2: Owners := ow1 - FramesOf(ow1, s);
    forall f | f in ow0 && ow0[f].space != s
      ensures f in ow2 && ow2[f] == ow0[f]
    {
      assert ow1[f] == ow0[f] && f !in FramesOf(ow0, s);
    }
    forall f | f in ow2 && ow2[f].space != c
      ensures f in ow0 && ow0[f] == ow2[f]
    {
      assert ow1[f] == ow2[f];
    }
  }

  /** A space that is neither destroyed nor written reads as before. */
  lemma Survives(m: Memory, m': Memory, sp: Spaces, ow: Owners, c: nat)
    requires c in sp && LeavesSame(m, m', sp) && DataSame(m, m', ow) && Private(m, c, ow)
    ensures SameMap(m, m', c) && BytesSame(m, m', c)
  {
    hide Leaf, UserPage, PageOf;
    forall a: nat | a < USER_BYTES
      ensures ByteAt(m', c, a) == ByteAt(m, c, a)
    {
      UserAddress(a);
      var v := PageOf(a / FRAME_BYTES);
      assert Leaf(m', c, v) == Leaf(m, c, v);
      if Leaf(m, c, v).flags.present {
        assert m'[Leaf(m, c, v).frame] == m[Leaf(m, c, v).frame];
      }
    }
  }

  /** What a running process reads: without a linker every segment of the program; with one every
      segment of both images exactly when they ask for the same bytes wherever they overlap. */
  lemma ImagesReadBack(m: Memory, c: nat, ld: Loader, linker: Option<Image>, nx: bool)
    requires Loadable(ld.image) && (linker.Some? ==> Loadable(linker.value)) && Holding(m, c, ld, linker, nx)
    ensures linker.None? ==> Filled(m, c, ld.image, Phdrs(ld.image), Base(ReadEhdr(ld.image)))
    ensures linker.Some? ==>
              var b, l := ld.image, linker.value;
              (Filled(m, c, b, Phdrs(b), Base(ReadEhdr(b))) && Filled(m, c, l, Phdrs(l), Base(ReadEhdr(l))) <==>
               Compatible(b, Phdrs(b), Base(ReadEhdr(b)), l, Phdrs(l), Base(ReadEhdr(l))))
  {
    hide Accepted, FinalMap, JointMap, Exact, JointExact, Headers, ReadEhdr, HeaderOk, Layout, Filled, Compatible, StackIs;
    var b := ld.image;
    LoadableParts(b);
    match linker
    case None =>
      ExactFilled(m, c, b, Phdrs(b), Base(ReadEhdr(b)));
    case Some(l) =>
      LoadableParts(l);
      BothFilledIff(m, c, b, Phdrs(b), Base(ReadEhdr(b)), l, Phdrs(l), Base(ReadEhdr(l)));
  }

  lemma HoldingSurvives(m: Memory, m': Memory, c: nat, ld: Loader, linker: Option<Image>, nx: bool)
    requires Loadable(ld.image) && (linker.Some? ==> Loadable(linker.value))
    requires Holding(m, c, ld, linker, nx) && SameMap(m, m', c) && BytesSame(m, m', c)
    ensures Holding(m', c, ld, linker, nx)
  {
    hide Accepted, SameMap, BytesSame, FinalMap, JointMap, Exact, JointExact, Headers, ReadEhdr, HeaderOk, Layout, Encode, StackWords;
    var b := ld.image;
    LoadableParts(b);
    HoldsSame(m, m', c, RSP, Encode(StackWords(ld, |Phdrs(b)|, ARGV0_AT)));
    HoldsSame(m, m', c, ARGV0_AT, ARGV0);
    match linker
    case None =>
      ExactSame(m, m', c, b, Phdrs(b), Base(ReadEhdr(b)));
      FinalMapSame(m, m', c, Phdrs(b), Base(ReadEhdr(b)), nx);
    case Some(l) =>
      LoadableParts(l);
      JointSame(m, m', c, b, Phdrs(b), Base(ReadEhdr(b)), l, Phdrs(l), Base(ReadEhdr(l)));
      JointMapSame(m, m', c, Phdrs(b), Base(ReadEhdr(b)), Phdrs(l), Base(ReadEhdr(l)), nx);
  }

  lemma ExactSame(m: Memory, m': Memory, c: nat, b: Image, phs: seq<Phdr>, base: nat)
    requires Layout(phs, base, |b|) && Exact(m, c, b, phs, base) && BytesSame(m, m', c)
    ensures Exact(m', c, b, phs, base)
  {
    hide ByteAt, Touched, Layout, Want, SomeFile;
    forall i, a: nat | 0 <= i < |phs| && InFile(phs[i], base, a)
      ensures ByteAt(m', c, a) == Some(Want(b, phs[i], base, a))
    {
      LayoutAt(phs, base, |b|, i);
    }
  }

  lemma JointSame(m: Memory, m': Memory, c: nat, b1: Image, phs1: seq<Phdr>, base1: nat, b2: Image, phs2: seq<Phdr>, base2: nat)
    requires Layout(phs1, base1, |b1|) && Layout(phs2, base2, |b2|)
    requires JointExact(m, c, b1, phs1, base1, b2, phs2, base2) && BytesSame(m, m', c)
    ensures JointExact(m', c, b1, phs1, base1, b2, phs2, base2)
  {
    hide ByteAt, Touched, Layout, Want, SomeFile;
    forall j, a: nat | 0 <= j < |phs2| && InFile(phs2[j], base2, a)
      ensures ByteAt(m', c, a) == Some(Want(b2, phs2[j], base2, a))
    {
      LayoutAt(phs2, base2, |b2|, j);
    }
    forall i, a: nat | 0 <= i < |phs1| && InFile(phs1[i], base1, a) && !SomeFile(phs2, base2, |phs2|, a)
      ensures ByteAt(m', c, a) == Some(Want(b1, phs1[i], base1, a))
    {
      LayoutAt(phs1, base1, |b1|, i);
    }
  }

  lemma JointMapSame(m: Memory, m': Memory, c: nat, phs1: seq<Phdr>, base1: nat, phs2: seq<Phdr>, base2: nat, nx: bool)
    requires JointMap(m, c, phs1, base1, phs2, base2, nx) && SameMap(m, m', c)
    ensures JointMap(m', c, phs1, base1, phs2, base2, nx)
  {
    hide Leaf, PageOf, JointlyAsked, UserPage;
    forall q: nat | q < USER_PAGES
      ensures Leaf(m', c, PageOf(q)) == Leaf(m, c, PageOf(q))
    {
      UserNumber(q);
    }
  }

  lemma HoldsSame(m: Memory, m': Memory, c: nat, at: nat, b: seq<byte>)
    requires BytesSame(m, m', c) && UserCopy.Holds(m, c, at, b) && at + |b| <= USER_BYTES
    ensures UserCopy.Holds(m', c, at, b)
  {
    hide ByteAt;
    forall k: nat | k < |b|
      ensures ByteAt(m', c, at + k) == Some(b[k])
    {
      assert ByteAt(m, c, at + k) == Some(b[k]);
    }
  }

  /** Destroys the old user space under the new one. */
  method Swap(mc: Machine, s: nat, c: nat, nx: bool, ghost m0: Memory, ghost sp0: Spaces, ghost ow0: Owners, ghost free0: set<nat>)
    requires Loading(mc, c, nx, m0, sp0, ow0, free0) && s in sp0
    modifies mc, mc.pmm, mc.pmm.bitmap
    ensures Swapped(mc, s, c, nx, m0, sp0, ow0, free0)
    ensures SameMap(old(mc.mem), mc.mem, c) && BytesSame(old(mc.mem), mc.mem, c)
  {
    hide Inv, Machine.Ready, Pmm.FreeSet, Partition, LeavesSame, DataSame, Extends, Agrees, WxSafe, SameMap, BytesSame, FramesOf,
         Private, Handover;
    ghost var m1, sp1, ow1, free1 := mc.mem, mc.spaces, mc.owner, mc.pmm.FreeSet();
    LoadingReady(mc, c, nx, m0, sp0, ow0, free0);
    AgreesPrivate(m1, sp1, ow1, c);
    SwapFrames(mc, m0, sp0, ow0, free0, s, c);
    PagesUser(mc, c);
    DestroySpace(mc, s);
    PrivateStays(m1, ow1, s, c);
    Survives(m1, mc.mem, mc.spaces, mc.owner, c);
    SwapViews(m0, m1, mc.mem, sp0, sp1, ow0, ow1, s, c, nx);
    SwapPartition(mc, sp0, ow0, ow1, free0, free1, s, c);
    HandedOver(ow0, ow1, s, c);
  }

  /** Frames of the old space are the same before and after the build, and the new space has
      only frames that were free. */
  lemma SwapFrames(mc: Machine, m0: Memory, sp0: Spaces, ow0: Owners, free0: set<nat>, s: nat, c: nat)
    requires Building(mc, c, m0, sp0, ow0, free0) && s in sp0
    ensures FramesOf(mc.owner, s) == FramesOf(ow0, s) && FramesOf(mc.owner, c) <= free0
    ensures mc.pmm.FreeSet() == free0 - FramesOf(mc.owner, c) && FramesOf(ow0, s) !! FramesOf(mc.owner, c) && FramesOf(ow0, s) !! free0
    ensures s != c
  {
    hide Inv, Partition, LeavesSame, DataSame, Extends, KernelShared, RecordsBounded, Pmm.FreeSet, Pmm.Sized, FramesOf;
    OwnersLive(m0, sp0, ow0);
    NewFrames(ow0, mc.owner, sp0, s, c);
    SwapSets(mc.pmm.FreeSet(), free0, ow0, mc.owner, mc.pool, s, c);
  }

  lemma OwnersLive(m: Memory, sp: Spaces, ow: Owners)
    requires Inv(m, sp, ow)
    ensures forall f :: f in ow ==> ow[f].space in sp
  {
    hide NoHuge, NodesOwned, DataOwned;
    forall f | f in ow
      ensures ow[f].space in sp
    {
      assert ow[f] == ow[f];
    }
  }

  lemma NewFrames(ow0: Owners, ow1: Owners, sp0: Spaces, s: nat, c: nat)
    requires Extends(ow0, ow1, c) && s in sp0 && c !in sp0 && forall f :: f in ow0 ==> ow0[f].space in sp0
    ensures FramesOf(ow1, s) == FramesOf(ow0, s) && FramesOf(ow1, c) == ow1.Keys - ow0.Keys && ow0.Keys <= ow1.Keys
  {
    forall f | f in ow0
      ensures f in ow1 && ow1[f] == ow0[f] && ow0[f].space != c
    {
      assert ow0[f] == ow1[f];
    }
    forall f | f in ow1 && f !in ow0
      ensures ow1[f].space == c
    {
      assert ow1[f] == ow1[f];
    }
  }

  lemma SwapSets(free: set<nat>, free0: set<nat>, ow0: Owners, ow1: Owners, pool: set<nat>, s: nat, c: nat)
    requires Partition(free, ow1.Keys, {}, pool) && Partition(free0, ow0.Keys, {}, pool) && ow0.Keys <= ow1.Keys
    requires FramesOf(ow1, c) == ow1.Keys - ow0.Keys
    ensures FramesOf(ow1, c) <= free0 && free == free0 - FramesOf(ow1, c)
    ensures FramesOf(ow0, s) !! FramesOf(ow1, c) && FramesOf(ow0, s) !! free0
  {
  }

  lemma PrivateStays(m: Memory, ow: Owners, s: nat, c: nat)
    requires Private(m, c, ow) && s != c
    ensures Private(m, c, ow - FramesOf(ow, s))
  {
    hide Leaf, UserPage;
  }

  lemma SwapViews(m0: Memory, m1: Memory, m2: Memory, sp0: Spaces, sp1: Spaces, ow0: Owners, ow1: Owners, s: nat, c: nat, nx: bool)
    requires c !in sp0 && c in sp1 && sp1 == sp0[c := sp1[c]] && s in sp0 && FramesOf(ow1, s) == FramesOf(ow0, s)
    requires LeavesSame(m0, m1, sp0) && LeavesSame(m1, m2, sp1 - {s}) && Extends(ow0, ow1, c)
    requires DataSame(m0, m1, ow0) && DataSame(m1, m2, ow1 - FramesOf(ow1, s))
    requires Agrees(m1, c, sp1[c]) && WxSafe(m1, c, nx) && SameMap(m1, m2, c)
    requires forall i :: 0 <= i < |sp1[c]| ==> UserPage(PageOf(sp1[c][i].virt))
    ensures LeavesSame(m0, m2, sp0 - {s}) && DataSame(m0, m2, ow0 - FramesOf(ow0, s))
    ensures Agrees(m2, c, sp1[c]) && WxSafe(m2, c, nx) && sp1 - {s} == (sp0 - {s})[c := sp1[c]]
  {
    hide Leaf, UserPage, PageOf;
    forall t, v | t in sp0 - {s} && UserPage(v)
      ensures Leaf(m2, t, v) == Leaf(m0, t, v)
    {
      assert t in sp1 - {s};
    }
    var ow2: Owners, ow3: Owners := ow0 - FramesOf(ow0, s), ow1 - FramesOf(ow1, s);
    forall f | f in ow2 && ow2[f].DataOf? && f < |m0|
      ensures m2[f] == m0[f]
    {
      assert ow0[f] == ow1[f] && m1[f] == m0[f];
      assert ow3[f] == ow1[f];
    }
  }

  lemma SwapPartition(mc: Machine, sp0: Spaces, ow0: Owners, ow1: Owners, free0: set<nat>, free1: set<nat>, s: nat, c: nat)
    requires mc.owner == ow1 - FramesOf(ow1, s) && FramesOf(ow1, s) == FramesOf(ow0, s) && s != c
    requires FramesOf(ow1, c) <= free0 && FramesOf(ow0, s) !! FramesOf(ow1, c) && FramesOf(ow0, s) !! free0
    requires free1 == free0 - FramesOf(ow1, c) && mc.pmm.FreeSet() == free1 + FramesOf(ow1, s)
    ensures FramesOf(mc.owner, c) <= free0 && mc.pmm.FreeSet() == free0 + FramesOf(ow0, s) - FramesOf(mc.owner, c)
  {
    hide Pmm.FreeSet;
    assert FramesOf(mc.owner, c) == FramesOf(ow1, c);
  }

  /** The name at `upath`, NUL-terminated in a kernel buffer of 32 bytes. */
  method FetchName(mc: Machine, s: nat, upath: nat) returns (r: Option<seq<byte>>)
    requires mc.Ready() && s in mc.spaces && Private(mc.mem, s, mc.owner) && upath < WORD
    ensures r.Some? <==> UserCopy.RangeOk(mc.mem, s, upath, NAME_LEN, false)
    ensures r.Some? ==> |r.value| == NAME_LEN + 1 && r.value[NAME_LEN] == 0 && UserCopy.Holds(mc.mem, s, upath, r.value[..NAME_LEN])
  {
    hide *;
    assert NAME_LEN < WORD by { NameFits(); }
    var buf := new byte[NAME_LEN + 1];
    var ok := UserCopy.CopyFromUser(mc, s, buf, upath, NAME_LEN);
    if !ok {
      return None;
    }
    ghost var name := buf[..NAME_LEN];
    buf[NAME_LEN] := 0;
    assert buf[..][..NAME_LEN] == name;
    return Some(buf[..]);
  }

  /** The interpreter path of an accepted image. */
  ghost function LinkerPath(b: Image): Option<seq<byte>>
    requires Accepted(b) && |b| < USER_BYTES
  {
    InterpInside(b, Phdrs(b), Base(ReadEhdr(b)), ReadEhdr(b).entry);
    Interp(b, Phdrs(b))
  }

  /** How an attempt to run image `b` with `free` free frames ends. */
  ghost function Expected(b: Image, find: seq<byte> -> Option<Image>, free: nat, nx: bool): Status
    requires |b| < USER_BYTES
  {
    if !Accepted(b) then NoExec else BuildStatus(b, LinkerPath(b), find, free, nx)
  }

  lemma ExpectedCases(b: Image, find: seq<byte> -> Option<Image>, free: nat, nx: bool)
    requires Sound(b)
    ensures |b| < USER_BYTES
    ensures Expected(b, find, free, nx) == if Accepted(b) then BuildStatus(b, LinkerPath(b), find, free, nx) else NoExec
    ensures Accepted(b) ==>
              && (forall i :: 0 <= i < |Headers(b, ReadEhdr(b))| && Headers(b, ReadEhdr(b))[i].kind == PT_INTERP ==>
                    Headers(b, ReadEhdr(b))[i].offset + Headers(b, ReadEhdr(b))[i].filesz <= |b|)
              && LinkerPath(b) == Interp(b, Headers(b, ReadEhdr(b)))
  {
    hide TableOk, ReadEhdr, Headers, Interp, BuildStatus, NoneWraps;
    if Accepted(b) {
      InterpInside(b, Phdrs(b), Base(ReadEhdr(b)), ReadEhdr(b).entry);
    }
  }

  /** The pages of a whole load, and what they are visited for, by headers alone. */
  lemma PlanPages(b: Image, linker: Option<Image>, q: nat)
    requires Accepted(b) && (linker.Some? ==> Accepted(linker.value))
    ensures var vs, phs, base := AllVisits(b, linker), Phdrs(b), Base(ReadEhdr(b));
            var phs2, base2 := if linker.None? then [] else Phdrs(linker.value), if linker.None? then 0 else Base(ReadEhdr(linker.value));
            && (q in Pages(vs) <==> OnStack(q, STACK_PAGES) || Touched(phs, base, |phs|, 0, q) || Touched(phs2, base2, |phs2|, 0, q))
            && (Writes(vs, q) <==> OnStack(q, STACK_PAGES) || Writable(phs, base, |phs|, 0, q) || Writable(phs2, base2, |phs2|, 0, q))
            && (Executes(vs, q) <==> Executable(phs, base, |phs|, 0, q) || Executable(phs2, base2, |phs2|, 0, q))
  {
    hide ReadEhdr, Headers, TableOk, Visits, StackVisits, Pages, Writes, Executes;
    var phs, base := Phdrs(b), Base(ReadEhdr(b));
    VisitsTouch(phs, base, q);
    StackTouch(q);
    VisitsJoin(Visits(phs, base, |phs|), StackVisits(), q);
    var more := if linker.None? then [] else ImageVisits(linker.value);
    VisitsJoin(Plan(phs, base), more, q);
    if linker.Some? {
      VisitsTouch(Phdrs(linker.value), Base(ReadEhdr(linker.value)), q);
    } else {
      PagesBy([], q);
    }
  }

  /** A linker is there if one is named, accepted, and names none itself. */
  ghost predicate LinkerFine(b: Image, find: seq<byte> -> Option<Image>)
    requires Accepted(b) && |b| < USER_BYTES
  {
    LinkerPath(b).Some? ==> GoodLinker(find(LinkerPath(b).value))
  }

  /** All visits of a program and, if it names one that is fine, its linker. */
  ghost function WholePlan(b: Image, find: seq<byte> -> Option<Image>): seq<Visit>
    requires Accepted(b) && |b| < USER_BYTES && LinkerFine(b, find)
  {
    AllVisits(b, LinkerOf(LinkerPath(b), find))
  }

  /** The attempt succeeds exactly when the image is accepted, its linker is fine, no page would be
      writable and executable, and the pages of both images and the stack can be had. */
  lemma ExpectedOkIff(b: Image, find: seq<byte> -> Option<Image>, free: nat, nx: bool)
    requires Sound(b) && AllSound(find)
    ensures |b| < USER_BYTES
    ensures Expected(b, find, free, nx) == Ok <==>
              Accepted(b) && LinkerFine(b, find) && (nx ==> NoneMixed(WholePlan(b, find))) && Affordable(Pages(WholePlan(b, find)), free)
  {
    hide ReadEhdr, Headers, TableOk, Verdict, AllVisits, Interp, NoneWraps, NoneMixed, Pages, Affordable, GoodLinker;
    if Accepted(b) {
      var plan := AllVisits(b, None);
      AllSane(b, None);
      VerdictOkIff(plan, free, nx);
      NeedsFrames(Pages(plan), free);
      if LinkerPath(b).Some? && GoodLinker(find(LinkerPath(b).value)) {
        var linker := find(LinkerPath(b).value);
        GoodParts(linker);
        var whole := AllVisits(b, linker);
        AllSane(b, linker);
        VerdictOkIff(whole, free, nx);
        PlanFirst(b, linker, free, nx);
      }
    }
  }

  /** When everything else is right, too few frames or records give NOMEM; when there are enough of
      them, NOEXEC means one of the other causes. */
  lemma ExpectedFails(b: Image, find: seq<byte> -> Option<Image>, free: nat, nx: bool)
    requires Sound(b) && AllSound(find)
    ensures |b| < USER_BYTES
    ensures Accepted(b) && LinkerFine(b, find) && (nx ==> NoneMixed(WholePlan(b, find))) ==>
              (Expected(b, find, free, nx) == NoMem <==> !Affordable(Pages(WholePlan(b, find)), free))
    ensures Accepted(b) && LinkerFine(b, find) && Affordable(Pages(WholePlan(b, find)), free) ==>
              (Expected(b, find, free, nx) == NoExec <==> nx && !NoneMixed(WholePlan(b, find)))
    ensures Accepted(b) && !LinkerFine(b, find) && Affordable(Pages(AllVisits(b, None)), free) ==> Expected(b, find, free, nx) == NoExec
  {
    hide ReadEhdr, Headers, TableOk, Interp, NoneWraps, GoodLinker, AllVisits, Verdict, Makes, NoneMixed, Affordable, Pages, Mixed, Short;
    ExpectedOkIff(b, find, free, nx);
    if Accepted(b) {
      AllSane(b, None);
      CauseOf(AllVisits(b, None), free, nx);
      NeedsFrames(Pages(AllVisits(b, None)), free);
      if LinkerFine(b, find) {
        var linker := LinkerOf(LinkerPath(b), find);
        if linker.Some? {
          GoodParts(linker);
        }
        AllSane(b, linker);
        CauseOf(AllVisits(b, linker), free, nx);
        PlanFirst(b, linker, free, nx);
        NeedsFrames(Pages(AllVisits(b, linker)), free);
      }
    }
  }

  /** A load without a mixed page never ends in NOEXEC, one that can be paid for never in NOMEM. */
  lemma CauseOf(vs: seq<Visit>, free: nat, nx: bool)
    requires Sane(vs) && vs != []
    ensures (nx ==> NoneMixed(vs)) ==> Verdict(vs, 0, free, nx) != NoExec
    ensures Affordable(Pages(vs), free) ==> Verdict(vs, 0, free, nx) != NoMem
  {
    hide Affordable, Verdict;
    VerdictIff(vs, free, nx);
    forall j: nat | j < |vs|
      ensures Mixed(vs, j) ==> !NoneMixed(vs)
      ensures Short(vs, j, free) ==> !Affordable(Pages(vs), free)
    {
      if Mixed(vs, j) {
        var i :| 0 <= i < j + 1 && vs[..j + 1][i].q == vs[j].q && vs[..j + 1][i].write;
        var k :| 0 <= k < j + 1 && vs[..j + 1][k].q == vs[j].q && vs[..j + 1][k].exec;
        assert vs[i] == vs[..j + 1][i] && vs[k] == vs[..j + 1][k];
        assert Writes(vs, vs[j].q) && Executes(vs, vs[j].q);
      }
      PagesPrefix(vs, j + 1);
      LessAffordable(Pages(vs[..j + 1]), Pages(vs), free);
    }
  }

  lemma PagesPrefix(vs: seq<Visit>, j: nat)
    requires j <= |vs|
    ensures Pages(vs[..j]) <= Pages(vs)
  {
    forall q | q in Pages(vs[..j])
      ensures q in Pages(vs)
    {
      var i :| 0 <= i < j && vs[..j][i].q == q;
      assert vs[i] == vs[..j][i];
    }
  }

  lemma NeedsFrames(pages: set<nat>, free: nat)
    ensures Affordable(pages, free) ==> 0 < free
  {
  }

  lemma GoodParts(linker: Option<Image>)
    requires GoodLinker(linker)
    ensures linker.Some? && Accepted(linker.value) && EHDR_SIZE <= |linker.value| && HeaderOk(ReadEhdr(linker.value), |linker.value|)
  {
    hide TableOk, ReadEhdr, Headers;
  }

  /** The program is loaded before the linker, so it fails first. */
  lemma PlanFirst(b: Image, linker: Option<Image>, free: nat, nx: bool)
    requires Accepted(b) && (linker.Some? ==> Accepted(linker.value))
    ensures AllVisits(b, None) <= AllVisits(b, linker) && AllVisits(b, None) != []
    ensures Verdict(AllVisits(b, None), 0, free, nx) != Ok ==> Verdict(AllVisits(b, linker), 0, free, nx) == Verdict(AllVisits(b, None), 0, free, nx)
  {
    hide ReadEhdr, Headers, TableOk, Verdict, Visits;
    VerdictOn(AllVisits(b, None), AllVisits(b, linker), 0, free, nx);
  }

  /** Accepted segments are not both writable and executable, and the stack is not executable. */
  lemma AllSane(b: Image, linker: Option<Image>)
    requires Accepted(b) && (linker.Some? ==> Accepted(linker.value))
    ensures Sane(AllVisits(b, linker)) && AllVisits(b, linker) != []
  {
    hide ReadEhdr, Headers;
    SaneVisits(Phdrs(b), Base(ReadEhdr(b)), ReadEhdr(b).entry, |b|);
    if linker.Some? {
      SaneVisits(Phdrs(linker.value), Base(ReadEhdr(linker.value)), ReadEhdr(linker.value).entry, |linker.value|);
    }
  }

  lemma SaneVisits(phs: seq<Phdr>, base: nat, entry: nat, size: nat)
    requires TableOk(phs, base, entry, size)
    ensures Sane(Visits(phs, base, |phs|))
  {
    hide Visits, First, Last, Loads, Overlap;
    var vs := Visits(phs, base, |phs|);
    forall k | 0 <= k < |vs|
      ensures !(vs[k].write && vs[k].exec)
    {
      assert vs[k] in vs;
      VisitIff(phs, base, |phs|, vs[k]);
      var i :| 0 <= i < |phs| && IsLoad(phs[i]) && First(phs[i], base) <= vs[k].q <= Last(phs[i], base) && vs[k].write == phs[i].Write() && vs[k].exec == phs[i].Exec();
      assert EachOk(phs[i], base, size);
    }
  }

  /** From validation on: the process runs image `b`, or everything is as before. */
  method RunImage(mc: Machine, p: Process, b: Image, find: seq<byte> -> Option<Image>, nx: bool) returns (st: Status)
    requires mc.Ready() && AllSound(find) && Sound(b) && p.cr3 in mc.spaces
    modifies mc, mc.pmm, mc.pmm.bitmap, p
    ensures !st.Ok? ==> PutBack(mc, old(mc.mem), old(mc.spaces), old(mc.owner), old(mc.pmm.FreeSet()))
    ensures !st.Ok? ==> p.cr3 == old(p.cr3) && p.heapStart == old(p.heapStart) && p.brk == old(p.brk) && p.brkPerm == old(p.brkPerm) && p.rip == old(p.rip) && p.rsp == old(p.rsp)
    ensures st.Ok? ==> Swapped(mc, old(p.cr3), p.cr3, nx, old(mc.mem), old(mc.spaces), old(mc.owner), old(mc.pmm.FreeSet()))
    ensures st.Ok? ==> p.rsp == RSP && p.brkPerm == HeapPerm(nx) && Runs(mc.mem, p.cr3, p.rip, p.heapStart, p.brk, b, find, nx)
    ensures st == Expected(b, find, |old(mc.pmm.FreeSet())|, nx)
  {
    hide *;
    ExpectedCases(b, find, |mc.pmm.FreeSet()|, nx);
    ghost var m0, sp0, ow0, free0 := mc.mem, mc.spaces, mc.owner, mc.pmm.FreeSet();
    PutBackNow(mc);
    assert |b| < USER_BYTES by { SoundSize(b); }
    var ld := Validate(b);
    if ld.None? {
      return NoExec;
    }
    AcceptedHeader(b);
    PhdrsAre(b);
    SoundLayout(b);
    var c, entry, rsp;
    st, c, entry, rsp := BuildImage(mc, ld.value, find, nx);
    if !st.Ok? {
      return;
    }
    var end := LoadEnd(Phdrs(b), ld.value.base);
    ghost var m1 := mc.mem;
    Swap(mc, p.cr3, c, nx, m0, sp0, ow0, free0);
    StartedParts(ld.value, find, entry);
    HoldingSurvives(m1, mc.mem, c, ld.value, LinkerOf(ld.value.interp, find), nx);
    p.cr3 := c;
    p.heapStart := PageUp(end);
    p.brk := PageUp(end) + FRAME_BYTES;
    p.brkPerm := HeapPerm(nx);
    p.rip := entry;
    p.rsp := rsp;
    RunsIs(mc.mem, c, entry, end, b, ld.value, find, nx);
  }

  lemma SoundSize(b: Image)
    requires Sound(b)
    ensures |b| < USER_BYTES
  {
    hide Accepted;
  }

  /** `process_execve_current`: either the process runs the named image in a space of its own,
      or everything is as before the call. */
  method Execve(mc: Machine, p: Process, upath: nat, find: seq<byte> -> Option<Image>, nx: bool)
    returns (r: Outcome, ghost name: seq<byte>)
    requires mc.Ready() && AllSound(find)
    requires p.cr3 in mc.spaces && Private(mc.mem, p.cr3, mc.owner) && upath < WORD
    modifies mc, mc.pmm, mc.pmm.bitmap, p
    ensures r == Fault <==> !UserCopy.RangeOk(old(mc.mem), old(p.cr3), upath, NAME_LEN, false)
    ensures r != Done ==> PutBack(mc, old(mc.mem), old(mc.spaces), old(mc.owner), old(mc.pmm.FreeSet()))
    ensures r != Done ==> p.cr3 == old(p.cr3) && p.heapStart == old(p.heapStart) && p.brk == old(p.brk) && p.brkPerm == old(p.brkPerm) && p.rip == old(p.rip) && p.rsp == old(p.rsp)
    ensures r == Done ==> Swapped(mc, old(p.cr3), p.cr3, nx, old(mc.mem), old(mc.spaces), old(mc.owner), old(mc.pmm.FreeSet()))
    ensures r != Fault ==> UserCopy.Holds(old(mc.mem), old(p.cr3), upath, name) && |name| == NAME_LEN
    ensures r != Fault ==>
              match find(name + [0])
              case None => r == Failed(NoExec)
              case Some(b) => |b| < USER_BYTES && r == OutcomeOf(Expected(b, find, |old(mc.pmm.FreeSet())|, nx))
    ensures r == Done ==> find(name + [0]).Some? && p.rsp == RSP && p.brkPerm == HeapPerm(nx)
    ensures r == Done ==> Runs(mc.mem, p.cr3, p.rip, p.heapStart, p.brk, find(name + [0]).value, find, nx)
  {
    hide *;
    PutBackNow(mc);
    name := [];
    var text := FetchName(mc, p.cr3, upath);
    if text.None? {
      return Fault, name;
    }
    name := text.value[..NAME_LEN];
    assert name + [0] == text.value;
    var image := find(text.value);
    if image.None? {
      return Failed(NoExec), name;
    }
    FindSound(find, text.value);
    var st := RunImage(mc, p, image.value, find, nx);
    r := if st.Ok? then Done else Failed(st);
    OutcomeIs(st);
  }

  function OutcomeOf(st: Status): Outcome { if st.Ok? then Done else Failed(st) }

  lemma OutcomeIs(st: Status)
    ensures OutcomeOf(st) == if st.Ok? then Done else Failed(st)
  {
  }

  lemma NameFits()
    ensures NAME_LEN < WORD
  {
  }

  lemma PhdrsAre(b: Image)
    requires EHDR_SIZE <= |b| && HeaderOk(ReadEhdr(b), |b|)
    ensures Phdrs(b) == Headers(b, ReadEhdr(b)) && |Phdrs(b)| == ReadEhdr(b).phnum
  {
  }

  lemma FindSound(find: seq<byte> -> Option<Image>, name: seq<byte>)
    requires AllSound(find) && find(name).Some?
    ensures Sound(find(name).value) && |find(name).value| < USER_BYTES
  {
    hide Accepted, NoneWraps;
  }

  lemma PutBackNow(mc: Machine)
    requires mc.Ready()
    ensures PutBack(mc, mc.mem, mc.spaces, mc.owner, mc.pmm.FreeSet())
  {
    hide Leaf, UserPage;
  }

  lemma StartedParts(ld: Loader, find: seq<byte> -> Option<Image>, entry: nat)
    requires Started(ld, find, entry)
    ensures Loadable(ld.image) && (LinkerOf(ld.interp, find).Some? ==> Loadable(LinkerOf(ld.interp, find).value))
  {
    hide Loadable;
  }

  /** The process is set to run image `b`: break just past the image, control at the linker's entry
      or its own, exactly the memory the images describe, and a frame on the stack that describes
      the program. */
  ghost predicate Runs(m: Memory, c: nat, rip: nat, heapStart: nat, brk: nat, b: Image, find: seq<byte> -> Option<Image>, nx: bool) {
    && Loadable(b)
    && FrameIs(m, c, RSP, Add64(ReadEhdr(b).phoff, Base(ReadEhdr(b))), ReadEhdr(b).phnum, EntryOf(b), Base(ReadEhdr(b)))
    && exists ld: Loader, end: nat {:trigger Described(ld, b, end)} ::
         && Described(ld, b, end) && heapStart == PageUp(end) && brk == heapStart + FRAME_BYTES
         && Started(ld, find, rip) && Holding(m, c, ld, LinkerOf(ld.interp, find), nx)
  }

  /** What the loader context of image `b` says, and where the image ends. */
  ghost predicate Described(ld: Loader, b: Image, end: nat)
    requires Loadable(b)
  {
    && ld.image == b && ld.base == Base(ReadEhdr(b)) && ld.entry == ReadEhdr(b).entry
    && ld.phdr == Add64(ReadEhdr(b).phoff, ld.base)
    && (forall i :: 0 <= i < |Phdrs(b)| && Phdrs(b)[i].kind == PT_INTERP ==> Phdrs(b)[i].offset + Phdrs(b)[i].filesz <= |b|)
    && ld.interp == Interp(b, Phdrs(b))
    && IsLoadEnd(Phdrs(b), |Phdrs(b)|, ld.base, end)
  }

  lemma RunsIs(m: Memory, c: nat, rip: nat, end: nat, b: Image, ld: Loader, find: seq<byte> -> Option<Image>, nx: bool)
    requires Loadable(b)
    requires ld.image == b && ld.base == Base(ReadEhdr(b)) && ld.entry == ReadEhdr(b).entry && ld.phdr == Add64(ReadEhdr(b).phoff, ld.base)
    requires forall i :: 0 <= i < |Phdrs(b)| && Phdrs(b)[i].kind == PT_INTERP ==> Phdrs(b)[i].offset + Phdrs(b)[i].filesz <= |b|
    requires ld.interp == Interp(b, Phdrs(b)) && IsLoadEnd(Phdrs(b), |Phdrs(b)|, ld.base, end)
    requires Started(ld, find, rip) && Holding(m, c, ld, LinkerOf(ld.interp, find), nx)
    ensures Runs(m, c, rip, PageUp(end), PageUp(end) + FRAME_BYTES, b, find, nx)
  {
    hide IsLoadEnd, ReadEhdr, Headers, Interp, Started, LinkerOf, Layout, TableOk, FrameIs, Encode, StackWords, UserCopy.Holds,
         BytesAre, PagesAre;
    assert Described(ld, b, end);
    FrameFromWords(m, c, ld, ReadEhdr(b).phnum);
  }
}
