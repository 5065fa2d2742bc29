/** Four-level page tables stored in physical frames (4-level paging as in section 4.5 of the
    Intel SDM, volume 3A).

    A page-table entry is kept as its fields rather than as a packed 64-bit word: the flag
    bits the kernel uses and the number of the frame it points to.  A virtual page is its
    four table indices. */
module PageTable {
  import opened Common

  newtype byte = x: int | 0 <= x < 256

  const ENTRIES: nat := 512
  const FRAME_BYTES: nat := 4096
  const USER_TOP: nat := 256      // first PML4 index of the kernel half

  datatype Flags = Flags(present: bool, write: bool, user: bool, huge: bool, nx: bool)

  const NO_FLAGS := Flags(false, false, false, false, false)

  datatype Pte = Pte(flags: Flags, frame: nat)

  const ZERO_PTE := Pte(NO_FLAGS, 0)

  /** A frame is used either as a table of entries or as data bytes. */
  datatype Frame = Table(entries: seq<Pte>) | Data(bytes: seq<byte>)

  type Memory = seq<Frame>

  datatype Page = Page(i4: nat, i3: nat, i2: nat, i1: nat)

  predicate UserPage(v: Page) {
    v.i4 < USER_TOP && v.i3 < ENTRIES && v.i2 < ENTRIES && v.i1 < ENTRIES
  }

  /** The page with number `n` (virtual address / 4096). */
  function PageOf(n: nat): (v: Page) {
    Page(n / 512 / 512 / 512 % 512, n / 512 / 512 % 512, n / 512 % 512, n % 512)
  }

  function PageNumber(v: Page): nat {
    ((v.i4 * 512 + v.i3) * 512 + v.i2) * 512 + v.i1
  }

  /** Below the 128 TiB limit the four indices lose nothing of the page number. */
  lemma PageRoundTrip(n: nat)
    requires n < 0x8_0000_0000
    ensures UserPage(PageOf(n)) && PageNumber(PageOf(n)) == n
  {
    var a := n / 512;
    var b := a / 512;
    var c := b / 512;
    assert n == a * 512 + n % 512 && a == b * 512 + a % 512 && b == c * 512 + b % 512 && c < 256;
  }

  predicate IsTable(f: Frame) { f.Table? && |f.entries| == ENTRIES }

  predicate IsData(f: Frame) { f.Data? && |f.bytes| == FRAME_BYTES }

  function ZeroTable(): (f: Frame)
    ensures IsTable(f)
  {
    Table(seq(ENTRIES, _ => ZERO_PTE))
  }

  function ZeroData(): (f: Frame)
    ensures IsData(f)
  {
    Data(seq(FRAME_BYTES, _ => 0 as byte))
  }

  /** Entry `i` of the table in frame `f`. */
  function Entry(m: Memory, f: nat, i: nat): Pte {
    if f < |m| && m[f].Table? && i < |m[f].entries| then m[f].entries[i] else ZERO_PTE
  }

  // -----------------------------------------------------------------------------
  // The walks of the source

  /** The raw leaf entry of a page; a huge entry stands for itself. */
  function GetPte(m: Memory, root: nat, v: Page): Pte {
    var e4 := Entry(m, root, v.i4);
    if !e4.flags.present then ZERO_PTE else
    var e3 := Entry(m, e4.frame, v.i3);
    if !e3.flags.present then ZERO_PTE else if e3.flags.huge then e3 else
    var e2 := Entry(m, e3.frame, v.i2);
    if !e2.flags.present then ZERO_PTE else if e2.flags.huge then e2 else
    Entry(m, e2.frame, v.i1)
  }

  /** The masks of the huge branches keep address bits up to 47 only, 36 bits of frame number. */
  const LOW_FRAMES: nat := 0x10_0000_0000

  function LowFrame(frame: nat): nat { frame % LOW_FRAMES }

  /** The physical address behind byte `off` of a page, or 0. */
  function VirtToPhys(m: Memory, root: nat, v: Page, off: nat): nat {
    var e4 := Entry(m, root, v.i4);
    if !e4.flags.present then 0 else
    var e3 := Entry(m, e4.frame, v.i3);
    if !e3.flags.present then 0
    else if e3.flags.huge then (LowFrame(e3.frame) / 0x4_0000 * 0x4_0000 + v.i2 * 512 + v.i1) * FRAME_BYTES + off else
    var e2 := Entry(m, e3.frame, v.i2);
    if !e2.flags.present then 0
    else if e2.flags.huge then (LowFrame(e2.frame) / 512 * 512 + v.i1) * FRAME_BYTES + off else
    var e1 := Entry(m, e2.frame, v.i1);
    if !e1.flags.present then 0 else e1.frame * FRAME_BYTES + off
  }

  // -----------------------------------------------------------------------------
  // The tree

  datatype Path = Root | Sub(parent: Path, idx: nat)

  function Depth(p: Path): nat {
    match p
    case Root => 0
    case Sub(q, _) => 1 + Depth(q)
  }

  /** Positions of tables in the user half: PML4, PDPT, PD and PT. */
  predicate UserPath(p: Path) {
    match p
    case Root => true
    case Sub(q, i) => UserPath(q) && Depth(q) < 3 && i < (if q.Root? then USER_TOP else ENTRIES)
  }

  function PtPath(v: Page): Path { Sub(Sub(Sub(Root, v.i4), v.i3), v.i2) }

  lemma PtPathUser(v: Page)
    requires UserPage(v)
    ensures UserPath(PtPath(v)) && UserPath(PtPath(v).parent) && UserPath(PtPath(v).parent.parent)
    ensures Depth(PtPath(v)) == 3
  {
    var p3 := Sub(Root, v.i4);
    assert UserPath(p3) && Depth(p3) == 1;
    var p2 := Sub(p3, v.i3);
    assert UserPath(p2) && Depth(p2) == 2;
  }

  /** The frame of the table at a position of the tree under `root`. */
  function Node(m: Memory, root: nat, p: Path): Option<nat> {
    match p
    case Root => Some(root)
    case Sub(q, i) =>
      match Node(m, root, q)
      case None => None
      case Some(f) => if Entry(m, f, i).flags.present then Some(Entry(m, f, i).frame) else None
  }

  /** The flat view: the leaf entry of each user page, by table position. */
  function Leaf(m: Memory, root: nat, v: Page): Pte {
    match Node(m, root, PtPath(v))
    case None => ZERO_PTE
    case Some(f) => Entry(m, f, v.i1)
  }

  /** The flat view spelled out level by level. */
  lemma LeafWalk(m: Memory, root: nat, v: Page)
    ensures
      var e4 := Entry(m, root, v.i4);
      var e3 := Entry(m, e4.frame, v.i3);
      var e2 := Entry(m, e3.frame, v.i2);
      if e4.flags.present && e3.flags.present && e2.flags.present then
        Node(m, root, PtPath(v)) == Some(e2.frame) && Leaf(m, root, v) == Entry(m, e2.frame, v.i1)
      else
        Node(m, root, PtPath(v)).None? && Leaf(m, root, v) == ZERO_PTE
  {
    var p3 := Sub(Root, v.i4);
    assert Node(m, root, Root) == Some(root);
    assert Node(m, root, p3) == if Entry(m, root, v.i4).flags.present then Some(Entry(m, root, v.i4).frame) else None;
    var p2 := Sub(p3, v.i3);
    if Node(m, root, p3).Some? {
      assert Node(m, root, p2) == if Entry(m, Node(m, root, p3).value, v.i3).flags.present then Some(Entry(m, Node(m, root, p3).value, v.i3).frame) else None;
    } else {
      assert Node(m, root, p2).None?;
    }
  }

  /** No table above the last level points to a huge page. */
  ghost predicate NoHuge(m: Memory, root: nat) {
    forall p, i :: UserPath(Sub(p, i)) && Node(m, root, p).Some? && Entry(m, Node(m, root, p).value, i).flags.present ==>
      !Entry(m, Node(m, root, p).value, i).flags.huge
  }

  /** Without huge entries the walks read exactly the flat view. */
  lemma WalksReadLeaf(m: Memory, root: nat, v: Page, off: nat)
    requires NoHuge(m, root) && UserPage(v)
    ensures GetPte(m, root, v) == Leaf(m, root, v)
    ensures VirtToPhys(m, root, v, off) ==
            if Leaf(m, root, v).flags.present then Leaf(m, root, v).frame * FRAME_BYTES + off else 0
  {
    var p3 := Sub(Root, v.i4);
    var p2 := Sub(p3, v.i3);
    PtPathUser(v);
    assert Node(m, root, Root) == Some(root);
    if Node(m, root, p3).Some? {
      assert Node(m, root, p3).value == Entry(m, root, v.i4).frame;
      if Node(m, root, p2).Some? {
        assert Node(m, root, p2).value == Entry(m, Node(m, root, p3).value, v.i3).frame;
      }
    }
  }

  /** The level of the entry at which the walk for `v` stops. */
  function StopLevel(m: Memory, root: nat, v: Page): nat {
    var e3 := Entry(m, Entry(m, root, v.i4).frame, v.i3);
    if e3.flags.huge then 3 else if Entry(m, e3.frame, v.i2).flags.huge then 2 else 1
  }

  /** The frame of page number `n` under an entry of that level: the entry's aligned run is a
      GiB, two MiB or one frame long, and the page keeps its own place in it. */
  function FrameUnder(frame: nat, level: nat, n: nat): nat {
    if level == 3 then frame / 0x4_0000 * 0x4_0000 + n % 0x4_0000
    else if level == 2 then frame / 512 * 512 + n % 512
    else frame
  }

  lemma DivRemainder(n: nat, d: nat, q: nat, r: nat)
    requires n == d * q + r && r < d
    ensures n / d == q && n % d == r
  {
    var k := n / d - q;
    assert d * k == r - n % d;
    assert k == 0 by {
      assert k >= 1 ==> d * k >= d;
      assert k <= -1 ==> d * k + d <= 0;
    }
  }

  lemma PlaceInRun(v: Page)
    requires v.i2 < ENTRIES && v.i1 < ENTRIES
    ensures PageNumber(v) % 0x4_0000 == v.i2 * 512 + v.i1 && PageNumber(v) % 512 == v.i1
  {
    DivRemainder(PageNumber(v), 0x4_0000, v.i4 * 512 + v.i3, v.i2 * 512 + v.i1);
    DivRemainder(PageNumber(v), 512, (v.i4 * 512 + v.i3) * 512 + v.i2, v.i1);
  }

  /** What the entry `e` found for page number `n` at that level says about byte `off`. */
  function Addressed(e: Pte, level: nat, n: nat, off: nat): nat {
    if e.flags.present then FrameUnder(e.frame, level, n) * FRAME_BYTES + off else 0
  }

  /** On every page of every tree the address is the one the entry gives, with the frame number of
      a huge entry cut to 36 bits. */
  lemma WalkGives(m: Memory, root: nat, v: Page, off: nat)
    requires v.i2 < ENTRIES && v.i1 < ENTRIES
    ensures
      var e, level := GetPte(m, root, v), StopLevel(m, root, v);
      VirtToPhys(m, root, v, off) == Addressed(if level == 1 then e else e.(frame := LowFrame(e.frame)), level, PageNumber(v), off)
  {
    PlaceInRun(v);
    hide PageNumber, LowFrame;
  }

  lemma CutRun(frame: nat, run: nat, k: nat)
    requires 0 < run && run * k == LOW_FRAMES
    ensures LowFrame(frame) / run * run == frame / run * run <==> frame < LOW_FRAMES
  {
    var q, low := frame / LOW_FRAMES, frame % LOW_FRAMES;
    assert frame == run * (k * q) + low by { assert run * (k * q) == run * k * q; }
    var a := low / run;
    assert low == run * a + low % run;
    assert frame == run * (k * q + a) + low % run by { assert run * (k * q + a) == run * (k * q) + run * a; }
    DivRemainder(frame, run, k * q + a, low % run);
    assert frame / run == k * q + a;
    assert q == 0 <==> frame < LOW_FRAMES;
    assert run * (k * q) == LOW_FRAMES * q by { assert run * (k * q) == run * k * q; }
    assert (k * q + a) * run == a * run + LOW_FRAMES * q;
  }

  /** The two walks agree on a page, huge entries included, exactly when the walk ends at an
      ordinary entry, finds none, or finds a huge one below 256 TiB. */
  lemma WalksAgreeIff(m: Memory, root: nat, v: Page, off: nat)
    requires v.i2 < ENTRIES && v.i1 < ENTRIES
    ensures
      var e, level := GetPte(m, root, v), StopLevel(m, root, v);
      VirtToPhys(m, root, v, off) == Addressed(e, level, PageNumber(v), off) <==> level == 1 || !e.flags.present || e.frame < LOW_FRAMES
  {
    WalkGives(m, root, v, off);
    hide PageNumber, LowFrame, GetPte, VirtToPhys;
    var e := GetPte(m, root, v);
    CutRun(e.frame, 0x4_0000, 0x4_0000);
    CutRun(e.frame, 512, 0x800_0000);
  }

  /** A huge entry above that: the walks differ. */
  lemma WalksDiffer()
    ensures
      var big := Pte(Flags(true, true, true, true, false), LOW_FRAMES);
      var m := [Table(seq(ENTRIES, _ => Pte(Flags(true, true, true, false, false), 1))), Table(seq(ENTRIES, _ => big))];
      GetPte(m, 0, Page(0, 0, 0, 0)) == big && Addressed(big, 3, 0, 0) == LOW_FRAMES * FRAME_BYTES && VirtToPhys(m, 0, Page(0, 0, 0, 0), 0) == 0
  {
  }
}
