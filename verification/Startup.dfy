/** What a program finds on its stack when it starts, read the way the dynamic linker reads it. */
module Startup {
  import opened Common
  import opened PageTable
  import opened UserBytes
  import opened ElfImage
  import opened ElfLoad
  import UserCopy

  const AT_NULL: nat := 0
  const AT_PHDR: nat := 3
  const AT_PHENT: nat := 4
  const AT_PHNUM: nat := 5
  const AT_PAGESZ: nat := 6
  const AT_BASE: nat := 7
  const AT_ENTRY: nat := 9

  // -----------------------------------------------------------------------------
  // Words in user memory

  function Peek(m: Memory, c: nat, a: nat): byte { if ByteAt(m, c, a).Some? then ByteAt(m, c, a).value else 0 }

  function Word(b: seq<byte>, off: nat): nat
    requires off + 8 <= |b|
  {
    Le(b, off, 8)
  }

  /** The 64-bit word at `a`, or none where a load would fault. */
  function WordAt(m: Memory, c: nat, a: nat): Option<nat> {
    if a + 8 <= USER_BYTES && forall k :: a <= k < a + 8 ==> ByteAt(m, c, k).Some? then
      Some(Word(PeekWord(m, c, a), 0))
    else None
  }

  lemma {:induction false} LeMoved(b: Image, off: nat, b': Image, off': nat, n: nat)
    requires n <= 8 && off + n <= |b| && off' + n <= |b'| && b'[off'..off' + n] == b[off..off + n]
    ensures Le(b', off', n) == Le(b, off, n)
    decreases n
  {
    hide Pow256;
    if n > 0 {
      var x, y := b[off..off + n], b'[off'..off' + n];
      assert x[0] == b[off] && y[0] == b'[off'];
      assert b[off + 1..off + n] == x[1..] && b'[off' + 1..off' + n] == y[1..];
      LeMoved(b, off + 1, b', off' + 1, n - 1);
    }
  }

  function PeekWord(m: Memory, c: nat, a: nat): (b: seq<byte>)
    ensures |b| == 8
  {
    seq(8, k requires 0 <= k < 8 => Peek(m, c, a + k))
  }

  lemma PeekHeld(m: Memory, c: nat, at: nat, b: seq<byte>, off: nat)
    requires UserCopy.Holds(m, c, at, b) && off + 8 <= |b|
    ensures PeekWord(m, c, at + off) == b[off..off + 8]
    ensures forall k :: at + off <= k < at + off + 8 ==> ByteAt(m, c, k).Some?
  {
    hide ByteAt;
    forall k | at + off <= k < at + off + 8
      ensures ByteAt(m, c, k) == Some(b[k - at])
    {
      var j: nat := k - at;
      assert ByteAt(m, c, at + j) == Some(b[j]);
    }
    var w := PeekWord(m, c, at + off);
    forall k | 0 <= k < 8
      ensures w[k] == b[off..off + 8][k]
    {
      assert w[k] == Peek(m, c, at + off + k);
      assert ByteAt(m, c, at + off + k) == Some(b[off + k]);
    }
  }

  lemma LeSlice(b: Image, off: nat)
    requires off + 8 <= |b|
    ensures Word(b[off..off + 8], 0) == Word(b, off)
  {
    hide Le;
    var w := b[off..off + 8];
    assert w[0..0 + 8] == w;
    LeMoved(b, off, w, 0, 8);
  }

  /** A word of a frame held in memory is read at its place. */
  lemma WordHeld(m: Memory, c: nat, at: nat, ws: seq<nat>, i: nat)
    requires UserCopy.Holds(m, c, at, Encode(ws)) && i < |ws| && ws[i] < WORD && at + 8 * |ws| <= USER_BYTES
    ensures WordAt(m, c, at + 8 * i) == Some(ws[i])
  {
    hide WordAt, Word, Encode, UserCopy.Holds;
    var b := Encode(ws);
    HeldWord(m, c, at, b, 8 * i);
    EncodedWord(ws, i);
  }

  lemma HeldWord(m: Memory, c: nat, at: nat, b: seq<byte>, off: nat)
    requires UserCopy.Holds(m, c, at, b) && off + 8 <= |b| && at + |b| <= USER_BYTES
    ensures WordAt(m, c, at + off) == Some(Word(b, off))
  {
    hide ByteAt, Word, PeekWord, UserCopy.Holds;
    PeekHeld(m, c, at, b, off);
    LeSlice(b, off);
  }

  lemma EncodedWord(ws: seq<nat>, i: nat)
    requires i < |ws| && ws[i] < WORD
    ensures Word(Encode(ws), 8 * i) == ws[i]
  {
    hide Encode;
    FrameReadsBack(ws, i, []);
    assert Encode(ws) + [] == Encode(ws);
  }

  // -----------------------------------------------------------------------------
  // The auxiliary vector

  /** Type and value of pair `k` of the vector at `at`. */
  function Kind(m: Memory, c: nat, at: nat, k: nat): Option<nat> { WordAt(m, c, at + 16 * k) }

  function Val(m: Memory, c: nat, at: nat, k: nat): Option<nat> { WordAt(m, c, at + 16 * k + 8) }

  /** The vector is readable and has neither its end nor that type before pair `k`. */
  ghost predicate NotBefore(m: Memory, c: nat, at: nat, kind: nat, k: nat) {
    forall j: nat {:trigger Kind(m, c, at, j)} :: j < k ==> Passed(Kind(m, c, at, j), kind)
  }

  predicate Passed(w: Option<nat>, kind: nat) { w.Some? && w.value != AT_NULL && w.value != kind }

  ghost predicate GivesAt(m: Memory, c: nat, at: nat, kind: nat, value: nat, k: nat) {
    kind != AT_NULL && Kind(m, c, at, k) == Some(kind) && Val(m, c, at, k) == Some(value) && NotBefore(m, c, at, kind, k)
  }

  /** The vector gives `value` for that type. */
  ghost predicate Gives(m: Memory, c: nat, at: nat, kind: nat, value: nat) {
    exists k: nat :: GivesAt(m, c, at, kind, value, k)
  }

  /** The vector ends without that type. */
  ghost predicate Lacks(m: Memory, c: nat, at: nat, kind: nat) {
    exists k: nat {:trigger NotBefore(m, c, at, kind, k)} :: Kind(m, c, at, k) == Some(AT_NULL) && NotBefore(m, c, at, kind, k)
  }

  datatype Found = Trap | Missing | Value(v: nat)

  /** `auxv_get`. */
  method AuxvGet(m: Memory, c: nat, auxv: nat, kind: nat) returns (r: Found)
    ensures r.Value? ==> Gives(m, c, auxv, kind, r.v)
    ensures !r.Value? ==> forall v :: !Gives(m, c, auxv, kind, v)
    ensures r.Missing? <==> Lacks(m, c, auxv, kind)
  {
    hide Kind, Val;
    var k: nat := 0;
    while true
      invariant NotBefore(m, c, auxv, kind, k)
      decreases USER_BYTES - 16 * k
    {
      var w := Kind(m, c, auxv, k);
      NoLater(m, c, auxv, kind, k);
      if w.None? {
        return Trap;
      }
      KindInside(m, c, auxv, k);
      if w.value == AT_NULL {
        return Missing;
      }
      if w.value == kind {
        var v := Val(m, c, auxv, k);
        if v.None? {
          return Trap;
        }
        assert GivesAt(m, c, auxv, kind, v.value, k);
        return Value(v.value);
      }
      k := k + 1;
    }
  }

  lemma KindInside(m: Memory, c: nat, at: nat, k: nat)
    requires Kind(m, c, at, k).Some?
    ensures at + 16 * k + 8 <= USER_BYTES
  {
  }

  /** A pair that stops the search decides it. */
  lemma NoLater(m: Memory, c: nat, at: nat, kind: nat, k: nat)
    requires NotBefore(m, c, at, kind, k)
    ensures var w := Kind(m, c, at, k);
            w.None? || w.value == AT_NULL || w.value == kind ==>
              && (forall v: nat :: Gives(m, c, at, kind, v) ==> w == Some(kind) && Val(m, c, at, k) == Some(v))
              && (Lacks(m, c, at, kind) <==> w == Some(AT_NULL))
  {
    hide Kind, Val;
    var w := Kind(m, c, at, k);
    if w.None? || w.value == AT_NULL || w.value == kind {
      forall v: nat, j: nat | GivesAt(m, c, at, kind, v, j)
        ensures j == k
      {
        assert j < k ==> Passed(Kind(m, c, at, j), kind);
        assert k < j ==> Passed(Kind(m, c, at, k), kind);
      }
      forall j: nat | Kind(m, c, at, j) == Some(AT_NULL) && NotBefore(m, c, at, kind, j)
        ensures j == k
      {
        assert j < k ==> Passed(Kind(m, c, at, j), kind);
        assert k < j ==> Passed(Kind(m, c, at, k), kind);
      }
    }
  }

  lemma OneValue(m: Memory, c: nat, at: nat, kind: nat, v: nat, w: nat)
    requires Gives(m, c, at, kind, v) && Gives(m, c, at, kind, w)
    ensures v == w
  {
    hide Kind, Val;
    var k: nat :| GivesAt(m, c, at, kind, v, k);
    NoLater(m, c, at, kind, k);
  }

  // -----------------------------------------------------------------------------
  // The frame

  /** Word `i` behind the argument count at `frame`. */
  function Slot(m: Memory, c: nat, frame: nat, i: nat): Option<nat> { WordAt(m, c, frame + 8 + 8 * i) }

  predicate NonZero(w: Option<nat>) { w.Some? && w.value != 0 }

  /** After `argc` arguments and their NULL come `n` environment words and theirs. */
  ghost predicate Shaped(m: Memory, c: nat, frame: nat, argc: nat, n: nat) {
    && WordAt(m, c, frame) == Some(argc) && Slot(m, c, frame, argc) == Some(0) && Slot(m, c, frame, argc + 1 + n) == Some(0)
    && forall j {:trigger Slot(m, c, frame, j)} :: argc < j < argc + 1 + n ==> NonZero(Slot(m, c, frame, j))
  }

  /** `auxv_of`: where the vector begins, 0 for a malformed frame, none on a fault. */
  method AuxvOf(m: Memory, c: nat, frame: nat) returns (r: Option<nat>)
    ensures forall argc: nat, n: nat :: Shaped(m, c, frame, argc, n) ==> r == Some(frame + 8 * (argc + n + 3))
    ensures r.Some? && r.value != 0 ==> exists argc: nat, n: nat :: Shaped(m, c, frame, argc, n)
  {
    hide WordAt, Slot;
    var w := WordAt(m, c, frame);
    if w.None? {
      return None;
    }
    var argc := w.value;
    var e := Slot(m, c, frame, argc);
    if e.None? {
      return None;
    }
    if e.value != 0 {
      return Some(0);
    }
    var n: nat := 0;
    while true
      invariant forall j {:trigger Slot(m, c, frame, j)} :: argc < j < argc + 1 + n ==> NonZero(Slot(m, c, frame, j))
      decreases USER_BYTES - 8 * n
    {
      var p := Slot(m, c, frame, argc + 1 + n);
      OneShape(m, c, frame, argc, n);
      if p.None? {
        return None;
      }
      SlotInside(m, c, frame, argc + 1 + n);
      if p.value == 0 {
        assert Shaped(m, c, frame, argc, n);
        return Some(frame + 8 * (argc + n + 3));
      }
      n := n + 1;
    }
  }

  lemma SlotInside(m: Memory, c: nat, frame: nat, i: nat)
    requires Slot(m, c, frame, i).Some?
    ensures 8 * i <= USER_BYTES
  {
  }

  lemma OneShape(m: Memory, c: nat, frame: nat, argc: nat, n: nat)
    requires WordAt(m, c, frame) == Some(argc)
    requires forall j {:trigger Slot(m, c, frame, j)} :: argc < j < argc + 1 + n ==> NonZero(Slot(m, c, frame, j))
    ensures var p := Slot(m, c, frame, argc + 1 + n);
            p.None? || p.value == 0 ==> forall a: nat, k: nat :: Shaped(m, c, frame, a, k) ==> a == argc && k == n && p == Some(0)
  {
    hide WordAt, Slot;
    var p := Slot(m, c, frame, argc + 1 + n);
    if p.None? || p.value == 0 {
      forall a: nat, k: nat | Shaped(m, c, frame, a, k)
        ensures a == argc && k == n && p == Some(0)
      {
        var x := Slot(m, c, frame, argc + 1 + k);
        assert k < n ==> NonZero(x);
        assert n < k ==> NonZero(p);
      }
    }
  }

  /** The NUL-terminated string at `a`. */
  ghost predicate Text(m: Memory, c: nat, a: nat, s: string) {
    && ByteAt(m, c, a + |s|) == Some(0)
    && forall i :: 0 <= i < |s| ==> s[i] != '\0' && s[i] as int < 256 && ByteAt(m, c, a + i) == Some(s[i] as int as byte)
  }

  /** The initial frame as the ABI wants it: aligned, on the stack, one argument called "program", no
      environment, and an auxiliary vector that describes the program. */
  ghost predicate FrameIs(m: Memory, c: nat, rsp: nat, phdr: nat, phnum: nat, entry: nat, base: nat) {
    && rsp % 16 == 0 && STACK_TOP - STACK_SIZE <= rsp && rsp + 144 <= STACK_TOP
    && Shaped(m, c, rsp, 1, 0)
    && (exists at: nat :: WordAt(m, c, rsp + 8) == Some(at) && Text(m, c, at, "program"))
    && var auxv := rsp + 32;
       && Gives(m, c, auxv, AT_PHDR, phdr) && Gives(m, c, auxv, AT_PHENT, 56) && Gives(m, c, auxv, AT_PHNUM, phnum)
       && Gives(m, c, auxv, AT_PAGESZ, 4096) && Gives(m, c, auxv, AT_BASE, base) && Gives(m, c, auxv, AT_ENTRY, entry)
       && forall kind: nat :: kind !in {AT_PHDR, AT_PHENT, AT_PHNUM, AT_PAGESZ, AT_BASE, AT_ENTRY} ==> Lacks(m, c, auxv, kind)
  }

  lemma {:induction false} PassedUpTo(m: Memory, c: nat, at: nat, kinds: seq<nat>, kind: nat, k: nat)
    requires k <= |kinds| && forall j: nat {:trigger Kind(m, c, at, j)} :: j < |kinds| ==> Kind(m, c, at, j) == Some(kinds[j])
    requires forall j :: 0 <= j < k ==> kinds[j] != AT_NULL && kinds[j] != kind
    ensures NotBefore(m, c, at, kind, k)
  {
    hide Kind;
  }

  /** The words the kernel writes make such a frame. */
  lemma FrameFromWords(m: Memory, c: nat, ld: Loader, phnum: nat)
    requires UserCopy.Holds(m, c, RSP, Encode(StackWords(ld, phnum, ARGV0_AT))) && UserCopy.Holds(m, c, ARGV0_AT, ARGV0)
    requires ld.phdr < WORD && phnum < WORD && ld.base < WORD
    ensures FrameIs(m, c, RSP, ld.phdr, phnum, Add64(ld.entry, ld.base), ld.base)
  {
    hide WordAt, Encode, Gives, Lacks, Text, UserCopy.Holds, ByteAt;
    var ws := StackWords(ld, phnum, ARGV0_AT);
    forall i: nat | i < 18
      ensures WordAt(m, c, RSP + 8 * i) == Some(ws[i])
    {
      WordHeld(m, c, RSP, ws, i);
    }
    assert ws[0] == 1 && ws[1] == ARGV0_AT && ws[2] == 0 && ws[3] == 0;
    assert Slot(m, c, RSP, 1) == WordAt(m, c, RSP + 8 * 2) && Slot(m, c, RSP, 2) == WordAt(m, c, RSP + 8 * 3);
    Argument(m, c);
    VectorFromWords(m, c, ws);
  }

  lemma Argument(m: Memory, c: nat)
    requires UserCopy.Holds(m, c, ARGV0_AT, ARGV0)
    ensures Text(m, c, ARGV0_AT, "program")
  {
    hide ByteAt;
    var s := "program";
    forall i: nat | i < 8
      ensures ByteAt(m, c, ARGV0_AT + i) == Some(ARGV0[i])
    {
    }
    assert ByteAt(m, c, ARGV0_AT + 7) == Some(ARGV0[7]);
    forall i | 0 <= i < |s|
      ensures s[i] != '\0' && s[i] as int < 256 && ByteAt(m, c, ARGV0_AT + i) == Some(s[i] as int as byte)
    {
      var j: nat := i;
      assert ByteAt(m, c, ARGV0_AT + j) == Some(ARGV0[j]);
    }
  }

  lemma VectorFromWords(m: Memory, c: nat, ws: seq<nat>)
    requires |ws| == 18 && forall i: nat {:trigger ws[i]} :: i < 18 ==> WordAt(m, c, RSP + 8 * i) == Some(ws[i])
    requires ws[4] == 3 && ws[6] == 4 && ws[8] == 5 && ws[10] == 9 && ws[12] == 7 && ws[14] == 6 && ws[16] == 0
    ensures var at := RSP + 32;
            && Gives(m, c, at, AT_PHDR, ws[5]) && Gives(m, c, at, AT_PHENT, ws[7]) && Gives(m, c, at, AT_PHNUM, ws[9])
            && Gives(m, c, at, AT_PAGESZ, ws[15]) && Gives(m, c, at, AT_BASE, ws[13]) && Gives(m, c, at, AT_ENTRY, ws[11])
            && forall kind: nat :: kind !in {AT_PHDR, AT_PHENT, AT_PHNUM, AT_PAGESZ, AT_BASE, AT_ENTRY} ==> Lacks(m, c, at, kind)
  {
    hide WordAt;
    var at, kinds := RSP + 32, [3, 4, 5, 9, 7, 6, 0];
    forall j: nat | j < 7
      ensures Kind(m, c, at, j) == Some(kinds[j]) && Val(m, c, at, j) == Some(ws[5 + 2 * j])
    {
      assert ws[4 + 2 * j] == kinds[j] && ws[5 + 2 * j] == ws[5 + 2 * j];
      assert at + 16 * j == RSP + 8 * (4 + 2 * j) && at + 16 * j + 8 == RSP + 8 * (5 + 2 * j);
    }
    hide Kind, Val;
    forall j: nat | j < 6
      ensures Gives(m, c, at, kinds[j], ws[5 + 2 * j])
    {
      PassedUpTo(m, c, at, kinds, kinds[j], j);
      assert GivesAt(m, c, at, kinds[j], ws[5 + 2 * j], j);
    }
    assert Gives(m, c, at, kinds[0], ws[5 + 2 * 0]) && Gives(m, c, at, kinds[1], ws[5 + 2 * 1]) && Gives(m, c, at, kinds[2], ws[5 + 2 * 2]);
    assert Gives(m, c, at, kinds[3], ws[5 + 2 * 3]) && Gives(m, c, at, kinds[4], ws[5 + 2 * 4]) && Gives(m, c, at, kinds[5], ws[5 + 2 * 5]);
    forall kind: nat | kind !in {AT_PHDR, AT_PHENT, AT_PHNUM, AT_PAGESZ, AT_BASE, AT_ENTRY}
      ensures Lacks(m, c, at, kind)
    {
      PassedUpTo(m, c, at, kinds, kind, 6);
      assert Kind(m, c, at, 6) == Some(AT_NULL);
    }
  }

  /** What the linker takes from the frame when it starts. */
  method LinkerReads(m: Memory, c: nat, rsp: nat, ghost phdr: nat, ghost phnum: nat, ghost entry: nat, ghost base: nat)
    returns (thePhdr: Found, thePhnum: Found, theEntry: Found, theBase: Found)
    requires FrameIs(m, c, rsp, phdr, phnum, entry, base)
    ensures thePhdr == Value(phdr) && thePhnum == Value(phnum) && theEntry == Value(entry) && theBase == Value(base)
  {
    hide WordAt, Gives, Lacks, Text;
    assert Shaped(m, c, rsp, 1, 0);
    var auxv := AuxvOf(m, c, rsp);
    var at := auxv.value;
    thePhdr := AuxvGet(m, c, at, AT_PHDR);
    thePhnum := AuxvGet(m, c, at, AT_PHNUM);
    theEntry := AuxvGet(m, c, at, AT_ENTRY);
    theBase := AuxvGet(m, c, at, AT_BASE);
    OneValue(m, c, at, AT_PHDR, thePhdr.v, phdr);
    OneValue(m, c, at, AT_PHNUM, thePhnum.v, phnum);
    OneValue(m, c, at, AT_ENTRY, theEntry.v, entry);
    OneValue(m, c, at, AT_BASE, theBase.v, base);
  }
}
