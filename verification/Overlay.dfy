/** Two images in one space: a program and the dynamic linker loaded on top of it. */
module Overlay {
  import opened Common
  import opened PageTable
  import opened AddressSpaces
  import opened UserBytes
  import opened ElfImage
  import opened ElfLoad
  import UserCopy

  // -----------------------------------------------------------------------------
  // Bytes

  /** Wherever segments of both tables lie, they ask for the same byte. */
  ghost predicate Compatible(b1: Image, phs1: seq<Phdr>, base1: nat, b2: Image, phs2: seq<Phdr>, base2: nat) {
    forall i, j, a: nat {:trigger InSegment(phs1[i], base1, a), InSegment(phs2[j], base2, a)} ::
      0 <= i < |phs1| && 0 <= j < |phs2| && InSegment(phs1[i], base1, a) && InSegment(phs2[j], base2, a) ==>
      Want(b1, phs1[i], base1, a) == Want(b2, phs2[j], base2, a)
  }

  /** The whole user half off the stack after both loads: the file bytes of the second image, else
      those of the first, else zeroes on the pages of either, else nothing. */
  ghost predicate JointExact(m: Memory, c: nat, b1: Image, phs1: seq<Phdr>, base1: nat, b2: Image, phs2: seq<Phdr>, base2: nat) {
    && (forall j, a: nat {:trigger InFile(phs2[j], base2, a)} :: 0 <= j < |phs2| && InFile(phs2[j], base2, a) ==>
          ByteAt(m, c, a) == Some(Want(b2, phs2[j], base2, a)))
    && (forall i, a: nat {:trigger InFile(phs1[i], base1, a)} :: 0 <= i < |phs1| && InFile(phs1[i], base1, a) && !SomeFile(phs2, base2, |phs2|, a) ==>
          ByteAt(m, c, a) == Some(Want(b1, phs1[i], base1, a)))
    && (forall a: nat {:trigger ByteAt(m, c, a)} ::
          a < USER_BYTES && !StackAddress(a) && !SomeFile(phs1, base1, |phs1|, a) && !SomeFile(phs2, base2, |phs2|, a) ==>
          ByteAt(m, c, a) == if Touched(phs1, base1, |phs1|, 0, a / FRAME_BYTES) || Touched(phs2, base2, |phs2|, 0, a / FRAME_BYTES) then Some(0) else None)
  }

  lemma JointExactIs(m1: Memory, m: Memory, c: nat, b1: Image, phs1: seq<Phdr>, base1: nat, b2: Image, phs2: seq<Phdr>, base2: nat)
    requires Layout(phs1, base1, |b1|) && Layout(phs2, base2, |b2|)
    requires Exact(m1, c, b1, phs1, base1) && Laden(m1, m, c, b2, phs2, base2)
    ensures JointExact(m, c, b1, phs1, base1, b2, phs2, base2)
  {
    hide ByteAt, Layout, Touched, Want, SomeFile;
    forall i, a: nat | 0 <= i < |phs1| && InFile(phs1[i], base1, a) && !SomeFile(phs2, base2, |phs2|, a)
      ensures ByteAt(m, c, a) == Some(Want(b1, phs1[i], base1, a))
    {
      LayoutAt(phs1, base1, |b1|, i);
      FileIn(phs1[i], base1, |b1|, a);
      FileOffStack(b1, phs1, base1, i, a);
      assert ByteAt(m1, c, a) == Some(Want(b1, phs1[i], base1, a));
    }
    forall a: nat | a < USER_BYTES && !StackAddress(a) && !SomeFile(phs1, base1, |phs1|, a) && !SomeFile(phs2, base2, |phs2|, a)
      ensures ByteAt(m, c, a) == if Touched(phs1, base1, |phs1|, 0, a / FRAME_BYTES) || Touched(phs2, base2, |phs2|, 0, a / FRAME_BYTES) then Some(0) else None
    {
      assert ByteAt(m1, c, a) == if Touched(phs1, base1, |phs1|, 0, a / FRAME_BYTES) then Some(0) else None;
    }
  }

  lemma SecondHas(m: Memory, c: nat, b1: Image, phs1: seq<Phdr>, base1: nat, b2: Image, phs2: seq<Phdr>, base2: nat, j: nat, a: nat)
    requires Layout(phs1, base1, |b1|) && Layout(phs2, base2, |b2|)
    requires JointExact(m, c, b1, phs1, base1, b2, phs2, base2) && Compatible(b1, phs1, base1, b2, phs2, base2)
    requires j < |phs2| && InSegment(phs2[j], base2, a)
    ensures ByteAt(m, c, a) == Some(Want(b2, phs2[j], base2, a))
  {
    hide ByteAt, Layout, Touched;
    FileOffStack(b2, phs2, base2, j, a);
    OwnFile(b2, phs2, base2, j, a);
    if !InFile(phs2[j], base2, a) && SomeFile(phs1, base1, |phs1|, a) {
      var i :| 0 <= i < |phs1| && InFile(phs1[i], base1, a);
      LayoutAt(phs1, base1, |b1|, i);
      FileIn(phs1[i], base1, |b1|, a);
    }
  }

  lemma FirstHas(m: Memory, c: nat, b1: Image, phs1: seq<Phdr>, base1: nat, b2: Image, phs2: seq<Phdr>, base2: nat, i: nat, a: nat)
    requires Layout(phs1, base1, |b1|) && Layout(phs2, base2, |b2|)
    requires JointExact(m, c, b1, phs1, base1, b2, phs2, base2) && Compatible(b1, phs1, base1, b2, phs2, base2)
    requires i < |phs1| && InSegment(phs1[i], base1, a)
    ensures ByteAt(m, c, a) == Some(Want(b1, phs1[i], base1, a))
  {
    hide ByteAt, Layout, Touched;
    FileOffStack(b1, phs1, base1, i, a);
    OwnFile(b1, phs1, base1, i, a);
    if SomeFile(phs2, base2, |phs2|, a) {
      var j :| 0 <= j < |phs2| && InFile(phs2[j], base2, a);
      LayoutAt(phs2, base2, |b2|, j);
      FileIn(phs2[j], base2, |b2|, a);
    }
  }

  /** After both loads every segment of both images reads back exactly when the images ask for the
      same bytes wherever they overlap. */
  lemma BothFilledIff(m: Memory, c: nat, b1: Image, phs1: seq<Phdr>, base1: nat, b2: Image, phs2: seq<Phdr>, base2: nat)
    requires Layout(phs1, base1, |b1|) && Layout(phs2, base2, |b2|) && JointExact(m, c, b1, phs1, base1, b2, phs2, base2)
    ensures Filled(m, c, b1, phs1, base1) && Filled(m, c, b2, phs2, base2) <==> Compatible(b1, phs1, base1, b2, phs2, base2)
  {
    hide ByteAt, Layout, JointExact, Want;
    if Compatible(b1, phs1, base1, b2, phs2, base2) {
      forall i | 0 <= i < |phs1| && IsLoad(phs1[i])
        ensures InPlace(phs1[i], base1, |b1|) && SegHas(m, c, b1, phs1[i], base1)
      {
        LayoutAt(phs1, base1, |b1|, i);
        forall a: nat | InSegment(phs1[i], base1, a)
          ensures ByteAt(m, c, a) == Some(Want(b1, phs1[i], base1, a))
        {
          FirstHas(m, c, b1, phs1, base1, b2, phs2, base2, i, a);
        }
      }
      forall j | 0 <= j < |phs2| && IsLoad(phs2[j])
        ensures InPlace(phs2[j], base2, |b2|) && SegHas(m, c, b2, phs2[j], base2)
      {
        LayoutAt(phs2, base2, |b2|, j);
        forall a: nat | InSegment(phs2[j], base2, a)
          ensures ByteAt(m, c, a) == Some(Want(b2, phs2[j], base2, a))
        {
          SecondHas(m, c, b1, phs1, base1, b2, phs2, base2, j, a);
        }
      }
    }
    if Filled(m, c, b1, phs1, base1) && Filled(m, c, b2, phs2, base2) {
      forall i, j, a: nat | 0 <= i < |phs1| && 0 <= j < |phs2| && InSegment(phs1[i], base1, a) && InSegment(phs2[j], base2, a)
        ensures Want(b1, phs1[i], base1, a) == Want(b2, phs2[j], base2, a)
      {
        LayoutAt(phs1, base1, |b1|, i);
        LayoutAt(phs2, base2, |b2|, j);
        assert SegHas(m, c, b1, phs1[i], base1) && SegHas(m, c, b2, phs2[j], base2);
        assert ByteAt(m, c, a) == Some(Want(b1, phs1[i], base1, a));
      }
    }
  }

  /** Some address lies in segments of both tables, in the file part of at least one. */
  ghost predicate Conflict(phs1: seq<Phdr>, base1: nat, phs2: seq<Phdr>, base2: nat) {
    exists i, j, a: nat {:trigger InSegment(phs1[i], base1, a), InSegment(phs2[j], base2, a)} ::
      && 0 <= i < |phs1| && 0 <= j < |phs2| && InSegment(phs1[i], base1, a) && InSegment(phs2[j], base2, a)
      && (InFile(phs1[i], base1, a) || InFile(phs2[j], base2, a))
  }

  // -----------------------------------------------------------------------------
  // All contents

  /** The loader reads byte `o` of an image with this header while it decides what to load. */
  ghost predicate Fixed(eh: Ehdr, o: nat) {
    o < 40 || 52 <= o < 58 || exists i: nat :: i < eh.phnum && InHeader(eh.phoff + i * PHDR_SIZE, o)
  }

  /** All of a program header is read but the physical address. */
  predicate InHeader(at: nat, o: nat) { at <= o < at + 24 || at + 32 <= o < at + PHDR_SIZE }

  /** The loader takes both images for the same, whatever else they contain. */
  ghost predicate SameHeaders(b: Image, b': Image) {
    && |b'| == |b| && EHDR_SIZE <= |b| && HeaderOk(ReadEhdr(b), |b|) && ReadEhdr(b') == ReadEhdr(b)
    && Headers(b', ReadEhdr(b)) == Headers(b, ReadEhdr(b))
  }

  lemma {:induction false} LeSame(b: Image, b': Image, off: nat, n: nat)
    requires off + n <= |b| == |b'| && n <= 8 && forall k :: off <= k < off + n ==> b'[k] == b[k]
    ensures Le(b', off, n) == Le(b, off, n)
    decreases n
  {
    hide Pow256;
    if n > 0 {
      LeSame(b, b', off + 1, n - 1);
    }
  }

  lemma {:induction false} LeBytes(b: Image, b': Image, off: nat, n: nat)
    requires off + n <= |b| == |b'| && n <= 8 && Le(b', off, n) == Le(b, off, n)
    ensures forall k :: off <= k < off + n ==> b'[k] == b[k]
    decreases n
  {
    if n > 0 {
      var x, y := Le(b, off + 1, n - 1), Le(b', off + 1, n - 1);
      assert b[off] as nat + 256 * x == b'[off] as nat + 256 * y;
      assert b[off] as nat < 256 && b'[off] as nat < 256;
      LeBytes(b, b', off + 1, n - 1);
    }
  }

  lemma EhdrSame(b: Image, b': Image)
    requires EHDR_SIZE <= |b| == |b'| && forall o :: 0 <= o < 58 && (o < 40 || 52 <= o) ==> b'[o] == b[o]
    ensures ReadEhdr(b') == ReadEhdr(b)
  {
    hide Le;
    assert b'[..16] == b[..16];
    LeSame(b, b', 16, 2);
    LeSame(b, b', 18, 2);
    LeSame(b, b', 20, 4);
    LeSame(b, b', 24, 8);
    LeSame(b, b', 32, 8);
    LeSame(b, b', 52, 2);
    LeSame(b, b', 54, 2);
    LeSame(b, b', 56, 2);
  }

  lemma EhdrBytesSame(b: Image, b': Image)
    requires EHDR_SIZE <= |b| == |b'| && ReadEhdr(b') == ReadEhdr(b)
    ensures forall o :: 0 <= o < 58 && (o < 40 || 52 <= o) ==> b'[o] == b[o]
  {
    hide Le;
    assert forall o :: 0 <= o < 16 ==> b'[..16][o] == b[..16][o];
    LeBytes(b, b', 16, 2);
    LeBytes(b, b', 18, 2);
    LeBytes(b, b', 20, 4);
    LeBytes(b, b', 24, 8);
    LeBytes(b, b', 32, 8);
    LeBytes(b, b', 52, 2);
    LeBytes(b, b', 54, 2);
    LeBytes(b, b', 56, 2);
  }

  lemma PhdrSame(b: Image, b': Image, at: nat)
    requires at + PHDR_SIZE <= |b| == |b'|
    ensures ReadPhdr(b', at) == ReadPhdr(b, at) <==> forall o: nat :: InHeader(at, o) ==> b'[o] == b[o]
  {
    hide Le;
    if forall o: nat :: InHeader(at, o) ==> b'[o] == b[o] {
      forall o: nat | at <= o < at + 24 || at + 32 <= o < at + PHDR_SIZE
        ensures b'[o] == b[o]
      {
        assert InHeader(at, o);
      }
      LeSame(b, b', at, 4);
      LeSame(b, b', at + 4, 4);
      LeSame(b, b', at + 8, 8);
      LeSame(b, b', at + 16, 8);
      LeSame(b, b', at + 32, 8);
      LeSame(b, b', at + 40, 8);
      LeSame(b, b', at + 48, 8);
    }
    if ReadPhdr(b', at) == ReadPhdr(b, at) {
      LeBytes(b, b', at, 4);
      LeBytes(b, b', at + 4, 4);
      LeBytes(b, b', at + 8, 8);
      LeBytes(b, b', at + 16, 8);
      LeBytes(b, b', at + 32, 8);
      LeBytes(b, b', at + 40, 8);
      LeBytes(b, b', at + 48, 8);
    }
  }

  /** Two images of one size look the same to the loader exactly when the bytes it reads are. */
  lemma SameHeadersIff(b: Image, b': Image)
    requires EHDR_SIZE <= |b| == |b'| && HeaderOk(ReadEhdr(b), |b|)
    ensures SameHeaders(b, b') <==> forall o: nat :: o < |b| && Fixed(ReadEhdr(b), o) ==> b'[o] == b[o]
  {
    hide ReadEhdr, ReadPhdr, HeaderOk, Headers;
    if SameHeaders(b, b') {
      forall o: nat | o < |b| && Fixed(ReadEhdr(b), o)
        ensures b'[o] == b[o]
      {
        FixedSame(b, b', o);
      }
    }
    if forall o: nat :: o < |b| && Fixed(ReadEhdr(b), o) ==> b'[o] == b[o] {
      AllSame(b, b');
    }
  }

  lemma FixedSame(b: Image, b': Image, o: nat)
    requires SameHeaders(b, b') && o < |b| && Fixed(ReadEhdr(b), o)
    ensures b'[o] == b[o]
  {
    hide ReadEhdr, ReadPhdr;
    EhdrBytesSame(b, b');
    if !(o < 40 || 52 <= o < 58) {
      var eh := ReadEhdr(b);
      var i: nat :| i < eh.phnum && InHeader(eh.phoff + i * PHDR_SIZE, o);
      assert Headers(b', eh)[i] == Headers(b, eh)[i];
      PhdrSame(b, b', eh.phoff + i * PHDR_SIZE);
    }
  }

  lemma AllSame(b: Image, b': Image)
    requires EHDR_SIZE <= |b| == |b'| && HeaderOk(ReadEhdr(b), |b|)
    requires forall o: nat :: o < |b| && Fixed(ReadEhdr(b), o) ==> b'[o] == b[o]
    ensures SameHeaders(b, b')
  {
    hide ReadEhdr, ReadPhdr;
    var eh := ReadEhdr(b);
    forall o | 0 <= o < 58 && (o < 40 || 52 <= o)
      ensures b'[o] == b[o]
    {
      assert Fixed(eh, o);
    }
    EhdrSame(b, b');
    forall i: nat | i < eh.phnum
      ensures eh.phoff + i * PHDR_SIZE + PHDR_SIZE <= |b| && ReadPhdr(b', eh.phoff + i * PHDR_SIZE) == ReadPhdr(b, eh.phoff + i * PHDR_SIZE)
    {
      PhdrSame(b, b', eh.phoff + i * PHDR_SIZE);
      forall o: nat | InHeader(eh.phoff + i * PHDR_SIZE, o)
        ensures b'[o] == b[o]
      {
        assert Fixed(eh, o);
      }
    }
  }

  function FileOffset(ph: Phdr, base: nat, a: nat): nat
    requires InFile(ph, base, a)
  {
    ph.offset + (a - ph.vaddr - base)
  }

  /** What the segment asks for at `a` is settled by the headers: a zero, or a byte of theirs. */
  ghost predicate Settled(eh: Ehdr, ph: Phdr, base: nat, a: nat) {
    InFile(ph, base, a) ==> Fixed(eh, FileOffset(ph, base, a))
  }

  /** Wherever segments of both images lie, what they ask for is settled and the same. */
  ghost predicate Harmless(b1: Image, b2: Image)
    requires Accepted(b1) && Accepted(b2)
  {
    var eh1, eh2 := ReadEhdr(b1), ReadEhdr(b2);
    var phs1, phs2 := Headers(b1, eh1), Headers(b2, eh2);
    forall i, j, a: nat {:trigger InSegment(phs1[i], Base(eh1), a), InSegment(phs2[j], Base(eh2), a)} ::
      0 <= i < |phs1| && 0 <= j < |phs2| && InSegment(phs1[i], Base(eh1), a) && InSegment(phs2[j], Base(eh2), a) ==>
      && Settled(eh1, phs1[i], Base(eh1), a) && Settled(eh2, phs2[j], Base(eh2), a)
      && Want(b1, phs1[i], Base(eh1), a) == Want(b2, phs2[j], Base(eh2), a)
  }

  ghost predicate Fit(b1: Image, b2: Image)
    requires Accepted(b1) && Accepted(b2)
  {
    Compatible(b1, Headers(b1, ReadEhdr(b1)), Base(ReadEhdr(b1)), b2, Headers(b2, ReadEhdr(b2)), Base(ReadEhdr(b2)))
  }

  /** Images the loader takes for the same are accepted together. */
  lemma SameAccepted(b: Image, b': Image)
    requires Accepted(b) && SameHeaders(b, b')
    ensures Accepted(b')
  {
    hide ReadEhdr, Headers, TableOk, HeaderOk;
  }

  /** All images with the headers of these two go together. */
  ghost predicate AlwaysFit(b1: Image, b2: Image)
    requires Accepted(b1) && Accepted(b2)
  {
    forall c1: Image, c2: Image :: SameHeaders(b1, c1) && SameHeaders(b2, c2) && Accepted(c1) && Accepted(c2) ==> Fit(c1, c2)
  }

  lemma WantSame(b: Image, b': Image, ph: Phdr, a: nat)
    requires Accepted(b) && SameHeaders(b, b') && Settled(ReadEhdr(b), ph, Base(ReadEhdr(b)), a)
    ensures Want(b', ph, Base(ReadEhdr(b)), a) == Want(b, ph, Base(ReadEhdr(b)), a)
  {
    hide ReadEhdr, Headers, TableOk, HeaderOk, Fixed;
    SameHeadersIff(b, b');
  }

  /** An unsettled byte can be changed without the loader noticing. */
  lemma WantChanged(b: Image, ph: Phdr, a: nat) returns (b': Image)
    requires Accepted(b) && InPlace(ph, Base(ReadEhdr(b)), |b|) && !Settled(ReadEhdr(b), ph, Base(ReadEhdr(b)), a)
    ensures SameHeaders(b, b') && Accepted(b') && Want(b', ph, Base(ReadEhdr(b)), a) != Want(b, ph, Base(ReadEhdr(b)), a)
  {
    hide ReadEhdr, Headers, TableOk, HeaderOk, Fixed, SameHeaders;
    var o := FileOffset(ph, Base(ReadEhdr(b)), a);
    b' := b[o := if b[o] == 0 then 1 else 0];
    SameHeadersIff(b, b');
    SameAccepted(b, b');
  }

  /** Two accepted images go together for all contents the loader does not read exactly when what
      they ask for where they overlap is settled by the headers, and the same. */
  lemma AlwaysFitIff(b1: Image, b2: Image)
    requires Accepted(b1) && Layout(Headers(b1, ReadEhdr(b1)), Base(ReadEhdr(b1)), |b1|)
    requires Accepted(b2) && Layout(Headers(b2, ReadEhdr(b2)), Base(ReadEhdr(b2)), |b2|)
    ensures AlwaysFit(b1, b2) <==> Harmless(b1, b2)
  {
    hide ReadEhdr, Headers, TableOk, HeaderOk, Layout, Want, SameHeaders, Settled, Base;
    var eh1, eh2 := ReadEhdr(b1), ReadEhdr(b2);
    var phs1, phs2 := Headers(b1, eh1), Headers(b2, eh2);
    if Harmless(b1, b2) {
      forall c1: Image, c2: Image | SameHeaders(b1, c1) && SameHeaders(b2, c2) && Accepted(c1) && Accepted(c2)
        ensures Fit(c1, c2)
      {
        HarmlessFits(b1, b2, c1, c2);
      }
    }
    if i, j, a: nat :| 0 <= i < |phs1| && 0 <= j < |phs2| && InSegment(phs1[i], Base(eh1), a) && InSegment(phs2[j], Base(eh2), a)
                       && !(Settled(eh1, phs1[i], Base(eh1), a) && Settled(eh2, phs2[j], Base(eh2), a)
                            && Want(b1, phs1[i], Base(eh1), a) == Want(b2, phs2[j], Base(eh2), a)) {
      LayoutAt(phs1, Base(eh1), |b1|, i);
      LayoutAt(phs2, Base(eh2), |b2|, j);
      Misfit(b1, b2, i, j, a);
    }
  }

  lemma Misfit(b1: Image, b2: Image, i: nat, j: nat, a: nat)
    requires Accepted(b1) && Accepted(b2) && i < ReadEhdr(b1).phnum && j < ReadEhdr(b2).phnum
    requires var ph, base := Headers(b1, ReadEhdr(b1))[i], Base(ReadEhdr(b1)); InSegment(ph, base, a) && InPlace(ph, base, |b1|)
    requires var ph, base := Headers(b2, ReadEhdr(b2))[j], Base(ReadEhdr(b2)); InSegment(ph, base, a) && InPlace(ph, base, |b2|)
    requires var ph1, base1, ph2, base2 := Headers(b1, ReadEhdr(b1))[i], Base(ReadEhdr(b1)), Headers(b2, ReadEhdr(b2))[j], Base(ReadEhdr(b2));
             !(Settled(ReadEhdr(b1), ph1, base1, a) && Settled(ReadEhdr(b2), ph2, base2, a) && Want(b1, ph1, base1, a) == Want(b2, ph2, base2, a))
    ensures !AlwaysFit(b1, b2)
  {
    hide ReadEhdr, Headers, TableOk, HeaderOk, Want, SameHeaders, Settled, Base, InSegment, InPlace;
    var eh1, eh2 := ReadEhdr(b1), ReadEhdr(b2);
    var ph1, ph2 := Headers(b1, eh1)[i], Headers(b2, eh2)[j];
    SameSelf(b1);
    SameSelf(b2);
    if !Settled(eh1, ph1, Base(eh1), a) {
      var c1 := WantChanged(b1, ph1, a);
      HeadersOf(b1, c1);
      assert !(Fit(c1, b2) && Fit(b1, b2));
    } else if !Settled(eh2, ph2, Base(eh2), a) {
      var c2 := WantChanged(b2, ph2, a);
      HeadersOf(b2, c2);
      assert !(Fit(b1, c2) && Fit(b1, b2));
    } else {
      assert !Fit(b1, b2);
    }
  }

  lemma SameSelf(b: Image)
    requires Accepted(b)
    ensures SameHeaders(b, b)
  {
    hide ReadEhdr, Headers, TableOk, HeaderOk;
  }

  lemma HeadersOf(b: Image, b': Image)
    requires Accepted(b) && SameHeaders(b, b')
    ensures ReadEhdr(b') == ReadEhdr(b) && Headers(b', ReadEhdr(b)) == Headers(b, ReadEhdr(b)) && |b'| == |b|
  {
    hide ReadEhdr, Headers, TableOk, HeaderOk;
  }

  lemma HarmlessFits(b1: Image, b2: Image, c1: Image, c2: Image)
    requires Accepted(b1) && Accepted(b2) && Harmless(b1, b2)
    requires SameHeaders(b1, c1) && SameHeaders(b2, c2) && Accepted(c1) && Accepted(c2)
    ensures Fit(c1, c2)
  {
    hide ReadEhdr, Headers, TableOk, HeaderOk, Want, SameHeaders, Settled, Base;
    var eh1, eh2 := ReadEhdr(b1), ReadEhdr(b2);
    var phs1, phs2 := Headers(b1, eh1), Headers(b2, eh2);
    HeadersOf(b1, c1);
    HeadersOf(b2, c2);
    forall i, j, a: nat | 0 <= i < |phs1| && 0 <= j < |phs2| && InSegment(phs1[i], Base(eh1), a) && InSegment(phs2[j], Base(eh2), a)
      ensures Want(c1, phs1[i], Base(eh1), a) == Want(c2, phs2[j], Base(eh2), a)
    {
      WantSame(b1, c1, phs1[i], a);
      WantSame(b2, c2, phs2[j], a);
    }
  }

  /** No segment takes a byte the loader reads from its file. */
  ghost predicate BehindHeaders(b: Image)
    requires Accepted(b)
  {
    var eh := ReadEhdr(b);
    forall i, a: nat {:trigger InFile(Headers(b, eh)[i], Base(eh), a)} ::
      0 <= i < eh.phnum && InFile(Headers(b, eh)[i], Base(eh), a) ==> !Fixed(eh, FileOffset(Headers(b, eh)[i], Base(eh), a))
  }

  /** Without a conflict two images always go together; for images that load nothing of their
      headers also the converse holds. */
  lemma NoConflictFits(b1: Image, b2: Image)
    requires Accepted(b1) && Accepted(b2)
    ensures !Conflict(Headers(b1, ReadEhdr(b1)), Base(ReadEhdr(b1)), Headers(b2, ReadEhdr(b2)), Base(ReadEhdr(b2))) ==> Harmless(b1, b2)
    ensures BehindHeaders(b1) && BehindHeaders(b2) && Harmless(b1, b2) ==>
              !Conflict(Headers(b1, ReadEhdr(b1)), Base(ReadEhdr(b1)), Headers(b2, ReadEhdr(b2)), Base(ReadEhdr(b2)))
  {
    hide ReadEhdr, Headers, TableOk, HeaderOk, Fixed, Base;
    var eh1, eh2 := ReadEhdr(b1), ReadEhdr(b2);
    var phs1, phs2 := Headers(b1, eh1), Headers(b2, eh2);
    if Conflict(phs1, Base(eh1), phs2, Base(eh2)) && BehindHeaders(b1) && BehindHeaders(b2) {
      var i, j, a: nat :|
        && 0 <= i < |phs1| && 0 <= j < |phs2| && InSegment(phs1[i], Base(eh1), a) && InSegment(phs2[j], Base(eh2), a)
        && (InFile(phs1[i], Base(eh1), a) || InFile(phs2[j], Base(eh2), a));
      assert !Settled(eh1, phs1[i], Base(eh1), a) || !Settled(eh2, phs2[j], Base(eh2), a);
    }
  }

  ghost predicate AllApart(phs1: seq<Phdr>, base1: nat, phs2: seq<Phdr>, base2: nat) {
    forall i, j :: 0 <= i < |phs1| && 0 <= j < |phs2| && IsLoad(phs1[i]) && IsLoad(phs2[j]) ==>
      phs1[i].vaddr + base1 + phs1[i].memsz <= phs2[j].vaddr + base2 || phs2[j].vaddr + base2 + phs2[j].memsz <= phs1[i].vaddr + base1
  }

  /** Tables whose segments are pairwise apart never conflict. */
  lemma ApartNeverConflicts(phs1: seq<Phdr>, base1: nat, phs2: seq<Phdr>, base2: nat)
    requires AllApart(phs1, base1, phs2, base2)
    ensures !Conflict(phs1, base1, phs2, base2)
  {
  }

  /** Being apart is not needed: two zero-filled segments may share addresses. */
  lemma SharedZeroes()
    ensures var bss := Phdr(PT_LOAD, 6, 0, 0x400000, 0, 1, 0); !AllApart([bss], 0, [bss], 0) && !Conflict([bss], 0, [bss], 0)
  {
    var bss := Phdr(PT_LOAD, 6, 0, 0x400000, 0, 1, 0);
    assert IsLoad([bss][0]);
  }

  /** Nor is the absence of a conflict: two images that load the same byte of their headers. */
  lemma SharedHeader()
    ensures var b := ImageOf(ET_EXEC, 0x400000, [CODE]);
            && Accepted(b) && Headers(b, ReadEhdr(b)) == [CODE] && Base(ReadEhdr(b)) == 0
            && Conflict([CODE], 0, [CODE], 0) && Harmless(b, b)
  {
    hide ReadEhdr, Headers, TableBytes, Encoded, Accepted, Want;
    var phs := [CODE];
    TableAccepted(phs, EHDR_SIZE + PHDR_SIZE * 1);
    assert FieldsOk(PhdrFields(CODE));
    ImageAccepted(ET_EXEC, 0x400000, phs);
    ImageReadsBack(ET_EXEC, 0x400000, phs);
    assert InSegment(phs[0], 0, 0x400000) && InFile(phs[0], 0, 0x400000);
  }

  const CODE := Phdr(PT_LOAD, 5, 0, 0x400000, 1, 1, 0)
  const LINKER := Phdr(PT_LOAD, 5, 4, 0x400000, 1, 1, 0)
  const INTERP := Phdr(PT_INTERP, 4, 0, 0, 1, 0, 0)

  /** A program that names a linker linked to the same address: both images are accepted, and they
      ask for different bytes there. */
  lemma OverlapAccepted()
    ensures var b1, b2 := ImageOf(ET_EXEC, 0x400000, [CODE, INTERP]), ImageOf(ET_EXEC, 0x400000, [LINKER]);
            && Accepted(b1) && Accepted(b2) && Headers(b1, ReadEhdr(b1)) == [CODE, INTERP] && Headers(b2, ReadEhdr(b2)) == [LINKER]
            && !Compatible(b1, [CODE, INTERP], 0, b2, [LINKER], 0)
  {
    hide ReadEhdr, Headers, TableBytes, Encoded, Accepted;
    var phs1, phs2 := [CODE, INTERP], [LINKER];
    TableAccepted(phs1, EHDR_SIZE + PHDR_SIZE * 2);
    TableAccepted(phs2, EHDR_SIZE + PHDR_SIZE * 1);
    assert FieldsOk(PhdrFields(CODE)) && FieldsOk(PhdrFields(INTERP)) && FieldsOk(PhdrFields(LINKER));
    ImageAccepted(ET_EXEC, 0x400000, phs1);
    ImageAccepted(ET_EXEC, 0x400000, phs2);
    ImageReadsBack(ET_EXEC, 0x400000, phs1);
    ImageReadsBack(ET_EXEC, 0x400000, phs2);
    var b1, b2 := ImageOf(ET_EXEC, 0x400000, phs1), ImageOf(ET_EXEC, 0x400000, phs2);
    assert b1[0] == IDENT[0] == 0x7F && b2[4] == IDENT[4] == 2;
    assert InSegment(phs1[0], 0, 0x400000) && InSegment(phs2[0], 0, 0x400000);
  }

  lemma TableAccepted(phs: seq<Phdr>, size: nat)
    requires (phs == [CODE, INTERP] || phs == [LINKER] || phs == [CODE]) && 64 <= size < USER_BYTES
    ensures TableOk(phs, 0, 0x400000, size)
  {
    assert EachOk(CODE, 0, size) && EachOk(LINKER, 0, size) && EachOk(INTERP, 0, size);
    assert HasEntry(phs[0], 0x400000);
    if |phs| == 2 {
      assert phs[..1] == [CODE] && [CODE][..0] == [];
      assert Loads([CODE]) == 1;
    } else {
      assert phs[..0] == [];
    }
  }

  // -----------------------------------------------------------------------------
  // Permissions and stack

  /** Every page: stack pages as before; the others mapped exactly when touched by either table,
      writable (executable) exactly when some segment of either is. */
  ghost predicate JointMap(m: Memory, c: nat, phs1: seq<Phdr>, base1: nat, phs2: seq<Phdr>, base2: nat, nx: bool) {
    forall q: nat {:trigger PageOf(q)} :: q < USER_PAGES ==>
      if OnStack(q, STACK_PAGES) then StackFlags(Leaf(m, c, PageOf(q)).flags, nx)
      else JointlyAsked(Leaf(m, c, PageOf(q)).flags, phs1, base1, phs2, base2, nx, q)
  }

  ghost predicate JointlyAsked(f: Flags, phs1: seq<Phdr>, base1: nat, phs2: seq<Phdr>, base2: nat, nx: bool, q: nat) {
    && (f.present <==> Touched(phs1, base1, |phs1|, 0, q) || Touched(phs2, base2, |phs2|, 0, q))
    && (f.present ==>
          && f.user
          && (f.write <==> Writable(phs1, base1, |phs1|, 0, q) || Writable(phs2, base2, |phs2|, 0, q))
          && (nx ==> (f.nx <==> !Executable(phs1, base1, |phs1|, 0, q) && !Executable(phs2, base2, |phs2|, 0, q))))
  }

  lemma JointMapIs(m1: Memory, m: Memory, c: nat, phs1: seq<Phdr>, base1: nat, phs2: seq<Phdr>, base2: nat, size2: nat, nx: bool)
    requires FinalMap(m1, c, phs1, base1, nx) && Perms(m1, m, c, phs2, base2, |phs2|, 0, nx) && Layout(phs2, base2, size2)
    ensures JointMap(m, c, phs1, base1, phs2, base2, nx)
  {
    hide Leaf, PageOf, Touched, Writable, Executable, Layout;
    NotSeen(phs1, base1, |phs1|, 0);
    NotSeen(phs2, base2, |phs2|, 0);
    forall q: nat | q < USER_PAGES
      ensures if OnStack(q, STACK_PAGES) then StackFlags(Leaf(m, c, PageOf(q)).flags, nx)
              else JointlyAsked(Leaf(m, c, PageOf(q)).flags, phs1, base1, phs2, base2, nx, q)
    {
      assert PagePerms(Leaf(m1, c, PageOf(q)).flags, Leaf(m, c, PageOf(q)).flags, phs2, base2, |phs2|, 0, nx, q);
      if OnStack(q, STACK_PAGES) {
        StackUntouched(phs2, base2, size2, q);
      }
    }
  }

  /** What the stack holds, it still holds. */
  lemma StackKept(m1: Memory, m: Memory, c: nat, b2: Image, phs2: seq<Phdr>, base2: nat, at: nat, data: seq<byte>)
    requires Layout(phs2, base2, |b2|) && Laden(m1, m, c, b2, phs2, base2)
    requires STACK_TOP - STACK_SIZE <= at && at + |data| <= STACK_TOP && UserCopy.Holds(m1, c, at, data)
    ensures UserCopy.Holds(m, c, at, data)
  {
    hide ByteAt, Touched, Layout;
    forall k: nat | k < |data|
      ensures ByteAt(m, c, at + k) == Some(data[k])
    {
      assert ByteAt(m1, c, at + k) == Some(data[k]);
      forall j | 0 <= j < |phs2|
        ensures !InFile(phs2[j], base2, at + k)
      {
        LayoutAt(phs2, base2, |b2|, j);
      }
    }
  }
}
