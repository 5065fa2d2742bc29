/** ELF64 images: decoding the headers and deciding whether an image may be loaded
    ("Program Header" and "Program Loading", chapter 5 of the System V gABI). */
module ElfImage {
  import opened Common
  import opened PageTable
  import opened UserBytes

  type Image = seq<byte>

  const EHDR_SIZE: nat := 64
  const PHDR_SIZE: nat := 56
  const MAX_PHNUM: nat := 64
  const MAX_LOADS: nat := 16
  const ET_EXEC: nat := 2
  const ET_DYN: nat := 3
  const EM_X86_64: nat := 62
  const PT_LOAD: nat := 1
  const PT_DYNAMIC: nat := 2
  const PT_INTERP: nat := 3
  const DYN_BASE: nat := 0x4000_0000
  const USER_MIN: nat := 0x1_0000
  const STACK_TOP: nat := 0x7000_0000_0000
  const STACK_SIZE: nat := 16 * 4096
  const INTERP_MAX: nat := 64

  datatype Ehdr = Ehdr(ident: seq<byte>, kind: nat, machine: nat, version: nat, entry: nat, phoff: nat,
                       ehsize: nat, phentsize: nat, phnum: nat)

  datatype Phdr = Phdr(kind: nat, flags: nat, offset: nat, vaddr: nat, filesz: nat, memsz: nat, align: nat)
  {
    predicate Exec() { flags % 2 == 1 }

    predicate Write() { flags / 2 % 2 == 1 }

    predicate Read() { flags / 4 % 2 == 1 }
  }

  datatype Loader = Loader(image: Image, entry: nat, base: nat, interp: Option<seq<byte>>, phdr: nat)

  /** The little-endian number in `n` bytes from `off`. */
  function Le(b: Image, off: nat, n: nat): (r: nat)
    requires off + n <= |b| && n <= 8
    ensures r < Pow256(n)
    decreases n
  {
    if n == 0 then 0 else b[off] as nat + 256 * Le(b, off + 1, n - 1)
  }

  function ReadEhdr(b: Image): Ehdr
    requires EHDR_SIZE <= |b|
  {
    Ehdr(b[..16], Le(b, 16, 2), Le(b, 18, 2), Le(b, 20, 4), Le(b, 24, 8), Le(b, 32, 8), Le(b, 52, 2), Le(b, 54, 2), Le(b, 56, 2))
  }

  function ReadPhdr(b: Image, off: nat): Phdr
    requires off + PHDR_SIZE <= |b|
  {
    Phdr(Le(b, off, 4), Le(b, off + 4, 4), Le(b, off + 8, 8), Le(b, off + 16, 8), Le(b, off + 32, 8), Le(b, off + 40, 8), Le(b, off + 48, 8))
  }

  predicate HeaderOk(eh: Ehdr, size: nat) {
    && |eh.ident| == 16 && eh.ident[0] == 0x7F && eh.ident[1] == 0x45 && eh.ident[2] == 0x4C && eh.ident[3] == 0x46
    && eh.ident[4] == 2 && eh.ident[5] == 1 && eh.ident[6] == 1
    && (eh.kind == ET_EXEC || eh.kind == ET_DYN) && eh.machine == EM_X86_64 && eh.version == 1
    && eh.ehsize == EHDR_SIZE && eh.phentsize == PHDR_SIZE && 0 < eh.phnum <= MAX_PHNUM
    && eh.phoff <= size && eh.phnum * PHDR_SIZE <= size - eh.phoff
  }

  /** The program header table; inside the image once the header is right. */
  function Headers(b: Image, eh: Ehdr): (phs: seq<Phdr>)
    requires HeaderOk(eh, |b|)
    ensures |phs| == eh.phnum
  {
    seq(eh.phnum, i requires 0 <= i < eh.phnum => assert eh.phoff + i * PHDR_SIZE + PHDR_SIZE <= |b|; ReadPhdr(b, eh.phoff + i * PHDR_SIZE))
  }

  function Base(eh: Ehdr): nat { if eh.kind == ET_DYN then DYN_BASE else 0 }

  predicate IsLoad(ph: Phdr) { ph.kind == PT_LOAD && ph.memsz != 0 }

  /** First address of a segment, and the address after its last; both as 64-bit words. */
  function Start(ph: Phdr, base: nat): nat { Add64(ph.vaddr, base) }

  function End(ph: Phdr, base: nat): nat { Add64(Start(ph, base), ph.memsz) }

  predicate PowerOfTwo(n: nat) {
    n == 1 || (n != 0 && n % 2 == 0 && PowerOfTwo(n / 2))
  }

  predicate AlignOk(ph: Phdr) {
    ph.align > 1 ==> PowerOfTwo(ph.align) && ph.vaddr % ph.align == ph.offset % ph.align
  }

  predicate SegmentOk(ph: Phdr, base: nat, size: nat) {
    && ph.filesz <= ph.memsz && ph.offset <= size && ph.filesz <= size - ph.offset
    && ph.vaddr <= Start(ph, base) && ph.vaddr <= Add64(ph.vaddr, ph.memsz)
    && USER_MIN <= Start(ph, base) && End(ph, base) <= USER_BYTES
    && ph.Read() && !(ph.Write() && ph.Exec())
    && AlignOk(ph)
    && !(Start(ph, base) < STACK_TOP && End(ph, base) > STACK_TOP - STACK_SIZE)
  }

  predicate InterpOk(ph: Phdr, size: nat) {
    ph.filesz != 0 && ph.offset < size && ph.filesz < INTERP_MAX && Add64(ph.offset, ph.filesz) <= size
  }

  predicate Overlap(a: Phdr, b: Phdr, base: nat) {
    Start(a, base) < End(b, base) && End(a, base) > Start(b, base)
  }

  predicate HasEntry(ph: Phdr, entry: nat) {
    IsLoad(ph) && ph.Exec() && ph.vaddr <= entry < ph.vaddr + ph.memsz
  }

  function Loads(phs: seq<Phdr>): nat {
    if phs == [] then 0 else Loads(phs[..|phs| - 1]) + if IsLoad(phs[|phs| - 1]) then 1 else 0
  }

  /** Header `ph` alone is acceptable. */
  predicate EachOk(ph: Phdr, base: nat, size: nat) {
    (ph.kind == PT_INTERP ==> InterpOk(ph, size)) && (IsLoad(ph) ==> SegmentOk(ph, base, size))
  }

  /** What it takes for a program header table to be accepted. */
  ghost predicate TableOk(phs: seq<Phdr>, base: nat, entry: nat, size: nat) {
    && (forall i :: 0 <= i < |phs| ==> EachOk(phs[i], base, size))
    && (forall i, j :: 0 <= i < j < |phs| && IsLoad(phs[i]) && IsLoad(phs[j]) ==> !Overlap(phs[j], phs[i], base))
    && Loads(phs) <= MAX_LOADS
    && (exists i :: 0 <= i < |phs| && HasEntry(phs[i], entry))
  }

  ghost predicate Accepted(b: Image) {
    && EHDR_SIZE <= |b| && HeaderOk(ReadEhdr(b), |b|)
    && TableOk(Headers(b, ReadEhdr(b)), Base(ReadEhdr(b)), ReadEhdr(b).entry, |b|)
  }

  /** The path of the last PT_INTERP header. */
  function Interp(b: Image, phs: seq<Phdr>): Option<seq<byte>>
    requires forall i :: 0 <= i < |phs| && phs[i].kind == PT_INTERP ==> phs[i].offset + phs[i].filesz <= |b|
  {
    if phs == [] then None
    else
      var ph := phs[|phs| - 1];
      if ph.kind == PT_INTERP then Some(b[ph.offset..ph.offset + ph.filesz]) else Interp(b, phs[..|phs| - 1])
  }

  /** Which path that is: the file bytes of a PT_INTERP header with none after it. */
  lemma {:induction false} InterpIff(b: Image, phs: seq<Phdr>)
    requires forall i :: 0 <= i < |phs| && phs[i].kind == PT_INTERP ==> phs[i].offset + phs[i].filesz <= |b|
    ensures Interp(b, phs).None? <==> forall i :: 0 <= i < |phs| ==> phs[i].kind != PT_INTERP
    ensures forall i :: 0 <= i < |phs| && phs[i].kind == PT_INTERP && (forall j :: i < j < |phs| ==> phs[j].kind != PT_INTERP) ==>
              Interp(b, phs) == Some(b[phs[i].offset..phs[i].offset + phs[i].filesz])
    decreases |phs|
  {
    if phs != [] && phs[|phs| - 1].kind != PT_INTERP {
      var front := phs[..|phs| - 1];
      InterpIff(b, front);
      assert forall i :: 0 <= i < |front| ==> front[i] == phs[i];
    }
  }

  // -----------------------------------------------------------------------------
  // The validator

  datatype Range = Range(start: nat, end: nat)

  /** `seen` holds the ranges of exactly the load segments among the first `n` headers. */
  ghost predicate Collected(seen: seq<Range>, phs: seq<Phdr>, n: nat, base: nat)
    requires n <= |phs|
  {
    && (forall i :: 0 <= i < n && IsLoad(phs[i]) ==> Range(Start(phs[i], base), End(phs[i], base)) in seen)
    && (forall r :: r in seen ==> exists i :: 0 <= i < n && IsLoad(phs[i]) && r == Range(Start(phs[i], base), End(phs[i], base)))
    && |seen| == Loads(phs[..n])
  }

  ghost predicate NoneOverlap(phs: seq<Phdr>, n: nat, base: nat)
    requires n <= |phs|
  {
    forall i, j :: 0 <= i < j < n && IsLoad(phs[i]) && IsLoad(phs[j]) ==> !Overlap(phs[j], phs[i], base)
  }

  /** Does the range meet one of those already seen? */
  method Clashes(seen: seq<Range>, start: nat, end: nat) returns (clash: bool)
    ensures clash <==> exists k :: 0 <= k < |seen| && start < seen[k].end && end > seen[k].start
  {
    for k := 0 to |seen|
      invariant forall l :: 0 <= l < k ==> !(start < seen[l].end && end > seen[l].start)
    {
      if start < seen[k].end && end > seen[k].start {
        return true;
      }
    }
    return false;
  }

  lemma LoadsNext(phs: seq<Phdr>, n: nat)
    requires n < |phs|
    ensures Loads(phs[..n + 1]) == Loads(phs[..n]) + if IsLoad(phs[n]) then 1 else 0
  {
    assert phs[..n + 1][..n] == phs[..n];
  }

  lemma {:induction false} LoadsGrow(phs: seq<Phdr>, n: nat)
    requires n <= |phs|
    ensures Loads(phs[..n]) <= Loads(phs)
    decreases |phs| - n
  {
    if n < |phs| {
      LoadsNext(phs, n);
      LoadsGrow(phs, n + 1);
    } else {
      assert phs[..n] == phs;
    }
  }

  lemma ClashIsOverlap(seen: seq<Range>, phs: seq<Phdr>, n: nat, base: nat)
    requires n < |phs| && Collected(seen, phs, n, base)
    ensures (exists k :: 0 <= k < |seen| && Start(phs[n], base) < seen[k].end && End(phs[n], base) > seen[k].start) <==>
            (exists i :: 0 <= i < n && IsLoad(phs[i]) && Overlap(phs[n], phs[i], base))
  {
    hide Add64, Start, End;
    forall k | 0 <= k < |seen| && Start(phs[n], base) < seen[k].end && End(phs[n], base) > seen[k].start
      ensures exists i :: 0 <= i < n && IsLoad(phs[i]) && Overlap(phs[n], phs[i], base)
    {
      assert seen[k] in seen;
      var i :| 0 <= i < n && IsLoad(phs[i]) && seen[k] == Range(Start(phs[i], base), End(phs[i], base));
      assert Overlap(phs[n], phs[i], base);
    }
    forall i | 0 <= i < n && IsLoad(phs[i]) && Overlap(phs[n], phs[i], base)
      ensures exists k :: 0 <= k < |seen| && Start(phs[n], base) < seen[k].end && End(phs[n], base) > seen[k].start
    {
      var k :| 0 <= k < |seen| && seen[k] == Range(Start(phs[i], base), End(phs[i], base));
    }
  }

  lemma CollectedMore(seen: seq<Range>, phs: seq<Phdr>, n: nat, base: nat)
    requires n < |phs| && Collected(seen, phs, n, base)
    ensures IsLoad(phs[n]) ==> Collected(seen + [Range(Start(phs[n], base), End(phs[n], base))], phs, n + 1, base)
    ensures !IsLoad(phs[n]) ==> Collected(seen, phs, n + 1, base)
  {
    hide Add64, Start, End;
    LoadsNext(phs, n);
    var seen' := seen + [Range(Start(phs[n], base), End(phs[n], base))];
    if IsLoad(phs[n]) {
      forall r | r in seen'
        ensures exists i :: 0 <= i < n + 1 && IsLoad(phs[i]) && r == Range(Start(phs[i], base), End(phs[i], base))
      {
        if r in seen {
          var i :| 0 <= i < n && IsLoad(phs[i]) && r == Range(Start(phs[i], base), End(phs[i], base));
          assert 0 <= i < n + 1;
        } else {
          assert r == Range(Start(phs[n], base), End(phs[n], base));
        }
      }
    } else {
      forall r | r in seen
        ensures exists i :: 0 <= i < n + 1 && IsLoad(phs[i]) && r == Range(Start(phs[i], base), End(phs[i], base))
      {
        var i :| 0 <= i < n && IsLoad(phs[i]) && r == Range(Start(phs[i], base), End(phs[i], base));
        assert 0 <= i < n + 1;
      }
    }
  }

  ghost predicate Clean(phs: seq<Phdr>, n: nat, base: nat, size: nat)
    requires n <= |phs|
  {
    && (forall i :: 0 <= i < n ==> EachOk(phs[i], base, size))
    && NoneOverlap(phs, n, base) && Loads(phs[..n]) <= MAX_LOADS
  }

  /** Header `n` fits beside the headers before it. */
  ghost predicate Fits(phs: seq<Phdr>, n: nat, base: nat, size: nat)
    requires n < |phs|
  {
    && EachOk(phs[n], base, size)
    && (IsLoad(phs[n]) ==> Loads(phs[..n]) < MAX_LOADS && forall i :: 0 <= i < n && IsLoad(phs[i]) ==> !Overlap(phs[n], phs[i], base))
  }

  lemma CleanNext(phs: seq<Phdr>, n: nat, base: nat, size: nat)
    requires n < |phs| && Clean(phs, n, base, size)
    ensures Fits(phs, n, base, size) <==> Clean(phs, n + 1, base, size)
  {
    hide EachOk, Overlap, IsLoad;
    LoadsNext(phs, n);
  }

  lemma CleanTable(phs: seq<Phdr>, n: nat, base: nat, entry: nat, size: nat)
    requires n <= |phs| && !Clean(phs, n, base, size)
    ensures !TableOk(phs, base, entry, size)
  {
    hide EachOk, Overlap, IsLoad;
    LoadsGrow(phs, n);
  }

  lemma {:induction false} LoadsSome(phs: seq<Phdr>, i: nat)
    requires i < |phs| && IsLoad(phs[i])
    ensures Loads(phs) != 0
  {
    LoadsNext(phs, i);
    LoadsGrow(phs, i + 1);
  }

  /** The checks on one program header. */
  method CheckHeader(ghost phs: seq<Phdr>, ghost n: nat, seen: seq<Range>, ph: Phdr, base: nat, size: nat) returns (ok: bool)
    requires n < |phs| && ph == phs[n] && Collected(seen, phs, n, base)
    ensures ok <==> Fits(phs, n, base, size)
  {
    hide Add64, Start, End, SegmentOk, InterpOk, Overlap;
    if ph.kind == PT_INTERP {
      return InterpOk(ph, size);
    }
    if !IsLoad(ph) {
      return true;
    }
    if |seen| >= MAX_LOADS || !SegmentOk(ph, base, size) {
      return false;
    }
    ClashIsOverlap(seen, phs, n, base);
    var clash := Clashes(seen, Start(ph, base), End(ph, base));
    return !clash;
  }

  /** The loop over the program headers. */
  method CheckTable(phs: seq<Phdr>, base: nat, entry: nat, size: nat) returns (ok: bool)
    ensures ok <==> TableOk(phs, base, entry, size)
  {
    hide Collected, EachOk, Overlap, Fits, Loads, Start, End;
    var seen: seq<Range> := [];
    var entryOk := false;
    NothingCollected(phs, base, size);
    for n := 0 to |phs|
      invariant Clean(phs, n, base, size) && Collected(seen, phs, n, base)
      invariant entryOk <==> exists i :: 0 <= i < n && HasEntry(phs[i], entry)
    {
      var ph := phs[n];
      CollectedMore(seen, phs, n, base);
      CleanNext(phs, n, base, size);
      var fits := CheckHeader(phs, n, seen, ph, base, size);
      if !fits {
        CleanTable(phs, n + 1, base, entry, size);
        return false;
      }
      if IsLoad(ph) {
        seen := seen + [Range(Start(ph, base), End(ph, base))];
        if ph.Exec() && ph.vaddr <= entry && entry < ph.vaddr + ph.memsz {
          entryOk := true;
        }
      }
    }
    assert phs[..|phs|] == phs;
    CountIs(seen, phs, base, entry);
    return |seen| != 0 && entryOk;
  }

  lemma NothingCollected(phs: seq<Phdr>, base: nat, size: nat)
    ensures Collected([], phs, 0, base) && Clean(phs, 0, base, size)
  {
  }

  lemma CountIs(seen: seq<Range>, phs: seq<Phdr>, base: nat, entry: nat)
    requires Collected(seen, phs, |phs|, base)
    ensures forall i :: 0 <= i < |phs| && HasEntry(phs[i], entry) ==> |seen| != 0
  {
    assert phs[..|phs|] == phs;
    forall i | 0 <= i < |phs| && HasEntry(phs[i], entry)
      ensures |seen| != 0
    {
      LoadsSome(phs, i);
    }
  }

  lemma InterpInside(b: Image, phs: seq<Phdr>, base: nat, entry: nat)
    requires TableOk(phs, base, entry, |b|) && |b| < USER_BYTES
    ensures forall i :: 0 <= i < |phs| && phs[i].kind == PT_INTERP ==> phs[i].offset + phs[i].filesz <= |b|
  {
    hide SegmentOk, Overlap, Loads;
    forall i | 0 <= i < |phs| && phs[i].kind == PT_INTERP
      ensures phs[i].offset + phs[i].filesz <= |b|
    {
      assert EachOk(phs[i], base, |b|);
    }
  }

  /** `elf_validate`: accepts exactly the images described by `Accepted`, and reads no byte
      outside the image.  The image is a kernel buffer, so it is smaller than half the
      address space. */
  method Validate(b: Image) returns (r: Option<Loader>)
    requires |b| < USER_BYTES
    ensures r.Some? <==> Accepted(b)
    ensures r.Some? ==>
              && r.value.image == b && r.value.base == Base(ReadEhdr(b)) && r.value.entry == ReadEhdr(b).entry
              && r.value.phdr == Add64(ReadEhdr(b).phoff, Base(ReadEhdr(b)))
              && (forall i :: 0 <= i < ReadEhdr(b).phnum && Headers(b, ReadEhdr(b))[i].kind == PT_INTERP ==>
                    Headers(b, ReadEhdr(b))[i].offset + Headers(b, ReadEhdr(b))[i].filesz <= |b|)
              && r.value.interp == Interp(b, Headers(b, ReadEhdr(b)))
  {
    hide ReadEhdr, ReadPhdr, TableOk, Headers, Interp;
    if |b| < EHDR_SIZE {
      return None;
    }
    var eh := ReadEhdr(b);
    if !HeaderOk(eh, |b|) {
      return None;
    }
    var phs := Headers(b, eh);
    var ok := CheckTable(phs, Base(eh), eh.entry, |b|);
    if !ok {
      return None;
    }
    InterpInside(b, phs, Base(eh), eh.entry);
    return Some(Loader(b, eh.entry, Base(eh), Interp(b, phs), Add64(eh.phoff, Base(eh))));
  }

  // -----------------------------------------------------------------------------
  // What acceptance is worth

  predicate NoWrap(ph: Phdr, base: nat) { ph.vaddr + base + ph.memsz < WORD }

  /** The segment lies in the user half, off the stack, and its file part in the image. */
  predicate InPlace(ph: Phdr, base: nat, size: nat) {
    && USER_MIN <= ph.vaddr + base && ph.vaddr + base + ph.memsz <= USER_BYTES
    && ph.filesz <= ph.memsz && ph.offset + ph.filesz <= size
    && (ph.vaddr + base + ph.memsz <= STACK_TOP - STACK_SIZE || STACK_TOP <= ph.vaddr + base)
    && !(ph.Write() && ph.Exec())
  }

  predicate Apart(a: Phdr, b: Phdr, base: nat) {
    a.vaddr + base + a.memsz <= b.vaddr + base || b.vaddr + base + b.memsz <= a.vaddr + base
  }

  /** All segments in place and pairwise disjoint: addresses as plain numbers, no word in sight. */
  ghost predicate Layout(phs: seq<Phdr>, base: nat, size: nat) {
    && (forall i :: 0 <= i < |phs| && IsLoad(phs[i]) ==> InPlace(phs[i], base, size))
    && (forall i, j :: 0 <= i < j < |phs| && IsLoad(phs[i]) && IsLoad(phs[j]) ==> Apart(phs[i], phs[j], base))
  }

  ghost predicate NoneWraps(phs: seq<Phdr>, base: nat) {
    forall i :: 0 <= i < |phs| && IsLoad(phs[i]) ==> NoWrap(phs[i], base)
  }

  lemma SegmentInPlace(ph: Phdr, base: nat, size: nat)
    requires SegmentOk(ph, base, size) && NoWrap(ph, base)
    ensures InPlace(ph, base, size) && Start(ph, base) == ph.vaddr + base && End(ph, base) == ph.vaddr + base + ph.memsz
  {
    hide PowerOfTwo;
  }

  /** An accepted table describes a proper memory layout exactly when no segment end wraps. */
  lemma LayoutIff(phs: seq<Phdr>, base: nat, entry: nat, size: nat)
    requires TableOk(phs, base, entry, size)
    ensures Layout(phs, base, size) <==> NoneWraps(phs, base)
  {
    hide SegmentOk, Loads, Start, End;
    if NoneWraps(phs, base) {
      forall i | 0 <= i < |phs| && IsLoad(phs[i])
        ensures InPlace(phs[i], base, size) && Start(phs[i], base) == phs[i].vaddr + base && End(phs[i], base) == phs[i].vaddr + base + phs[i].memsz
      {
        assert EachOk(phs[i], base, size);
        SegmentInPlace(phs[i], base, size);
      }
      forall i, j | 0 <= i < j < |phs| && IsLoad(phs[i]) && IsLoad(phs[j])
        ensures Apart(phs[i], phs[j], base)
      {
        assert !Overlap(phs[j], phs[i], base);
      }
    }
  }

  /** For fixed-address images the validator's own checks rule the wrap out. */
  lemma ExecNeverWraps(b: Image)
    requires Accepted(b) && ReadEhdr(b).kind == ET_EXEC
    ensures Layout(Headers(b, ReadEhdr(b)), 0, |b|)
  {
    hide TableOk, Layout, Le, ReadEhdr;
    var eh := ReadEhdr(b);
    var phs := Headers(b, eh);
    TableNeverWraps(phs, eh.entry, |b|);
    LayoutIff(phs, 0, eh.entry, |b|);
  }

  lemma TableNeverWraps(phs: seq<Phdr>, entry: nat, size: nat)
    requires TableOk(phs, 0, entry, size) && forall i :: 0 <= i < |phs| ==> phs[i].vaddr < WORD && phs[i].memsz < WORD
    ensures NoneWraps(phs, 0)
  {
    hide Loads, Overlap, InterpOk, AlignOk;
    forall i | 0 <= i < |phs| && IsLoad(phs[i])
      ensures NoWrap(phs[i], 0)
    {
      assert EachOk(phs[i], 0, size);
    }
  }

  // -----------------------------------------------------------------------------
  // Images made from headers

  /** The `n` bytes of a number, least significant first. */
  function Bytes(w: nat, n: nat): (b: seq<byte>)
    ensures |b| == n
    decreases n
  {
    if n == 0 then [] else [(w % 256) as byte] + Bytes(w / 256, n - 1)
  }

  /** Writing a number and reading it gives the number. */
  lemma {:induction false} BytesReadBack(pre: seq<byte>, w: nat, n: nat, post: seq<byte>)
    requires n <= 8 && w < Pow256(n)
    ensures Le(pre + Bytes(w, n) + post, |pre|, n) == w
    decreases n
  {
    var b := pre + Bytes(w, n) + post;
    if n != 0 {
      var pre' := pre + [(w % 256) as byte];
      assert b == pre' + Bytes(w / 256, n - 1) + post;
      BytesReadBack(pre', w / 256, n - 1, post);
      assert b[|pre|] == (w % 256) as byte;
    }
  }

  datatype Field = Field(value: nat, width: nat)

  predicate FieldsOk(fs: seq<Field>) {
    forall i :: 0 <= i < |fs| ==> fs[i].width <= 8 && fs[i].value < Pow256(fs[i].width)
  }

  function Offset(fs: seq<Field>, i: nat): nat
    requires i <= |fs|
  {
    if i == 0 then 0 else Offset(fs, i - 1) + fs[i - 1].width
  }

  function Encoded(fs: seq<Field>, i: nat): (b: seq<byte>)
    requires i <= |fs|
    ensures |b| == Offset(fs, i)
  {
    if i == 0 then [] else Encoded(fs, i - 1) + Bytes(fs[i - 1].value, fs[i - 1].width)
  }

  /** Each field is read back at its offset. */
  lemma {:induction false} FieldAt(pre: seq<byte>, fs: seq<Field>, n: nat, i: nat, post: seq<byte>)
    requires FieldsOk(fs) && i < n <= |fs|
    ensures Offset(fs, i) + fs[i].width <= Offset(fs, n)
    ensures Le(pre + Encoded(fs, n) + post, |pre| + Offset(fs, i), fs[i].width) == fs[i].value
    decreases n
  {
    hide Le, Bytes, Pow256;
    var last := Bytes(fs[n - 1].value, fs[n - 1].width);
    if i == n - 1 {
      BytesReadBack(pre + Encoded(fs, i), fs[i].value, fs[i].width, post);
      assert pre + Encoded(fs, n) + post == (pre + Encoded(fs, i)) + last + post;
    } else {
      FieldAt(pre, fs, n - 1, i, last + post);
      assert pre + Encoded(fs, n) + post == pre + Encoded(fs, n - 1) + (last + post);
    }
  }

  function PhdrFields(ph: Phdr): seq<Field> {
    [Field(ph.kind, 4), Field(ph.flags, 4), Field(ph.offset, 8), Field(ph.vaddr, 8), Field(0, 8), Field(ph.filesz, 8), Field(ph.memsz, 8), Field(ph.align, 8)]
  }

  lemma PhdrOffsets(ph: Phdr)
    ensures var fs := PhdrFields(ph);
            Offset(fs, 1) == 4 && Offset(fs, 2) == 8 && Offset(fs, 3) == 16 && Offset(fs, 4) == 24 &&
            Offset(fs, 5) == 32 && Offset(fs, 6) == 40 && Offset(fs, 7) == 48 && Offset(fs, 8) == 56
  {
    var fs := PhdrFields(ph);
    assert Offset(fs, 1) == 4;
    assert Offset(fs, 2) == 8;
    assert Offset(fs, 3) == 16;
    assert Offset(fs, 4) == 24;
    assert Offset(fs, 5) == 32;
    assert Offset(fs, 6) == 40;
    assert Offset(fs, 7) == 48;
  }

  /** A written program header is read back. */
  lemma PhdrReadBack(pre: seq<byte>, ph: Phdr, post: seq<byte>)
    requires FieldsOk(PhdrFields(ph))
    ensures |Encoded(PhdrFields(ph), 8)| == PHDR_SIZE
    ensures ReadPhdr(pre + Encoded(PhdrFields(ph), 8) + post, |pre|) == ph
  {
    hide Le, Encoded, Offset;
    var fs := PhdrFields(ph);
    PhdrOffsets(ph);
    assert Offset(fs, 0) == 0 by { OffsetZero(fs); }
    FieldAt(pre, fs, 8, 0, post);
    FieldAt(pre, fs, 8, 1, post);
    FieldAt(pre, fs, 8, 2, post);
    FieldAt(pre, fs, 8, 3, post);
    FieldAt(pre, fs, 8, 5, post);
    FieldAt(pre, fs, 8, 6, post);
    FieldAt(pre, fs, 8, 7, post);
  }

  lemma OffsetZero(fs: seq<Field>)
    ensures Offset(fs, 0) == 0
  {
  }

  const IDENT: seq<byte> := [0x7F, 0x45, 0x4C, 0x46, 2, 1, 1, 0, 0, 0, 0, 0, 0, 0, 0, 0]

  function EhdrFields(kind: nat, entry: nat, phnum: nat): seq<Field> {
    [Field(kind, 2), Field(EM_X86_64, 2), Field(1, 4), Field(entry, 8), Field(EHDR_SIZE, 8), Field(0, 8), Field(0, 4),
     Field(EHDR_SIZE, 2), Field(PHDR_SIZE, 2), Field(phnum, 2), Field(0, 2), Field(0, 2), Field(0, 2)]
  }

  lemma EhdrOffsets(kind: nat, entry: nat, phnum: nat)
    ensures var fs := EhdrFields(kind, entry, phnum);
            Offset(fs, 1) == 2 && Offset(fs, 2) == 4 && Offset(fs, 3) == 8 && Offset(fs, 4) == 16 &&
            Offset(fs, 7) == 36 && Offset(fs, 8) == 38 && Offset(fs, 9) == 40 && Offset(fs, 13) == 48
  {
    var fs := EhdrFields(kind, entry, phnum);
    assert Offset(fs, 1) == 2;
    assert Offset(fs, 2) == 4;
    assert Offset(fs, 3) == 8;
    assert Offset(fs, 4) == 16;
    assert Offset(fs, 5) == 24;
    assert Offset(fs, 6) == 32;
    assert Offset(fs, 7) == 36;
    assert Offset(fs, 8) == 38;
    assert Offset(fs, 9) == 40;
    assert Offset(fs, 10) == 42;
    assert Offset(fs, 11) == 44;
    assert Offset(fs, 12) == 46;
  }

  function EhdrBytes(kind: nat, entry: nat, phnum: nat): seq<byte> {
    IDENT + Encoded(EhdrFields(kind, entry, phnum), 13)
  }

  lemma EhdrReadBack(kind: nat, entry: nat, phnum: nat, post: seq<byte>)
    requires FieldsOk(EhdrFields(kind, entry, phnum))
    ensures |EhdrBytes(kind, entry, phnum)| == EHDR_SIZE
    ensures ReadEhdr(EhdrBytes(kind, entry, phnum) + post) ==
            Ehdr(IDENT, kind, EM_X86_64, 1, entry, EHDR_SIZE, EHDR_SIZE, PHDR_SIZE, phnum)
  {
    hide Le, Encoded, Offset;
    var fs := EhdrFields(kind, entry, phnum);
    EhdrOffsets(kind, entry, phnum);
    assert Offset(fs, 0) == 0 by { OffsetZero(fs); }
    FieldAt(IDENT, fs, 13, 0, post);
    FieldAt(IDENT, fs, 13, 1, post);
    FieldAt(IDENT, fs, 13, 2, post);
    FieldAt(IDENT, fs, 13, 3, post);
    FieldAt(IDENT, fs, 13, 4, post);
    FieldAt(IDENT, fs, 13, 7, post);
    FieldAt(IDENT, fs, 13, 8, post);
    FieldAt(IDENT, fs, 13, 9, post);
    assert (EhdrBytes(kind, entry, phnum) + post)[..16] == IDENT;
  }

  function TableBytes(phs: seq<Phdr>): (b: seq<byte>) {
    if phs == [] then [] else TableBytes(phs[..|phs| - 1]) + Encoded(PhdrFields(phs[|phs| - 1]), 8)
  }

  ghost predicate AllFields(phs: seq<Phdr>) {
    forall i :: 0 <= i < |phs| ==> FieldsOk(PhdrFields(phs[i]))
  }

  lemma {:induction false} TableReadBack(pre: seq<byte>, phs: seq<Phdr>, i: nat, post: seq<byte>)
    requires AllFields(phs) && i < |phs|
    ensures |TableBytes(phs)| == PHDR_SIZE * |phs|
    ensures ReadPhdr(pre + TableBytes(phs) + post, |pre| + PHDR_SIZE * i) == phs[i]
    decreases |phs|
  {
    hide Encoded, ReadPhdr;
    var k := |phs| - 1;
    var front, last := TableBytes(phs[..k]), Encoded(PhdrFields(phs[k]), 8);
    PhdrReadBack(pre + front, phs[k], post);
    TableLength(phs[..k]);
    if i == k {
      assert pre + TableBytes(phs) + post == (pre + front) + last + post;
    } else {
      TableReadBack(pre, phs[..k], i, last + post);
      assert pre + TableBytes(phs) + post == pre + front + (last + post);
    }
  }

  lemma {:induction false} TableLength(phs: seq<Phdr>)
    requires AllFields(phs)
    ensures |TableBytes(phs)| == PHDR_SIZE * |phs|
    decreases |phs|
  {
    if phs != [] {
      hide Encoded;
      PhdrReadBack([], phs[|phs| - 1], []);
      TableLength(phs[..|phs| - 1]);
    }
  }

  /** An image with the given headers and nothing else. */
  function ImageOf(kind: nat, entry: nat, phs: seq<Phdr>): Image {
    EhdrBytes(kind, entry, |phs|) + TableBytes(phs)
  }

  /** Any proper table of headers is the table of some image. */
  lemma ImageReadsBack(kind: nat, entry: nat, phs: seq<Phdr>)
    requires (kind == ET_EXEC || kind == ET_DYN) && entry < WORD && 0 < |phs| <= MAX_PHNUM && AllFields(phs)
    ensures var b := ImageOf(kind, entry, phs);
            && |b| == EHDR_SIZE + PHDR_SIZE * |phs| && HeaderOk(ReadEhdr(b), |b|)
            && ReadEhdr(b) == Ehdr(IDENT, kind, EM_X86_64, 1, entry, EHDR_SIZE, EHDR_SIZE, PHDR_SIZE, |phs|)
            && Headers(b, ReadEhdr(b)) == phs
  {
    hide ReadEhdr, ReadPhdr, EhdrBytes, TableBytes, AllFields;
    assert FieldsOk(EhdrFields(kind, entry, |phs|));
    EhdrReadBack(kind, entry, |phs|, TableBytes(phs));
    TableLength(phs);
    var b := ImageOf(kind, entry, phs);
    var eh := ReadEhdr(b);
    forall i | 0 <= i < |phs|
      ensures eh.phoff + i * PHDR_SIZE + PHDR_SIZE <= |b| && ReadPhdr(b, eh.phoff + i * PHDR_SIZE) == phs[i]
    {
      TableReadBack(EhdrBytes(kind, entry, |phs|), phs, i, []);
      assert EhdrBytes(kind, entry, |phs|) + TableBytes(phs) + [] == b;
    }
  }

  lemma ImageAccepted(kind: nat, entry: nat, phs: seq<Phdr>)
    requires (kind == ET_EXEC || kind == ET_DYN) && entry < WORD && 0 < |phs| <= MAX_PHNUM && AllFields(phs)
    requires TableOk(phs, if kind == ET_DYN then DYN_BASE else 0, entry, EHDR_SIZE + PHDR_SIZE * |phs|)
    ensures Accepted(ImageOf(kind, entry, phs))
  {
    hide TableOk, ReadEhdr, Headers, ImageOf, AllFields;
    ImageReadsBack(kind, entry, phs);
  }

  /** For relocatable images they do not: this image is accepted although its second segment spans
      almost the whole address space. */
  lemma WrapAccepted()
    ensures var code := Phdr(PT_LOAD, 5, 0, 0, 1, 1, 0);
            var huge := Phdr(PT_LOAD, 4, 0, 0x1000, 0, WORD - DYN_BASE, 0);
            var b := ImageOf(ET_DYN, 0, [code, huge]);
            Accepted(b) && Headers(b, ReadEhdr(b)) == [code, huge] && !NoneWraps([code, huge], DYN_BASE)
  {
    hide ImageOf, ReadEhdr, Headers;
    var code := Phdr(PT_LOAD, 5, 0, 0, 1, 1, 0);
    var huge := Phdr(PT_LOAD, 4, 0, 0x1000, 0, WORD - DYN_BASE, 0);
    var phs := [code, huge];
    assert EachOk(code, DYN_BASE, 176);
    assert EachOk(huge, DYN_BASE, 176);
    assert phs[..1] == [code] && [code][..0] == [];
    assert Loads([code]) == 1;
    assert HasEntry(phs[0], 0);
    assert IsLoad(phs[1]) && !NoWrap(phs[1], DYN_BASE);
    assert FieldsOk(PhdrFields(code)) && FieldsOk(PhdrFields(huge));
    ImageReadsBack(ET_DYN, 0, phs);
    ImageAccepted(ET_DYN, 0, phs);
  }
}
