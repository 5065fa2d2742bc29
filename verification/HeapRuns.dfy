/** Whole runs of the allocator, and what an in-place shrink does to the bytes it keeps. */
module HeapRuns {
  import opened HeapLayout
  import HeapSteps
  import opened HeapBytes
  import opened FreeList
  import opened Heap

  /** Requests of a client; `k` counts into the pointers the client holds. */
  datatype Request =
    | Allocate(size: nat)
    | AllocateZeroed(nmemb: nat, size: nat)
    | Write(k: nat, i: nat, c: Cell)
    | Resize(k: nat, size: nat)
    | Release(k: nat)

  predicate Small(r: Request) {
    match r
    case Allocate(size) => size < MMAP_THRESHOLD
    case AllocateZeroed(n, size) => Total(n, size) < MMAP_THRESHOLD || SIZE_MAX < Total(n, size)
    case Resize(_, size) => size < MMAP_THRESHOLD
    case _ => true
  }

  /** Every held pointer is a live buffer, and no pointer is held twice. */
  ghost predicate Held(contents: map<nat, seq<Cell>>, ptrs: seq<nat>) {
    && (forall j :: 0 <= j < |ptrs| ==> 0 < ptrs[j] && ptrs[j] - 1 in contents)
    && (forall i, j :: 0 <= i < j < |ptrs| ==> ptrs[i] != ptrs[j])
  }

  function Without(ptrs: seq<nat>, k: nat): seq<nat>
    requires k < |ptrs|
  {
    ptrs[..k] + ptrs[k + 1..]
  }

  ghost function LayoutOf(v: View): Layout { Layout(v.blocks, v.fl) }

  /** Nothing but the contents of buffers changed. */
  ghost predicate Still(a: View, b: View) {
    b.started == a.started && b.top == a.top && b.limit == a.limit && LayoutOf(b) == LayoutOf(a)
  }

  /** Nor did the break and the set-up. */
  ghost predicate SameTop(a: View, b: View) { b.started == a.started && b.top == a.top && b.limit == a.limit }

  /** The break moves and the arena is set up as a request for `size` bytes makes them. */
  ghost predicate Raised(k: Kernel, size: nat, a: View, b: View) {
    b.top == TopAfter(a, k, size) && b.started == (a.started || (SizeToNeed(size) != 0 && k.queryOk)) && b.limit == a.limit
  }

  /** A request for `size` bytes that is granted adds one private buffer, `p`, of just that size; one
      that is not granted changes no buffer. */
  ghost predicate Granting(k: Kernel, size: nat, a: View, b: View, p: nat) {
    && Raised(k, size, a, b) && (LayoutOf(b), p) == Taken(a, k, size)
    && if GrantedIn(a, k, size) then
         && 0 < p && p - 1 !in a.contents && p - 1 in b.contents && b.contents == a.contents[p - 1 := b.contents[p - 1]]
         && SizeToNeed(size) <= 16 * (|b.contents[p - 1]| + 1) < SizeToNeed(size) + MIN_BLOCK
         && ServedAt(a.blocks, a.fl, a.top, SizeToNeed(size), p - 1)
       else p == NULL && b.contents == a.contents
  }

  /** A buffer grown by copying: as a new one, with the old cells in front, and the old one gone. */
  ghost predicate Moving(k: Kernel, size: nat, a: View, b: View, from: nat, p: nat) {
    && Raised(k, size, a, b) && p == Taken(a, k, size).1
    && LayoutOf(b) == (if p == NULL || from == 0 then Taken(a, k, size).0 else Freed(Taken(a, k, size).0, from - 1))
    && if GrantedIn(a, k, size) then
         && 0 < p && 0 < from && from - 1 in a.contents && p - 1 !in a.contents && p - 1 in b.contents
         && b.contents == (a.contents - {from - 1})[p - 1 := b.contents[p - 1]] && a.contents[from - 1] <= b.contents[p - 1]
         && SizeToNeed(size) <= 16 * (|b.contents[p - 1]| + 1) < SizeToNeed(size) + MIN_BLOCK
         && ServedAt(a.blocks, a.fl, a.top, SizeToNeed(size), p - 1)
       else p == NULL && b.contents == a.contents
  }

  /** What each request does to the buffers, to the pointers held, and to the break. */
  ghost predicate Step(r: Request, k: Kernel, a: View, ps: seq<nat>, b: View, qs: seq<nat>) {
    match r
    case Allocate(size) => exists p: nat :: Granting(k, size, a, b, p) && qs == if p == NULL then ps else ps + [p]
    case AllocateZeroed(n, size) =>
      if SIZE_MAX < Total(n, size) then b.contents == a.contents && Still(a, b) && qs == ps else
      exists p: nat ::
        && Granting(k, Total(n, size), a, b, p) && qs == (if p == NULL then ps else ps + [p])
        && (p != NULL ==> p - 1 in b.contents && ZeroBelow(b.contents[p - 1], Total(n, size)))
    case Write(h, i, c) =>
      && qs == ps && Still(a, b)
      && b.contents == if h < |ps| && 0 < ps[h] && ps[h] - 1 in a.contents && i < |a.contents[ps[h] - 1]|
                       then a.contents[ps[h] - 1 := a.contents[ps[h] - 1][i := c]] else a.contents
    case Resize(h, size) =>
      if h >= |ps| || ps[h] == 0 || ps[h] - 1 !in a.contents then b.contents == a.contents && Still(a, b) && qs == ps
      else if size == 0 then Releasing(a, b, ps[h]) && qs == Without(ps, h)
      else if SizeToNeed(size) <= 16 * (|a.contents[ps[h] - 1]| + 1) then
        qs == ps && exists flags: nat :: Shrinking(a, b, ps[h], size, flags)
      else exists p: nat :: Moving(k, size, a, b, ps[h], p) && qs == if p == NULL then ps else Without(ps, h) + [p]
    case Release(h) =>
      if h < |ps| && 0 < ps[h] then Releasing(a, b, ps[h]) && qs == Without(ps, h)
      else b.contents == a.contents && Still(a, b) && qs == ps
  }

  /** The buffer at `p` goes, and its block to the head of the list with its free neighbours. */
  ghost predicate Releasing(a: View, b: View, p: nat) {
    0 < p && b.contents == a.contents - {p - 1} && SameTop(a, b) && LayoutOf(b) == Freed(LayoutOf(a), p - 1)
  }

  /** The buffer at `p` shrinks in place. */
  ghost predicate Shrinking(a: View, b: View, p: nat, size: nat, flags: nat) {
    && 0 < p && p - 1 in a.contents && MIN_BLOCK <= SizeToNeed(size) <= 16 * (|a.contents[p - 1]| + 1)
    && b.contents == a.contents[p - 1 := Shrunk(a.contents[p - 1], SizeToNeed(size), flags)]
    && SameTop(a, b) && LayoutOf(b) == Shortened(LayoutOf(a), p - 1, SizeToNeed(size))
  }

  method ServeResize(a: Arena, ptrs: seq<nat>, h: nat, size: nat, kern: Kernel) returns (ptrs': seq<nat>)
    requires a.Valid() && Held(a.Contents(), ptrs) && Small(Resize(h, size)) && h < |ptrs|
    modifies a, a.mem
    ensures a.Valid() && Held(a.Contents(), ptrs')
    ensures Step(Resize(h, size), kern, old(a.Now()), ptrs, a.Now(), ptrs')
  {
    hide Arena.Valid, Arena.Contents, Shrunk, SizeToNeed, ChunkFor, Fits, ServedAt, Taken, Freed, Shortened;
    ptrs' := ptrs;
    SmallNeed(size);
    var p := a.Realloc(ptrs[h], size, kern);
    if size == 0 {
      ptrs' := Without(ptrs, h);
    } else if p != NULL && p != ptrs[h] {
      ptrs' := Without(ptrs, h) + [p];
    }
    if size != 0 {
      if SizeToNeed(size) <= 16 * (|old(a.Contents())[ptrs[h] - 1]| + 1) {
        a.InBounds(ptrs[h] - 1);
        assert Shrinking(old(a.Now()), a.Now(), ptrs[h], size, a.mem[ptrs[h] - 1].hi);
      } else {
        assert Moving(kern, size, old(a.Now()), a.Now(), ptrs[h], p);
      }
    }
  }

  lemma SmallNeed(size: nat)
    requires size < MMAP_THRESHOLD
    ensures MIN_BLOCK <= SizeToNeed(size) <= SIZE_MAX
  {
  }

  method ServeAllocate(a: Arena, ptrs: seq<nat>, size: nat, kern: Kernel) returns (ptrs': seq<nat>)
    requires a.Valid() && Held(a.Contents(), ptrs) && Small(Allocate(size))
    modifies a, a.mem
    ensures a.Valid() && Held(a.Contents(), ptrs')
    ensures Step(Allocate(size), kern, old(a.Now()), ptrs, a.Now(), ptrs')
  {
    hide Arena.Valid, Arena.Contents, Shrunk, SizeToNeed, ChunkFor, Fits, ServedAt, Taken, Freed, Shortened;
    SmallNeed(size);
    var p := a.Malloc(size, kern);
    ptrs' := if p == NULL then ptrs else ptrs + [p];
    assert Granting(kern, size, old(a.Now()), a.Now(), p);
  }

  method ServeZeroed(a: Arena, ptrs: seq<nat>, n: nat, size: nat, kern: Kernel) returns (ptrs': seq<nat>)
    requires a.Valid() && Held(a.Contents(), ptrs) && Small(AllocateZeroed(n, size))
    modifies a, a.mem
    ensures a.Valid() && Held(a.Contents(), ptrs')
    ensures Step(AllocateZeroed(n, size), kern, old(a.Now()), ptrs, a.Now(), ptrs')
  {
    hide Arena.Valid, Arena.Contents, Shrunk, SizeToNeed, ChunkFor, Fits, ServedAt, Taken, Freed, Shortened, ZeroBelow, Total;
    var p := a.Calloc(n, size, kern);
    ptrs' := if p == NULL then ptrs else ptrs + [p];
    if Total(n, size) <= SIZE_MAX {
      SmallNeed(Total(n, size));
      assert Granting(kern, Total(n, size), old(a.Now()), a.Now(), p);
    }
  }

  method ServeWrite(a: Arena, ptrs: seq<nat>, h: nat, i: nat, c: Cell, ghost kern: Kernel)
    requires a.Valid() && Held(a.Contents(), ptrs)
    modifies a.mem
    ensures a.Valid() && Held(a.Contents(), ptrs)
    ensures Step(Write(h, i, c), kern, old(a.Now()), ptrs, a.Now(), ptrs)
  {
    hide Arena.Valid, Arena.Contents;
    if h < |ptrs| {
      var size := a.BufferCells(ptrs[h]);
      if i < size {
        a.Store(ptrs[h], i, c);
      }
    }
  }

  method ServeRelease(a: Arena, ptrs: seq<nat>, h: nat, ghost kern: Kernel) returns (ptrs': seq<nat>)
    requires a.Valid() && Held(a.Contents(), ptrs)
    modifies a, a.mem
    ensures a.Valid() && Held(a.Contents(), ptrs')
    ensures Step(Release(h), kern, old(a.Now()), ptrs, a.Now(), ptrs')
  {
    hide Arena.Valid, Arena.Contents, Freed;
    ptrs' := ptrs;
    if h < |ptrs| {
      var _ := a.FreeLive(ptrs[h]);
      ptrs' := Without(ptrs, h);
    }
  }

  /** One request, answered by the kernel as `kern` says. */
  method Serve(a: Arena, ptrs: seq<nat>, r: Request, kern: Kernel) returns (ptrs': seq<nat>)
    requires a.Valid() && Held(a.Contents(), ptrs) && Small(r)
    modifies a, a.mem
    ensures a.Valid() && Held(a.Contents(), ptrs')
    ensures Step(r, kern, old(a.Now()), ptrs, a.Now(), ptrs')
  {
    hide Arena.Valid, Arena.Contents, Step, Held, Small, Arena.Top;
    match r
    case Allocate(size) => ptrs' := ServeAllocate(a, ptrs, size, kern);
    case AllocateZeroed(n, size) => ptrs' := ServeZeroed(a, ptrs, n, size, kern);
    case Write(h, i, c) =>
      ServeWrite(a, ptrs, h, i, c, kern);
      ptrs' := ptrs;
    case Resize(h, size) =>
      if h < |ptrs| {
        ptrs' := ServeResize(a, ptrs, h, size, kern);
      } else {
        ptrs' := ptrs;
        NoResize(a.Now(), ptrs, h, size, kern);
      }
    case Release(h) => ptrs' := ServeRelease(a, ptrs, h, kern);
  }

  lemma NoResize(a: View, ptrs: seq<nat>, h: nat, size: nat, kern: Kernel)
    requires |ptrs| <= h
    ensures Step(Resize(h, size), kern, a, ptrs, a, ptrs)
  {
  }

  datatype State = State(view: View, ptrs: seq<nat>)

  /** The buffers are the blocks in use, and as long as those. */
  ghost predicate Shaped(v: View) {
    && (forall b :: b in v.contents <==> b in v.blocks && b !in v.fl)
    && (forall b :: b in v.contents && b in v.blocks ==> |v.contents[b]| + 1 == v.blocks[b])
  }

  lemma AlwaysShaped(a: Arena)
    requires a.Valid()
    ensures Shaped(a.Now())
  {
    hide Core, Used, Payloads, Payload;
    var v := a.Now();
    if a.aStart == NULL {
      assert v.contents == map[] by { NothingUsed(a.mem[..]); }
    } else {
      forall b
        ensures b in v.contents <==> b in v.blocks && b !in v.fl
        ensures b in v.contents && b in v.blocks ==> |v.contents[b]| + 1 == v.blocks[b]
      {
        BlockShaped(a.mem[..], a.blocks, a.fl, a.freeHead, a.aStart, a.aEnd, b);
      }
    }
  }

  lemma NothingUsed(m: seq<Cell>)
    ensures Payloads(m, Used(map[], [], 0)) == map[]
  {
  }

  lemma BlockShaped(m: seq<Cell>, bs: Blocks, fl: seq<nat>, head: nat, lo: nat, hi: nat, b: nat)
    requires Core(m, bs, fl, head, lo, hi, 0, 0)
    ensures b in Payloads(m, Used(bs, fl, 0)) <==> b in bs && b !in fl
    ensures b in Payloads(m, Used(bs, fl, 0)) ==> |Payloads(m, Used(bs, fl, 0))[b]| + 1 == bs[b]
  {
    hide Core;
    if b in bs {
      HeapSteps.TagFacts(m, bs, fl, head, lo, hi, b);
    }
  }

  // -----------------------------------------------------------------------------
  // What clients write does not matter

  /** The same request, or two writes. */
  predicate Alike(r: Request, q: Request) { r == q || (r.Write? && q.Write?) }

  /** The same pointers and the same heap, but for the contents of the buffers. */
  ghost predicate Matches(s: State, t: State) { s.ptrs == t.ptrs && Still(s.view, t.view) }

  lemma TakenSame(v: View, w: View, k: Kernel, size: nat)
    requires Still(v, w)
    ensures Taken(w, k, size) == Taken(v, k, size) && TopAfter(w, k, size) == TopAfter(v, k, size) && (GrantedIn(w, k, size) <==> GrantedIn(v, k, size))
  {
    hide SizeToNeed, ChunkFor, Fits, Fitted, Found, Space;
  }

  lemma StepMatches(r: Request, q: Request, k: Kernel, s: State, t: State, s': State, t': State)
    requires Alike(r, q) && Matches(s, t) && Shaped(s.view) && Shaped(t.view)
    requires Step(r, k, s.view, s.ptrs, s'.view, s'.ptrs) && Step(q, k, t.view, t.ptrs, t'.view, t'.ptrs)
    ensures Matches(s', t')
  {
    hide SizeToNeed, ChunkFor, Fits, ServedAt, Taken, Freed, Shortened, TopAfter, GrantedIn, ZeroBelow, Shrunk, Total;
    match r
    case Allocate(size) => TakenSame(s.view, t.view, k, size);
    case AllocateZeroed(n, size) => TakenSame(s.view, t.view, k, Total(n, size));
    case Resize(h, size) =>
      TakenSame(s.view, t.view, k, size);
      if h < |s.ptrs| && s.ptrs[h] != 0 {
        assert s.ptrs[h] - 1 in s.view.contents <==> s.ptrs[h] - 1 in t.view.contents;
      }
    case _ =>
  }

  /** Two runs with the same requests and the same answers of the kernel hand out the same pointers
      from the same blocks, whatever is written into the buffers in each. */
  lemma {:induction false} WritesDoNotMatter(rs: seq<Request>, qs: seq<Request>, kerns: seq<Kernel>, ss: seq<State>, ts: seq<State>, n: nat)
    requires n <= |rs| == |qs| == |kerns| && |ss| == |ts| == |rs| + 1 && Matches(ss[0], ts[0])
    requires forall i :: 0 <= i < |rs| ==> Alike(rs[i], qs[i])
    requires forall i :: 0 <= i <= |rs| ==> Shaped(ss[i].view)
    requires forall i :: 0 <= i <= |rs| ==> Shaped(ts[i].view)
    requires forall i :: 0 <= i < |rs| ==> Step(rs[i], kerns[i], ss[i].view, ss[i].ptrs, ss[i + 1].view, ss[i + 1].ptrs)
    requires forall i :: 0 <= i < |rs| ==> Step(qs[i], kerns[i], ts[i].view, ts[i].ptrs, ts[i + 1].view, ts[i + 1].ptrs)
    ensures Matches(ss[n], ts[n])
  {
    hide Step, Shaped, Matches, Alike;
    if 0 < n {
      WritesDoNotMatter(rs, qs, kerns, ss, ts, n - 1);
      StepMatches(rs[n - 1], qs[n - 1], kerns[n - 1], ss[n - 1], ts[n - 1], ss[n], ts[n]);
    }
  }

  /** Every sequence of small requests on live pointers is a chain of such steps; in each state the
      pointers held are live and distinct; and at the end the invariant holds and the self-check
      finds nothing wrong while the list is under its guard.  `trace[i]` is the state before request
      `i`. */
  method Run(a: Arena, requests: seq<Request>, kerns: seq<Kernel>) returns (ptrs: seq<nat>, code: int, ghost trace: seq<State>)
    requires a.Valid() && |kerns| == |requests| && forall r :: r in requests ==> Small(r)
    modifies a, a.mem
    ensures a.Valid() && code == if |a.fl| > 1000000 then -1 else 0
    ensures |trace| == |requests| + 1 && trace[0] == State(old(a.Now()), []) && trace[|requests|] == State(a.Now(), ptrs)
    ensures forall i :: 0 <= i <= |requests| ==> Held(trace[i].view.contents, trace[i].ptrs) && Shaped(trace[i].view)
    ensures forall i :: 0 <= i < |requests| ==>
              Step(requests[i], kerns[i], trace[i].view, trace[i].ptrs, trace[i + 1].view, trace[i + 1].ptrs)
  {
    hide Arena.Valid, Small, Step, Held, Arena.Top, Arena.Contents, Shaped;
    ptrs, trace := [], [State(a.Now(), [])];
    AlwaysShaped(a);
    assert Held(a.Now().contents, []) by { NoneHeld(a.Now().contents); }
    for i := 0 to |requests|
      invariant a.Valid() && Held(a.Contents(), ptrs) && |trace| == i + 1
      invariant trace[0] == State(old(a.Now()), []) && trace[i] == State(a.Now(), ptrs)
      invariant forall j :: 0 <= j <= i ==> Held(trace[j].view.contents, trace[j].ptrs) && Shaped(trace[j].view)
      invariant forall j :: 0 <= j < i ==> Step(requests[j], kerns[j], trace[j].view, trace[j].ptrs, trace[j + 1].view, trace[j + 1].ptrs)
    {
      ptrs := Serve(a, ptrs, requests[i], kerns[i]);
      AlwaysShaped(a);
      trace := trace + [State(a.Now(), ptrs)];
    }
    code := a.SelfCheck();
  }

  lemma NoneHeld(contents: map<nat, seq<Cell>>)
    ensures Held(contents, [])
  {
  }

  // -----------------------------------------------------------------------------
  // In-place shrink: which requested bytes survive

  /** Every possible content of the buffer keeps its first `size` bytes. */
  ghost predicate ShrinkKeeps(cells: nat, size: nat, flags: nat)
    requires SizeToNeed(size) != 0 && SizeToNeed(size) <= 16 * (cells + 1)
  {
    forall xs: seq<Cell> :: |xs| == cells ==> SameBelow(xs, Shrunk(xs, SizeToNeed(size), flags), size)
  }

  /** Shrinking keeps the requested bytes for every content exactly when no tail is split
      off, or when so few bytes are requested that the misplaced footer misses them. */
  lemma ShrinkKeepsIff(cells: nat, size: nat, flags: nat)
    requires 0 < size && SizeToNeed(size) != 0 && SizeToNeed(size) <= 16 * (cells + 1)
    ensures ShrinkKeeps(cells, size, flags) <==> 16 * (cells + 1) - SizeToNeed(size) < MIN_BLOCK || size <= 16
  {
    var need := SizeToNeed(size);
    if 16 * (cells + 1) - need < MIN_BLOCK {
      forall xs: seq<Cell> | |xs| == cells
        ensures SameBelow(xs, Shrunk(xs, need, flags), size)
      {
      }
    } else if size <= 16 {
      forall xs: seq<Cell> | |xs| == cells
        ensures SameBelow(xs, Shrunk(xs, need, flags), size)
      {
        FrontKept(xs, Shrunk(xs, need, flags), size);
      }
    } else {
      var xs := seq(cells, i => Cell(need + 1, 0));
      FooterLands(xs, size, flags);
      assert |xs| == cells;
    }
  }

  /** A buffer whose cells differ from the misplaced footer loses a requested byte. */
  lemma FooterLands(xs: seq<Cell>, size: nat, flags: nat)
    requires 16 < size && SizeToNeed(size) != 0 && SizeToNeed(size) + MIN_BLOCK <= 16 * (|xs| + 1)
    requires forall i :: 0 <= i < |xs| ==> xs[i] == Cell(SizeToNeed(size) + 1, 0)
    ensures !SameBelow(xs, Shrunk(xs, SizeToNeed(size), flags), size)
  {
    var need := SizeToNeed(size);
    var last := need / 16 - 2;
    var ys := Shrunk(xs, need, flags);
    assert ys[last] == Cell(need, flags) && xs[last] == Cell(need + 1, 0);
    assert 16 * last < size && 16 * last / 16 == last && 16 * last % 16 == 0;
    assert ByteAt(xs, 16 * last) == (need + 1) % 256;
    assert ByteAt(ys, 16 * last) == need % 256;
  }

  lemma FrontKept(xs: seq<Cell>, ys: seq<Cell>, size: nat)
    requires 0 < |xs| && 0 < |ys| && xs[0] == ys[0] && size <= 16
    ensures SameBelow(xs, ys, size)
  {
    forall i | 0 <= i < size
      ensures ByteAt(ys, i) == ByteAt(xs, i)
    {
      assert i / 16 == 0;
    }
  }
}
