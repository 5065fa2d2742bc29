/** Which pages a load visits, in which order, and how far it gets. */
module LoadPlan {
  import opened Common
  import opened PageTable
  import opened AddressSpaces
  import opened Costs
  import opened ElfImage

  datatype Status = Ok | NoMem | NoExec

  function First(ph: Phdr, base: nat): nat { (ph.vaddr + base) / FRAME_BYTES }

  function Last(ph: Phdr, base: nat): nat
    requires ph.memsz != 0
  {
    (ph.vaddr + base + ph.memsz - 1) / FRAME_BYTES
  }

  /** A page is visited on behalf of a segment with these permissions. */
  datatype Visit = Visit(q: nat, write: bool, exec: bool)

  lemma PagesOrdered(ph: Phdr, base: nat)
    requires ph.memsz != 0
    ensures First(ph, base) <= Last(ph, base)
  {
  }

  function SegVisits(ph: Phdr, base: nat): (vs: seq<Visit>)
    requires ph.memsz != 0
  {
    PagesOrdered(ph, base);
    seq(Last(ph, base) + 1 - First(ph, base), i requires 0 <= i => Visit(First(ph, base) + i, ph.Write(), ph.Exec()))
  }

  /** The visits of the load segments among the first `n` headers, in table order. */
  function Visits(phs: seq<Phdr>, base: nat, n: nat): seq<Visit>
    requires n <= |phs|
  {
    if n == 0 then []
    else Visits(phs, base, n - 1) + if IsLoad(phs[n - 1]) then SegVisits(phs[n - 1], base) else []
  }

  ghost function Pages(vs: seq<Visit>): set<nat> {
    set i | 0 <= i < |vs| :: vs[i].q
  }

  ghost predicate Writes(vs: seq<Visit>, q: nat) {
    exists i :: 0 <= i < |vs| && vs[i].q == q && vs[i].write
  }

  ghost predicate Executes(vs: seq<Visit>, q: nat) {
    exists i :: 0 <= i < |vs| && vs[i].q == q && vs[i].exec
  }

  /** Visit `j` comes to a page visited before, and makes it writable and executable. */
  ghost predicate Mixed(vs: seq<Visit>, j: nat) {
    j < |vs| && vs[j].q in Pages(vs[..j]) && Writes(vs[..j + 1], vs[j].q) && Executes(vs[..j + 1], vs[j].q)
  }

  /** These pages can be had: there are records for them, and frames for them and their tables. */
  ghost predicate Affordable(pages: set<nat>, free: nat) {
    |pages| <= MAX_UMAP && Cost(|pages|, pages) <= free
  }

  /** Visit `j` comes to a new page that cannot be had. */
  ghost predicate Short(vs: seq<Visit>, j: nat, free: nat) {
    j < |vs| && vs[j].q !in Pages(vs[..j]) && !Affordable(Pages(vs[..j + 1]), free)
  }

  /** The status of a load that has come to visit `k`: that of the first visit that fails. */
  ghost function Verdict(vs: seq<Visit>, k: nat, free: nat, nx: bool): Status
    decreases |vs| - k
  {
    if k >= |vs| then Ok
    else if nx && Mixed(vs, k) then NoExec
    else if Short(vs, k, free) then NoMem
    else Verdict(vs, k + 1, free, nx)
  }

  /** What becomes of visit `v` after the visits `us`. */
  ghost function Fate(us: seq<Visit>, v: Visit, free: nat, nx: bool): Status {
    if nx && v.q in Pages(us) && Writes(us + [v], v.q) && Executes(us + [v], v.q) then NoExec
    else if v.q !in Pages(us) && !Affordable(Pages(us + [v]), free) then NoMem
    else Ok
  }

  lemma VerdictStep(vs: seq<Visit>, k: nat, free: nat, nx: bool)
    requires k < |vs|
    ensures var f := Fate(vs[..k], vs[k], free, nx); Verdict(vs, k, free, nx) == if f != Ok then f else Verdict(vs, k + 1, free, nx)
  {
    hide Affordable, Pages, Writes, Executes;
    assert vs[..k + 1] == vs[..k] + [vs[k]];
  }

  lemma VerdictEnd(vs: seq<Visit>, free: nat, nx: bool)
    ensures Verdict(vs, |vs|, free, nx) == Ok
  {
  }

  lemma {:induction false} VisitsPrefix(phs: seq<Phdr>, base: nat, n: nat, k: nat)
    requires n <= k <= |phs|
    ensures Visits(phs, base, n) <= Visits(phs, base, k)
    decreases k
  {
    hide IsLoad, SegVisits;
    if n < k {
      VisitsPrefix(phs, base, n, k - 1);
    }
  }

  // -----------------------------------------------------------------------------
  // Visits one by one

  lemma PagesNext(vs: seq<Visit>, v: Visit)
    ensures Pages(vs + [v]) == Pages(vs) + {v.q}
    ensures forall q :: Writes(vs + [v], q) <==> Writes(vs, q) || (q == v.q && v.write)
    ensures forall q :: Executes(vs + [v], q) <==> Executes(vs, q) || (q == v.q && v.exec)
  {
    var ws := vs + [v];
    assert ws[|vs|] == v;
    forall i | 0 <= i < |vs|
      ensures ws[i] == vs[i]
    {
    }
    forall q
      ensures q in Pages(ws) <==> q in Pages(vs) + {v.q}
      ensures Writes(ws, q) <==> Writes(vs, q) || (q == v.q && v.write)
      ensures Executes(ws, q) <==> Executes(vs, q) || (q == v.q && v.exec)
    {
      NextAt(vs, v, q);
    }
  }

  lemma NextAt(vs: seq<Visit>, v: Visit, q: nat)
    ensures q in Pages(vs + [v]) <==> q in Pages(vs) + {v.q}
    ensures Writes(vs + [v], q) <==> Writes(vs, q) || (q == v.q && v.write)
    ensures Executes(vs + [v], q) <==> Executes(vs, q) || (q == v.q && v.exec)
  {
    var ws := vs + [v];
    assert ws[|vs|] == v;
    if q in Pages(vs) {
      var i :| 0 <= i < |vs| && vs[i].q == q;
      assert ws[i] == vs[i];
    }
    if Writes(vs, q) {
      var i :| 0 <= i < |vs| && vs[i].q == q && vs[i].write;
      assert ws[i] == vs[i];
    }
    if Executes(vs, q) {
      var i :| 0 <= i < |vs| && vs[i].q == q && vs[i].exec;
      assert ws[i] == vs[i];
    }
    if q in Pages(ws) {
      var i :| 0 <= i < |ws| && ws[i].q == q;
      assert i < |vs| ==> ws[i] == vs[i];
    }
    if Writes(ws, q) {
      var i :| 0 <= i < |ws| && ws[i].q == q && ws[i].write;
      assert i < |vs| ==> ws[i] == vs[i];
    }
    if Executes(ws, q) {
      var i :| 0 <= i < |ws| && ws[i].q == q && ws[i].exec;
      assert i < |vs| ==> ws[i] == vs[i];
    }
  }

  /** What a visit does depends on the visits before it only. */
  lemma SameFate(vs: seq<Visit>, ws: seq<Visit>, j: nat, free: nat)
    requires vs <= ws && j < |vs|
    ensures (Mixed(ws, j) <==> Mixed(vs, j)) && (Short(ws, j, free) <==> Short(vs, j, free))
  {
    hide Pages, Writes, Executes, Affordable;
    assert ws[..j] == vs[..j] && ws[..j + 1] == vs[..j + 1] && ws[j] == vs[j];
  }

  /** A longer load fares like a shorter one as far as that goes. */
  lemma {:induction false} VerdictOn(vs: seq<Visit>, ws: seq<Visit>, k: nat, free: nat, nx: bool)
    requires vs <= ws && k <= |vs|
    ensures Verdict(ws, k, free, nx) == if Verdict(vs, k, free, nx) == Ok then Verdict(ws, |vs|, free, nx) else Verdict(vs, k, free, nx)
    decreases |vs| - k
  {
    hide Mixed, Short;
    if k < |vs| {
      SameFate(vs, ws, k, free);
      VerdictOn(vs, ws, k + 1, free, nx);
    }
  }

  // -----------------------------------------------------------------------------
  // The verdict as a whole

  ghost predicate Sane(vs: seq<Visit>) {
    forall i :: 0 <= i < |vs| ==> !(vs[i].write && vs[i].exec)
  }

  /** No page is visited both to be written and to be executed. */
  ghost predicate NoneMixed(vs: seq<Visit>) {
    forall q :: !(Writes(vs, q) && Executes(vs, q))
  }

  lemma {:induction false} FineUpTo(vs: seq<Visit>, k: nat, free: nat, nx: bool)
    requires k <= |vs| && Sane(vs)
    ensures Verdict(vs[..k], 0, free, nx) == Ok <==> (nx ==> NoneMixed(vs[..k])) && (k == 0 || Affordable(Pages(vs[..k]), free))
  {
    hide Affordable, Verdict, Pages, Writes, Executes;
    if k == 0 {
      NothingVisited(free, nx);
      assert vs[..0] == [];
    } else {
      var us, ws, v := vs[..k - 1], vs[..k], vs[k - 1];
      FineUpTo(vs, k - 1, free, nx);
      assert ws == us + [v];
      OneMore(us, v, free, nx);
      PagesNext(us, v);
      MoreMixed(us, v);
      LessAffordable(Pages(us), Pages(ws), free);
      if v.q in Pages(us) {
        assert Pages(ws) == Pages(us);
      }
      if k == 1 {
        assert us == [];
        NoPages();
      }
    }
  }

  lemma NoPages()
    ensures Pages([]) == {}
  {
  }

  lemma NothingVisited(free: nat, nx: bool)
    ensures Verdict([], 0, free, nx) == Ok && NoneMixed([])
  {
  }

  lemma OneMore(us: seq<Visit>, v: Visit, free: nat, nx: bool)
    ensures Verdict(us + [v], 0, free, nx) == Ok <==>
            && Verdict(us, 0, free, nx) == Ok
            && !(nx && v.q in Pages(us) && Writes(us + [v], v.q) && Executes(us + [v], v.q))
            && (v.q in Pages(us) || Affordable(Pages(us + [v]), free))
  {
    hide Affordable, Pages, Writes, Executes;
    var ws := us + [v];
    VerdictOn(us, ws, 0, free, nx);
    assert ws[..|us|] == us && ws[..|us| + 1] == ws && ws[|us|] == v;
    assert Verdict(ws, |us| + 1, free, nx) == Ok;
  }

  lemma MoreMixed(us: seq<Visit>, v: Visit)
    requires !(v.write && v.exec)
    ensures NoneMixed(us + [v]) <==> NoneMixed(us) && !(v.q in Pages(us) && Writes(us + [v], v.q) && Executes(us + [v], v.q))
  {
    hide Writes, Executes, Pages;
    PagesNext(us, v);
    Visited(us, v.q);
    var ws := us + [v];
    if NoneMixed(us) && !(v.q in Pages(us) && Writes(ws, v.q) && Executes(ws, v.q)) {
      forall q
        ensures !(Writes(ws, q) && Executes(ws, q))
      {
        assert !(Writes(us, q) && Executes(us, q));
      }
    }
    if NoneMixed(ws) {
      forall q
        ensures !(Writes(us, q) && Executes(us, q))
      {
        assert !(Writes(ws, q) && Executes(ws, q));
      }
    }
  }

  lemma Visited(vs: seq<Visit>, q: nat)
    ensures Writes(vs, q) || Executes(vs, q) ==> q in Pages(vs)
  {
  }

  lemma LessAffordable(a: set<nat>, b: set<nat>, free: nat)
    requires a <= b
    ensures Affordable(b, free) ==> Affordable(a, free)
  {
    hide Cost;
    Subset(a, b);
    CostLess(|a|, a, |b|, b);
  }

  /** A load succeeds exactly when no page is to be written and executed, and all its pages can be
      had. */
  lemma VerdictOkIff(vs: seq<Visit>, free: nat, nx: bool)
    requires Sane(vs) && vs != []
    ensures Verdict(vs, 0, free, nx) == Ok <==> (nx ==> NoneMixed(vs)) && Affordable(Pages(vs), free)
  {
    hide Affordable, Verdict;
    FineUpTo(vs, |vs|, free, nx);
    assert vs[..|vs|] == vs;
  }

  /** A load that fails does so at the first visit that cannot be made; those before it could. */
  lemma {:induction false} VerdictFails(vs: seq<Visit>, k: nat, free: nat, nx: bool) returns (j: nat)
    requires Verdict(vs, k, free, nx) != Ok
    ensures k <= j < |vs| && Verdict(vs[..j], k, free, nx) == Ok
    ensures if Verdict(vs, k, free, nx) == NoExec then nx && Mixed(vs, j) else Short(vs, j, free)
    decreases |vs| - k
  {
    hide Mixed, Short;
    if (nx && Mixed(vs, k)) || Short(vs, k, free) {
      j := k;
    } else {
      j := VerdictFails(vs, k + 1, free, nx);
      SameFate(vs[..j], vs, k, free);
    }
  }

  /** The first `j` visits can all be made. */
  ghost predicate Makes(vs: seq<Visit>, j: nat, free: nat, nx: bool)
    requires j <= |vs|
  {
    (nx ==> NoneMixed(vs[..j])) && (j == 0 || Affordable(Pages(vs[..j]), free))
  }

  /** The verdict without its recursion: the load goes through exactly when all visits can be made;
      otherwise the first that cannot decides. */
  lemma VerdictIff(vs: seq<Visit>, free: nat, nx: bool)
    requires Sane(vs)
    ensures Verdict(vs, 0, free, nx) == Ok <==> Makes(vs, |vs|, free, nx)
    ensures Verdict(vs, 0, free, nx) == NoExec <==> exists j: nat :: j < |vs| && Makes(vs, j, free, nx) && nx && Mixed(vs, j)
    ensures Verdict(vs, 0, free, nx) == NoMem <==> exists j: nat :: j < |vs| && Makes(vs, j, free, nx) && Short(vs, j, free)
  {
    hide Affordable, Pages, Verdict, Mixed, Short, NoneMixed;
    FineUpTo(vs, |vs|, free, nx);
    assert vs[..|vs|] == vs;
    forall j: nat | j < |vs| && Makes(vs, j, free, nx)
      ensures nx && Mixed(vs, j) ==> Verdict(vs, 0, free, nx) == NoExec
      ensures Short(vs, j, free) ==> Verdict(vs, 0, free, nx) == NoMem
    {
      FineUpTo(vs, j, free, nx);
      StopsAt(vs, j, free, nx);
    }
    if Verdict(vs, 0, free, nx) != Ok {
      var j := VerdictFails(vs, 0, free, nx);
      FineUpTo(vs, j, free, nx);
      assert Makes(vs, j, free, nx);
    }
  }

  lemma StopsAt(vs: seq<Visit>, j: nat, free: nat, nx: bool)
    requires j < |vs| && Verdict(vs[..j], 0, free, nx) == Ok
    ensures nx && Mixed(vs, j) ==> Verdict(vs, 0, free, nx) == NoExec
    ensures Short(vs, j, free) ==> Verdict(vs, 0, free, nx) == NoMem
  {
    hide Affordable, Pages, Writes, Executes;
    VerdictOn(vs[..j], vs, 0, free, nx);
  }

  // -----------------------------------------------------------------------------
  // Visits and headers

  /** The visits of a table are one for each page of each load segment. */
  lemma {:induction false} VisitIff(phs: seq<Phdr>, base: nat, n: nat, v: Visit)
    requires n <= |phs|
    ensures v in Visits(phs, base, n) <==>
              exists i :: 0 <= i < n && IsLoad(phs[i]) && First(phs[i], base) <= v.q <= Last(phs[i], base) && v.write == phs[i].Write() && v.exec == phs[i].Exec()
  {
    hide First, Last;
    if n > 0 {
      VisitIff(phs, base, n - 1, v);
      if IsLoad(phs[n - 1]) {
        SegVisitIff(phs[n - 1], base, v);
      }
    }
  }

  lemma VisitsJoin(us: seq<Visit>, vs: seq<Visit>, q: nat)
    ensures q in Pages(us + vs) <==> q in Pages(us) || q in Pages(vs)
    ensures Writes(us + vs, q) <==> Writes(us, q) || Writes(vs, q)
    ensures Executes(us + vs, q) <==> Executes(us, q) || Executes(vs, q)
  {
    PagesBy(us, q);
    PagesBy(vs, q);
    PagesBy(us + vs, q);
    assert forall v :: v in us + vs <==> v in us || v in vs;
  }

  lemma PagesBy(vs: seq<Visit>, q: nat)
    ensures q in Pages(vs) <==> exists v :: v in vs && v.q == q
    ensures Writes(vs, q) <==> exists v :: v in vs && v.q == q && v.write
    ensures Executes(vs, q) <==> exists v :: v in vs && v.q == q && v.exec
  {
    if q in Pages(vs) {
      var i :| 0 <= i < |vs| && vs[i].q == q;
      assert vs[i] in vs;
    }
    if Writes(vs, q) {
      var i :| 0 <= i < |vs| && vs[i].q == q && vs[i].write;
      assert vs[i] in vs;
    }
    if Executes(vs, q) {
      var i :| 0 <= i < |vs| && vs[i].q == q && vs[i].exec;
      assert vs[i] in vs;
    }
  }

  lemma SegVisitIff(ph: Phdr, base: nat, v: Visit)
    requires ph.memsz != 0
    ensures v in SegVisits(ph, base) <==> First(ph, base) <= v.q <= Last(ph, base) && v.write == ph.Write() && v.exec == ph.Exec()
  {
    hide First, Last;
    var vs := SegVisits(ph, base);
    PagesOrdered(ph, base);
    assert |vs| == Last(ph, base) + 1 - First(ph, base);
    assert forall i :: 0 <= i < |vs| ==> vs[i] == Visit(First(ph, base) + i, ph.Write(), ph.Exec());
    if First(ph, base) <= v.q <= Last(ph, base) && v.write == ph.Write() && v.exec == ph.Exec() {
      assert vs[v.q - First(ph, base)] == v;
    }
  }
}
