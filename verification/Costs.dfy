/** How many frames a user space takes: its PML4, its tables, and its pages. */
module Costs {
  import opened Common
  import opened PageTable
  import opened Ownership
  import opened AddressSpaces

  /** The tables the pages with these numbers need: one position per PDPT, PD and PT prefix. */
  ghost function TablesFor(pages: set<nat>): set<Path> {
    set q, p | q in pages && p in Way(PageOf(q)) :: p
  }

  /** The frames of a space with that many records, for these pages. */
  ghost function Cost(records: nat, pages: set<nat>): nat { 1 + records + |TablesFor(pages)| }

  ghost function Virts(records: seq<Mapping>): set<nat> {
    set i | 0 <= i < |records| :: records[i].virt
  }

  /** The tables of space `c` are exactly those its pages need. */
  ghost predicate Planted(m: Memory, c: nat, pages: set<nat>) {
    forall q {:trigger Node(m, c, q)} :: UserPath(q) && q != Root ==> (Node(m, c, q).Some? <==> q in TablesFor(pages))
  }

  lemma TablesMore(pages: set<nat>, q: nat)
    ensures TablesFor(pages + {q}) == TablesFor(pages) + Way(PageOf(q))
  {
    hide PageOf, Way;
    forall p | p in TablesFor(pages) + Way(PageOf(q))
      ensures p in TablesFor(pages + {q})
    {
      if p in Way(PageOf(q)) {
        assert q in pages + {q};
      } else {
        var r :| r in pages && p in Way(PageOf(r));
        assert r in pages + {q};
      }
    }
  }

  lemma NoTables()
    ensures TablesFor({}) == {}
  {
  }

  /** The tables still missing for a page are those of its way that no other page needs. */
  lemma MissingIs(m: Memory, c: nat, pages: set<nat>, v: Page)
    requires Planted(m, c, pages) && UserPage(v)
    ensures Missing(m, c, v) == |Way(v) - TablesFor(pages)|
  {
    hide TablesFor, UserPath;
    var a, b, d := Sub(Root, v.i4), Sub(Sub(Root, v.i4), v.i3), PtPath(v);
    var t := TablesFor(pages);
    PtPathUser(v);
    assert UserPath(a) && UserPath(b) && UserPath(d);
    assert a in t <==> Node(m, c, a).Some?;
    assert b in t <==> Node(m, c, b).Some?;
    assert d in t <==> Node(m, c, d).Some?;
    assert Node(m, c, b).Some? ==> Node(m, c, a).Some?;
    assert Node(m, c, d).Some? ==> Node(m, c, b).Some?;
    assert a != b && b != d && a != d;
    if a !in t {
      assert Way(v) - t == {a} + {b} + {d};
    } else if b !in t {
      assert Way(v) - t == {b} + {d};
    } else if d !in t {
      assert Way(v) - t == {d};
    } else {
      assert Way(v) - t == {};
    }
  }

  lemma PlantedMore(m: Memory, m': Memory, c: nat, pages: set<nat>, q: nat)
    requires Planted(m, c, pages) && GrewAt(m, m', c, Way(PageOf(q)))
    ensures Planted(m', c, pages + {q})
  {
    hide Node, UserPath, PageOf, Way, TablesFor;
    TablesMore(pages, q);
    forall p | UserPath(p) && p != Root
      ensures Node(m', c, p).Some? <==> p in TablesFor(pages + {q})
    {
      assert Node(m, c, p).Some? <==> p in TablesFor(pages);
    }
  }

  lemma PlantedNone(m: Memory, c: nat)
    requires Bare(m, c)
    ensures Planted(m, c, {}) && Cost(0, {}) == 1
  {
    hide Node, UserPath;
    NoTables();
  }

  /** One more record costs its frame and the tables it is the first to need. */
  lemma CostMore(n: nat, pages: set<nat>, q: nat)
    ensures Cost(n + 1, pages + {q}) == Cost(n, pages) + 1 + |Way(PageOf(q)) - TablesFor(pages)|
  {
    hide PageOf, Way, TablesFor;
    TablesMore(pages, q);
    var t, w := TablesFor(pages), Way(PageOf(q));
    assert t + w == t + (w - t);
  }

  lemma CostLess(n: nat, pages: set<nat>, k: nat, more: set<nat>)
    requires n <= k && pages <= more
    ensures Cost(n, pages) <= Cost(k, more)
  {
    hide PageOf, Way;
    forall p | p in TablesFor(pages)
      ensures p in TablesFor(more)
    {
      var q :| q in pages && p in Way(PageOf(q));
      assert q in more;
    }
    Subset(TablesFor(pages), TablesFor(more));
  }

  lemma Subset<T>(a: set<T>, b: set<T>)
    requires a <= b
    ensures |a| <= |b|
  {
    assert b == a + (b - a);
  }

  lemma VirtsMore(records: seq<Mapping>, r: Mapping)
    ensures Virts(records + [r]) == Virts(records) + {r.virt}
  {
    var more := records + [r];
    forall v | v in Virts(records)
      ensures v in Virts(more)
    {
      var i :| 0 <= i < |records| && records[i].virt == v;
      assert more[i] == records[i];
    }
    assert more[|records|] == r;
    forall v | v in Virts(more)
      ensures v in Virts(records) + {r.virt}
    {
      var i :| 0 <= i < |more| && more[i].virt == v;
      assert i < |records| ==> more[i] == records[i];
    }
  }

  // -----------------------------------------------------------------------------
  // What pages cost in a space that has tables already

  /** The tables these pages need and space `s` does not have. */
  ghost function Lacking(m: Memory, s: nat, pages: set<nat>): set<Path> {
    set p | p in TablesFor(pages) && Node(m, s, p).None?
  }

  ghost function Gaps(m: Memory, s: nat, v: Page): set<Path> {
    set p | p in Way(v) && Node(m, s, p).None?
  }

  lemma MissingWay(m: Memory, s: nat, v: Page)
    ensures Missing(m, s, v) == |Gaps(m, s, v)|
  {
    var a, b, d := Sub(Root, v.i4), Sub(Sub(Root, v.i4), v.i3), PtPath(v);
    var none := Gaps(m, s, v);
    assert Node(m, s, b).Some? ==> Node(m, s, a).Some?;
    assert Node(m, s, d).Some? ==> Node(m, s, b).Some?;
    assert a != b && b != d && a != d;
    if Node(m, s, a).None? {
      assert none == {a} + {b} + {d};
    } else if Node(m, s, b).None? {
      assert none == {b} + {d};
    } else if Node(m, s, d).None? {
      assert none == {d};
    } else {
      assert none == {};
    }
  }

  /** After the tables of `pages` were added to those of `m0`, one more page lacks what it alone
      brings to the total. */
  lemma LackingNext(m0: Memory, m: Memory, s: nat, pages: set<nat>, q: nat)
    requires GrewAt(m0, m, s, TablesFor(pages)) && UserPage(PageOf(q))
    ensures |Lacking(m0, s, pages + {q})| == |Lacking(m0, s, pages)| + Missing(m, s, PageOf(q))
  {
    hide PageOf, Node, UserPath, TablesFor, Way, Missing, UserPage;
    var v, was, more := PageOf(q), Lacking(m0, s, pages), Lacking(m0, s, pages + {q});
    TablesMore(pages, q);
    MissingWay(m, s, v);
    var added := Gaps(m, s, v);
    WayUser(v);
    forall p | p in Way(v)
      ensures Node(m, s, p).None? <==> Node(m0, s, p).None? && p !in TablesFor(pages)
    {
      assert UserPath(p);
    }
    assert more == was + added && was !! added;
  }

  lemma WayUser(v: Page)
    requires UserPage(v)
    ensures forall p :: p in Way(v) ==> UserPath(p)
  {
    PtPathUser(v);
  }

  lemma LackingLess(m: Memory, s: nat, pages: set<nat>, more: set<nat>)
    requires pages <= more
    ensures |Lacking(m, s, pages)| <= |Lacking(m, s, more)|
  {
    hide PageOf, Way, Node;
    forall p | p in Lacking(m, s, pages)
      ensures p in Lacking(m, s, more)
    {
      var q :| q in pages && p in Way(PageOf(q));
      assert q in more;
    }
    Subset(Lacking(m, s, pages), Lacking(m, s, more));
  }
}
