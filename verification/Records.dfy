/** What the records of a space, its `umap[]`, say about its page tables. */
module Records {
  import opened Common
  import opened PageTable
  import opened Ownership
  import opened AddressSpaces
  import opened Teardown

  ghost predicate DistinctPages(records: seq<Mapping>) {
    forall i, j :: 0 <= i < j < |records| ==> PageOf(records[i].virt) != PageOf(records[j].virt)
  }

  /** The record list and the page tables of a space tell the same story. */
  ghost predicate Agrees(m: Memory, s: nat, records: seq<Mapping>) {
    && DistinctPages(records)
    && (forall v :: UserPage(v) ==> (Leaf(m, s, v).flags.present <==> Listed(records, v)))
    && (forall i :: 0 <= i < |records| ==> Leaf(m, s, PageOf(records[i].virt)).frame == records[i].frame)
  }

  ghost predicate HasRecord(records: seq<Mapping>, v: Page, f: nat) {
    exists i :: 0 <= i < |records| && PageOf(records[i].virt) == v && records[i].frame == f
  }

  /** Every mapped page is recorded with the frame it is mapped to; records may be stale or
      double. */
  ghost predicate Backed(m: Memory, s: nat, records: seq<Mapping>) {
    forall v :: UserPage(v) && Leaf(m, s, v).flags.present ==> HasRecord(records, v, Leaf(m, s, v).frame)
  }

  ghost predicate AllAgree(m: Memory, sp: Spaces) {
    forall s :: s in sp ==> Agrees(m, s, sp[s])
  }

  ghost predicate AllBacked(m: Memory, sp: Spaces) {
    forall s :: s in sp ==> Backed(m, s, sp[s])
  }

  lemma AgreesBacked(m: Memory, s: nat, records: seq<Mapping>)
    requires Agrees(m, s, records)
    ensures Backed(m, s, records)
  {
    hide Leaf, PageOf, UserPage;
    forall v | UserPage(v) && Leaf(m, s, v).flags.present
      ensures HasRecord(records, v, Leaf(m, s, v).frame)
    {
      var i :| 0 <= i < |records| && PageOf(records[i].virt) == v;
      assert records[i].frame == Leaf(m, s, v).frame;
    }
  }

  /** Only the entry of page `v` changed, to `e`. */
  ghost predicate OnlyPage(m: Memory, m': Memory, c: nat, v: Page, e: Pte) {
    forall w :: UserPage(w) ==> Leaf(m', c, w) == if w == v then e else Leaf(m, c, w)
  }

  ghost predicate UserRecords(records: seq<Mapping>) {
    forall i :: 0 <= i < |records| ==> UserPage(PageOf(records[i].virt))
  }

  lemma BoundedUser(sp: Spaces, s: nat)
    requires RecordsBounded(sp) && s in sp
    ensures UserRecords(sp[s])
  {
    hide PageOf, PageNumber, UserPage;
    forall i | 0 <= i < |sp[s]|
      ensures UserPage(PageOf(sp[s][i].virt))
    {
      PageRoundTrip(sp[s][i].virt);
    }
  }

  // -----------------------------------------------------------------------------
  // Lookups that do not change

  lemma SameViews(m: Memory, m': Memory, s: nat, records: seq<Mapping>)
    requires UserRecords(records) && forall v :: UserPage(v) ==> Leaf(m', s, v) == Leaf(m, s, v)
    ensures Agrees(m', s, records) <==> Agrees(m, s, records)
    ensures Backed(m', s, records) <==> Backed(m, s, records)
  {
    hide Leaf, PageOf, UserPage, DistinctPages, Listed, HasRecord;
  }

  // -----------------------------------------------------------------------------
  // One more page

  /** A page mapped anew, whether it was mapped or not, is backed by its new record. */
  lemma MappedBacked(m: Memory, m': Memory, s: nat, records: seq<Mapping>, q: nat, e: Pte)
    requires Backed(m, s, records) && OnlyPage(m, m', s, PageOf(q), e)
    ensures Backed(m', s, records + [Mapping(q, e.frame)])
  {
    hide Leaf, PageOf, UserPage;
    var more := records + [Mapping(q, e.frame)];
    forall v | UserPage(v) && Leaf(m', s, v).flags.present
      ensures HasRecord(more, v, Leaf(m', s, v).frame)
    {
      if v == PageOf(q) {
        assert more[|records|] == Mapping(q, e.frame);
      } else {
        assert Leaf(m, s, v) == Leaf(m', s, v);
        var i :| 0 <= i < |records| && PageOf(records[i].virt) == v && records[i].frame == Leaf(m, s, v).frame;
        assert more[i] == records[i];
      }
    }
  }

  /** Records and page tables still agree after a mapping exactly when the page was not mapped. */
  lemma MappedAgreesIff(m: Memory, m': Memory, s: nat, records: seq<Mapping>, q: nat, e: Pte)
    requires Agrees(m, s, records) && UserRecords(records) && UserPage(PageOf(q)) && e.flags.present && OnlyPage(m, m', s, PageOf(q), e)
    ensures Agrees(m', s, records + [Mapping(q, e.frame)]) <==> !Leaf(m, s, PageOf(q)).flags.present
  {
    hide Leaf, UserPage, PageOf, OnlyPage;
    if Leaf(m, s, PageOf(q)).flags.present {
      DoublePage(records, q, e.frame);
    } else {
      FreshAgrees(m, m', s, records, q, e);
    }
  }

  lemma DoublePage(records: seq<Mapping>, q: nat, f: nat)
    requires Listed(records, PageOf(q))
    ensures !DistinctPages(records + [Mapping(q, f)])
  {
    hide PageOf;
    var more := records + [Mapping(q, f)];
    var i :| 0 <= i < |records| && PageOf(records[i].virt) == PageOf(q);
    assert more[i] == records[i] && more[|records|].virt == q;
  }

  lemma FreshAgrees(m: Memory, m': Memory, s: nat, records: seq<Mapping>, q: nat, e: Pte)
    requires Agrees(m, s, records) && UserRecords(records) && UserPage(PageOf(q)) && e.flags.present && OnlyPage(m, m', s, PageOf(q), e)
    requires !Leaf(m, s, PageOf(q)).flags.present
    ensures Agrees(m', s, records + [Mapping(q, e.frame)])
  {
    hide Leaf, UserPage, PageOf;
    var rs := records + [Mapping(q, e.frame)];
    forall v | UserPage(v)
      ensures Leaf(m', s, v).flags.present <==> Listed(rs, v)
    {
      ListedMore(records, q, e.frame, v);
    }
    forall i | 0 <= i < |records|
      ensures PageOf(records[i].virt) != PageOf(q)
    {
      assert Listed(records, PageOf(records[i].virt));
    }
  }

  lemma ListedMore(records: seq<Mapping>, q: nat, f: nat, v: Page)
    ensures Listed(records + [Mapping(q, f)], v) <==> Listed(records, v) || v == PageOf(q)
  {
    hide PageOf;
    var rs := records + [Mapping(q, f)];
    if Listed(records, v) {
      var i :| 0 <= i < |records| && PageOf(records[i].virt) == v;
      assert rs[i] == records[i];
    }
    assert rs[|records|].virt == q;
  }

  // -----------------------------------------------------------------------------
  // A page taken away while its record stays

  /** What is left is backed; records and page tables no longer agree if the page was mapped. */
  lemma UnmappedBacked(m: Memory, m': Memory, s: nat, records: seq<Mapping>, v: Page, e: Pte)
    requires Backed(m, s, records) && OnlyPage(m, m', s, v, e) && (e.flags.present ==> e == Leaf(m, s, v))
    ensures Backed(m', s, records)
  {
    hide Leaf, PageOf, UserPage, HasRecord;
    forall w | UserPage(w) && Leaf(m', s, w).flags.present
      ensures Leaf(m', s, w) == Leaf(m, s, w)
    {
    }
  }

  /** A record without its page. */
  lemma StaleRecord(m: Memory, s: nat, records: seq<Mapping>, v: Page)
    requires UserPage(v) && Listed(records, v) && !Leaf(m, s, v).flags.present
    ensures !Agrees(m, s, records)
  {
    hide Leaf, PageOf, UserPage, Listed;
  }

  // -----------------------------------------------------------------------------
  // Release

  lemma ReleasedBacked(m0: Memory, m: Memory, sp0: Spaces, s: nat, left: seq<Mapping>, gone: seq<Mapping>)
    requires s in sp0 && Backed(m0, s, sp0[s]) && Cleared(m0, m, sp0, s, gone)
    requires multiset(left) + multiset(gone) == multiset(sp0[s])
    ensures Backed(m, s, left)
  {
    hide Leaf, PageOf, UserPage;
    var all := sp0[s];
    forall v | UserPage(v) && Leaf(m, s, v).flags.present
      ensures HasRecord(left, v, Leaf(m, s, v).frame)
    {
      assert Leaf(m, s, v) == Leaf(m0, s, v) && !Listed(gone, v);
      var i :| 0 <= i < |all| && PageOf(all[i].virt) == v && all[i].frame == Leaf(m0, s, v).frame;
      Split(all, left, gone, all[i]);
      ListedMember(gone, v);
      var j :| 0 <= j < |left| && left[j] == all[i];
    }
  }

  lemma Split(all: seq<Mapping>, left: seq<Mapping>, gone: seq<Mapping>, a: Mapping)
    requires multiset(left) + multiset(gone) == multiset(all)
    ensures a in all <==> a in left || a in gone
  {
    assert a in all <==> a in multiset(all);
    assert a in left <==> a in multiset(left);
    assert a in gone <==> a in multiset(gone);
  }

  lemma ListedMember(rs: seq<Mapping>, v: Page)
    ensures Listed(rs, v) <==> exists r :: r in rs && PageOf(r.virt) == v
  {
    hide PageOf;
    if Listed(rs, v) {
      var i :| 0 <= i < |rs| && PageOf(rs[i].virt) == v;
      assert rs[i] in rs;
    }
  }

  lemma OnePerPage(rs: seq<Mapping>, a: Mapping, b: Mapping)
    requires DistinctPages(rs) && a in rs && b in rs && a != b
    ensures PageOf(a.virt) != PageOf(b.virt)
  {
    hide PageOf;
    var i :| 0 <= i < |rs| && rs[i] == a;
    var j :| 0 <= j < |rs| && rs[j] == b;
    assert i < j || j < i;
  }

  lemma {:induction false} OnceEach(rs: seq<Mapping>, a: Mapping)
    requires DistinctPages(rs)
    ensures multiset(rs)[a] <= 1
    decreases |rs|
  {
    hide PageOf;
    if rs != [] {
      var k := |rs| - 1;
      assert rs == rs[..k] + [rs[k]];
      OnceEach(rs[..k], a);
      assert forall i :: 0 <= i < k ==> rs[i] != rs[k];
      assert rs[k] !in rs[..k];
    }
  }

  /** An entry that occurs once stands in one place. */
  lemma CopiesApart(rs: seq<Mapping>, i: nat, j: nat)
    requires i < j < |rs| && multiset(rs)[rs[i]] <= 1
    ensures rs[i] != rs[j]
  {
    assert rs == rs[..j] + [rs[j]] + rs[j + 1..];
    assert rs[..j][i] == rs[i];
    assert rs[i] in multiset(rs[..j]);
  }

  lemma SubDistinct(all: seq<Mapping>, left: seq<Mapping>, gone: seq<Mapping>)
    requires DistinctPages(all) && multiset(left) + multiset(gone) == multiset(all)
    ensures DistinctPages(left)
    ensures forall a, b :: a in left && b in gone ==> PageOf(a.virt) != PageOf(b.virt)
    ensures forall a :: a in all <==> a in left || a in gone
  {
    hide PageOf;
    forall a: Mapping
      ensures a in all <==> a in left || a in gone
      ensures multiset(left)[a] + multiset(gone)[a] <= 1
      ensures !(a in left && a in gone)
    {
      OnceEach(all, a);
      Split(all, left, gone, a);
      assert a in left <==> a in multiset(left);
      assert a in gone <==> a in multiset(gone);
    }
    forall i, j | 0 <= i < j < |left|
      ensures PageOf(left[i].virt) != PageOf(left[j].virt)
    {
      assert multiset(left)[left[i]] + multiset(gone)[left[i]] <= 1;
      CopiesApart(left, i, j);
      assert left[i] in left && left[j] in left;
      OnePerPage(all, left[i], left[j]);
    }
    forall a, b | a in left && b in gone
      ensures PageOf(a.virt) != PageOf(b.virt)
    {
      OnePerPage(all, a, b);
    }
  }

  lemma ReleasedAgrees(m0: Memory, m: Memory, sp0: Spaces, s: nat, left: seq<Mapping>, gone: seq<Mapping>)
    requires s in sp0 && RecordsBounded(sp0) && Agrees(m0, s, sp0[s]) && Cleared(m0, m, sp0, s, gone)
    requires multiset(left) + multiset(gone) == multiset(sp0[s])
    ensures Agrees(m, s, left)
  {
    hide Leaf, PageOf, PageNumber, UserPage;
    var all := sp0[s];
    SubDistinct(all, left, gone);
    forall v | UserPage(v)
      ensures Listed(all, v) <==> Listed(left, v) || Listed(gone, v)
      ensures !(Listed(left, v) && Listed(gone, v))
    {
      ListedMember(all, v);
      ListedMember(left, v);
      ListedMember(gone, v);
    }
    forall i | 0 <= i < |left|
      ensures Leaf(m, s, PageOf(left[i].virt)).frame == left[i].frame
    {
      assert left[i] in left;
      var j :| 0 <= j < |all| && all[j] == left[i];
      assert all[j].virt < USER_PAGES;
      PageRoundTrip(all[j].virt);
      assert Listed(left, PageOf(left[i].virt));
    }
  }

  // -----------------------------------------------------------------------------
  // All spaces together

  /** The machine is consistent, and every mapped page of every space is recorded. */
  ghost predicate Good(mc: Machine)
    reads mc, mc.pmm, mc.pmm.bitmap
  {
    mc.Ready() && AllBacked(mc.mem, mc.spaces)
  }

  lemma Parts(mc: Machine)
    requires mc.Ready()
    ensures RecordsBounded(mc.spaces) && Inv(mc.mem, mc.spaces, mc.owner)
  {
    hide Inv, RecordsBounded;
  }

  /** Other spaces have the same frames as before, and their data frames the same bytes. */
  ghost predicate OthersKept(m: Memory, m': Memory, ow: Owners, ow': Owners, s: nat) {
    && |m'| == |m|
    && (forall f {:trigger ow[f]} :: f in ow && ow[f].space != s ==> f in ow' && ow'[f] == ow[f])
    && (forall f {:trigger ow'[f]} :: f in ow' && ow'[f].space != s ==> f in ow && ow[f] == ow'[f])
    && (forall f {:trigger m'[f]} :: f in ow && ow[f].DataOf? && ow[f].space != s && f < |m| ==> m'[f] == m[f])
  }

  lemma KeptExtends(m: Memory, m': Memory, ow: Owners, ow': Owners, s: nat)
    requires DataSame(m, m', ow) && Extends(ow, ow', s)
    ensures OthersKept(m, m', ow, ow', s)
  {
  }

  lemma KeptTwice(m0: Memory, m1: Memory, m2: Memory, ow0: Owners, ow1: Owners, ow2: Owners, s: nat)
    requires OthersKept(m0, m1, ow0, ow1, s) && OthersKept(m1, m2, ow1, ow2, s)
    ensures OthersKept(m0, m2, ow0, ow2, s)
  {
    forall f | f in ow0 && ow0[f].space != s
      ensures f in ow2 && ow2[f] == ow0[f]
      ensures ow0[f].DataOf? && f < |m0| ==> m2[f] == m0[f]
    {
      assert ow1[f] == ow0[f];
      if ow0[f].DataOf? && f < |m0| {
        assert m1[f] == m0[f];
      }
    }
    forall f | f in ow2 && ow2[f].space != s
      ensures f in ow0 && ow0[f] == ow2[f]
    {
      assert ow1[f] == ow2[f];
    }
  }

  /** Frames of `s` go; the rest stays. */
  lemma KeptWithout(m: Memory, m': Memory, ow: Owners, gone: set<nat>, s: nat)
    requires DataSame(m, m', ow - gone) && forall f :: f in gone && f in ow ==> ow[f].space == s
    ensures OthersKept(m, m', ow, ow - gone, s)
  {
    var ow': Owners := ow - gone;
    forall f | f in ow && ow[f].space != s
      ensures f in ow' && ow'[f] == ow[f]
      ensures ow[f].DataOf? && f < |m| ==> m'[f] == m[f]
    {
      assert f !in gone;
    }
  }

  /** Only space `s` was touched. */
  lemma OthersBacked(m: Memory, m': Memory, sp: Spaces, sp': Spaces, s: nat)
    requires AllBacked(m, sp) && RecordsBounded(sp) && LeavesSame(m, m', sp - {s})
    requires forall t :: t in sp' && t != s ==> t in sp && sp'[t] == sp[t]
    requires s in sp' ==> Backed(m', s, sp'[s])
    ensures AllBacked(m', sp')
  {
    hide Leaf, PageOf, UserPage, Agrees, Backed, RecordsBounded, UserRecords;
    forall t | t in sp'
      ensures Backed(m', t, sp'[t])
    {
      if t != s {
        assert t in sp - {s};
        BoundedUser(sp, t);
        SameViews(m, m', t, sp[t]);
      }
    }
  }

  /** Only space `s` was touched: all agree exactly when it does. */
  lemma OthersAgree(m: Memory, m': Memory, sp: Spaces, sp': Spaces, s: nat)
    requires AllAgree(m, sp) && RecordsBounded(sp) && LeavesSame(m, m', sp - {s})
    requires forall t :: t in sp' && t != s ==> t in sp && sp'[t] == sp[t]
    ensures AllAgree(m', sp') <==> s in sp' ==> Agrees(m', s, sp'[s])
  {
    hide Leaf, PageOf, UserPage, Agrees, Backed, RecordsBounded, UserRecords;
    forall t | t in sp' && t != s
      ensures Agrees(m', t, sp'[t])
    {
      assert t in sp - {s};
      BoundedUser(sp, t);
      SameViews(m, m', t, sp[t]);
    }
  }

  lemma Fewer(m: Memory, m': Memory, sp: Spaces, s: nat)
    requires LeavesSame(m, m', sp)
    ensures LeavesSame(m, m', sp - {s})
  {
    hide Leaf, UserPage;
  }
}
