/** Who owns which physical frame: the tables and data pages of all address spaces. */
module Ownership {
  import opened Common
  import opened PageTable

  /** One record of `umap[]`: a virtual page number and the frame handed out for it. */
  datatype Mapping = Mapping(virt: nat, frame: nat)

  /** The address spaces, each named by the frame of its PML4, with its `umap[]`. */
  type Spaces = map<nat, seq<Mapping>>

  datatype Owner = TableOf(space: nat, path: Path) | DataOf(space: nat)

  type Owners = map<nat, Owner>

  // -----------------------------------------------------------------------------
  // The invariant

  /** Every table reachable in the user half of a space belongs to that space, at that position. */
  ghost predicate NodesOwned(m: Memory, sp: Spaces, ow: Owners) {
    forall s, p {:trigger Node(m, s, p)} :: s in sp && UserPath(p) && Node(m, s, p).Some? ==>
      Node(m, s, p).value in ow && ow[Node(m, s, p).value] == TableOf(s, p)
  }

  /** Every frame owned as a table is one, and is reachable where its owner record says. */
  ghost predicate OwnersAreNodes(m: Memory, sp: Spaces, ow: Owners) {
    forall f {:trigger ow[f]} :: f in ow && ow[f].TableOf? ==>
      && ow[f].space in sp && UserPath(ow[f].path)
      && Node(m, ow[f].space, ow[f].path) == Some(f)
      && f < |m| && IsTable(m[f])
  }

  /** Every recorded page has a data frame of its own. */
  ghost predicate DataOwned(m: Memory, sp: Spaces, ow: Owners) {
    && (forall s, i {:trigger sp[s][i]} :: s in sp && 0 <= i < |sp[s]| ==>
          && sp[s][i].frame in ow && ow[sp[s][i].frame] == DataOf(s)
          && sp[s][i].frame < |m| && IsData(m[sp[s][i].frame]))
    && (forall s, i, j {:trigger sp[s][i], sp[s][j]} :: s in sp && 0 <= i < j < |sp[s]| ==>
          sp[s][i].frame != sp[s][j].frame)
  }

  ghost predicate Records(umap: seq<Mapping>, f: nat) {
    exists i :: 0 <= i < |umap| && umap[i].frame == f
  }

  /** Every frame owned as data is recorded by its owner. */
  ghost predicate OwnersAreData(sp: Spaces, ow: Owners) {
    forall f {:trigger ow[f]} :: f in ow && ow[f].DataOf? ==> ow[f].space in sp && Records(sp[ow[f].space], f)
  }

  ghost predicate NoHugePages(m: Memory, sp: Spaces) {
    forall s :: s in sp ==> NoHuge(m, s)
  }

  ghost predicate Inv(m: Memory, sp: Spaces, ow: Owners) {
    && NodesOwned(m, sp, ow)
    && OwnersAreNodes(m, sp, ow)
    && DataOwned(m, sp, ow)
    && OwnersAreData(sp, ow)
    && NoHugePages(m, sp)
  }

  /** The frames a space owns: its PML4, its lower-half tables and its recorded pages. */
  ghost function FramesOf(ow: Owners, s: nat): set<nat> {
    set f | f in ow && ow[f].space == s
  }

  // -----------------------------------------------------------------------------
  // Trees that do not change

  ghost predicate SameTree(m: Memory, m': Memory, root: nat) {
    forall p {:trigger Node(m, root, p)} {:trigger Node(m', root, p)} :: UserPath(p) ==>
      && Node(m', root, p) == Node(m, root, p)
      && (Node(m, root, p).Some? ==> forall i :: Entry(m', Node(m, root, p).value, i) == Entry(m, Node(m, root, p).value, i))
  }

  /** Writing frames that belong to no table of `s` leaves the tree of `s` alone. */
  lemma Untouched(m: Memory, m': Memory, sp: Spaces, ow: Owners, s: nat, touched: set<nat>)
    requires NodesOwned(m, sp, ow) && s in sp && |m'| == |m|
    requires forall f :: 0 <= f < |m| && f !in touched ==> m'[f] == m[f]
    requires forall f :: f in touched && f in ow ==> !(ow[f].TableOf? && ow[f].space == s)
    ensures SameTree(m, m', s)
  {
    forall p | UserPath(p)
      ensures Node(m', s, p) == Node(m, s, p)
      ensures Node(m, s, p).Some? ==> forall i :: Entry(m', Node(m, s, p).value, i) == Entry(m, Node(m, s, p).value, i)
    {
      UntouchedNode(m, m', sp, ow, s, touched, p);
    }
  }

  lemma {:induction false} UntouchedNode(m: Memory, m': Memory, sp: Spaces, ow: Owners, s: nat, touched: set<nat>, p: Path)
    requires NodesOwned(m, sp, ow) && s in sp && |m'| == |m| && UserPath(p)
    requires forall f :: 0 <= f < |m| && f !in touched ==> m'[f] == m[f]
    requires forall f :: f in touched && f in ow ==> !(ow[f].TableOf? && ow[f].space == s)
    ensures Node(m', s, p) == Node(m, s, p)
    ensures Node(m, s, p).Some? ==> forall i :: Entry(m', Node(m, s, p).value, i) == Entry(m, Node(m, s, p).value, i)
  {
    if p.Sub? {
      UntouchedNode(m, m', sp, ow, s, touched, p.parent);
    }
  }

  lemma SameLeaves(m: Memory, m': Memory, root: nat)
    requires SameTree(m, m', root)
    ensures forall v :: UserPage(v) ==> Leaf(m', root, v) == Leaf(m, root, v)
    ensures NoHuge(m, root) ==> NoHuge(m', root)
  {
    forall v | UserPage(v)
      ensures Leaf(m', root, v) == Leaf(m, root, v)
    {
      PtPathUser(v);
      assert Node(m', root, PtPath(v)) == Node(m, root, PtPath(v));
    }
    if NoHuge(m, root) {
      forall p, i | UserPath(Sub(p, i)) && Node(m', root, p).Some? && Entry(m', Node(m', root, p).value, i).flags.present
        ensures !Entry(m', Node(m', root, p).value, i).flags.huge
      {
        assert Node(m', root, p) == Node(m, root, p);
      }
    }
  }

  /** A write to frames that carry no table of a space other than `s` is invisible to the
      other spaces. */
  lemma OthersSame(m: Memory, m': Memory, sp: Spaces, ow: Owners, s: nat, touched: set<nat>)
    requires NodesOwned(m, sp, ow) && NoHugePages(m, sp) && |m'| == |m|
    requires forall f :: 0 <= f < |m| && f !in touched ==> m'[f] == m[f]
    requires forall f :: f in touched && f in ow && ow[f].TableOf? ==> ow[f].space == s
    ensures forall t :: t in sp && t != s ==> SameTree(m, m', t) && NoHuge(m', t)
    ensures forall t, v :: t in sp && t != s && UserPage(v) ==> Leaf(m', t, v) == Leaf(m, t, v)
  {
    hide NoHuge, Leaf, UserPage;
    forall t | t in sp && t != s
      ensures SameTree(m, m', t) && NoHuge(m', t)
      ensures forall v :: UserPage(v) ==> Leaf(m', t, v) == Leaf(m, t, v)
    {
      Untouched(m, m', sp, ow, t, touched);
      SameLeaves(m, m', t);
    }
  }

  // -----------------------------------------------------------------------------
  // Adding a table

  /** The memory after an empty table in frame `n` has been hung under entry `idx` of frame `f`. */
  function WithTable(m: Memory, f: nat, idx: nat, n: nat, flags: Flags): Memory
    requires f < |m| && n < |m| && f != n && IsTable(m[f]) && idx < ENTRIES
  {
    m[n := ZeroTable()][f := Table(m[f].entries[idx := Pte(flags, n)])]
  }

  lemma {:induction false} AddedNode(m: Memory, sp: Spaces, ow: Owners, s: nat, p: Path, idx: nat, n: nat, flags: Flags, q: Path)
    requires NodesOwned(m, sp, ow) && s in sp && UserPath(Sub(p, idx)) && UserPath(q)
    requires Node(m, s, p).Some? && Node(m, s, Sub(p, idx)).None?
    requires n < |m| && n !in ow && flags.present
    requires var f := Node(m, s, p).value; f < |m| && IsTable(m[f]) && f != n
    ensures
      var f := Node(m, s, p).value;
      var m' := WithTable(m, f, idx, n, flags);
      && Node(m', s, q) == (if q == Sub(p, idx) then Some(n) else Node(m, s, q))
      && (q != Sub(p, idx) && Node(m, s, q).Some? ==>
            Node(m, s, q).value != n &&
            forall i :: Entry(m', Node(m, s, q).value, i) ==
                        if q == p && i == idx then Pte(flags, n) else Entry(m, Node(m, s, q).value, i))
  {
    var r := s;
    var f := Node(m, r, p).value;
    assert f in ow && ow[f] == TableOf(s, p);
    if q.Sub? {
      AddedNode(m, sp, ow, s, p, idx, n, flags, q.parent);
    }
  }

  lemma AddedTree(m: Memory, m': Memory, sp: Spaces, ow: Owners, s: nat, p: Path, idx: nat, n: nat, flags: Flags)
    requires Inv(m, sp, ow) && s in sp && UserPath(Sub(p, idx))
    requires Node(m, s, p).Some? && Node(m, s, Sub(p, idx)).None?
    requires n < |m| && n !in ow && flags.present && !flags.huge
    requires var f := Node(m, s, p).value; f < |m| && IsTable(m[f]) && f != n && m' == WithTable(m, f, idx, n, flags)
    ensures forall q {:trigger Node(m', s, q)} :: UserPath(q) ==> Node(m', s, q) == (if q == Sub(p, idx) then Some(n) else Node(m, s, q))
    ensures NoHuge(m', s)
    ensures forall v :: UserPage(v) ==> Leaf(m', s, v) == Leaf(m, s, v)
  {
    hide OwnersAreNodes, DataOwned, OwnersAreData, NoHuge, Leaf, UserPage;
    forall q | UserPath(q)
      ensures Node(m', s, q) == (if q == Sub(p, idx) then Some(n) else Node(m, s, q))
    {
      AddedNode(m, sp, ow, s, p, idx, n, flags, q);
    }
    AddedNoHuge(m, m', sp, ow, s, p, idx, n, flags);
    forall v | UserPage(v)
      ensures Leaf(m', s, v) == Leaf(m, s, v)
    {
      AddedLeaf(m, m', sp, ow, s, p, idx, n, flags, v);
    }
  }

  lemma AddedNoHuge(m: Memory, m': Memory, sp: Spaces, ow: Owners, s: nat, p: Path, idx: nat, n: nat, flags: Flags)
    requires NodesOwned(m, sp, ow) && NoHuge(m, s) && s in sp && UserPath(Sub(p, idx))
    requires Node(m, s, p).Some? && Node(m, s, Sub(p, idx)).None?
    requires n < |m| && n !in ow && flags.present && !flags.huge
    requires var f := Node(m, s, p).value; f < |m| && IsTable(m[f]) && f != n && m' == WithTable(m, f, idx, n, flags)
    ensures NoHuge(m', s)
  {
    forall q, i | UserPath(Sub(q, i)) && Node(m', s, q).Some? && Entry(m', Node(m', s, q).value, i).flags.present
      ensures !Entry(m', Node(m', s, q).value, i).flags.huge
    {
      AddedNode(m, sp, ow, s, p, idx, n, flags, q);
    }
  }

  lemma AddedLeaf(m: Memory, m': Memory, sp: Spaces, ow: Owners, s: nat, p: Path, idx: nat, n: nat, flags: Flags, v: Page)
    requires NodesOwned(m, sp, ow) && s in sp && UserPath(Sub(p, idx)) && UserPage(v)
    requires Node(m, s, p).Some? && Node(m, s, Sub(p, idx)).None?
    requires n < |m| && n !in ow && flags.present
    requires var f := Node(m, s, p).value; f < |m| && IsTable(m[f]) && f != n && m' == WithTable(m, f, idx, n, flags)
    ensures Leaf(m', s, v) == Leaf(m, s, v)
  {
    PtPathUser(v);
    AddedNode(m, sp, ow, s, p, idx, n, flags, PtPath(v));
  }

  /** Hanging an empty table into a space keeps the invariant and every lookup of every space. */
  lemma AddedTable(m: Memory, m': Memory, sp: Spaces, ow: Owners, s: nat, p: Path, idx: nat, n: nat, flags: Flags)
    requires Inv(m, sp, ow) && s in sp && UserPath(Sub(p, idx))
    requires Node(m, s, p).Some? && Node(m, s, Sub(p, idx)).None?
    requires n < |m| && n !in ow && flags.present && !flags.huge
    requires var f := Node(m, s, p).value; f < |m| && IsTable(m[f]) && f != n && m' == WithTable(m, f, idx, n, flags)
    ensures Inv(m', sp, ow[n := TableOf(s, Sub(p, idx))])
    ensures forall t, v :: t in sp && UserPage(v) ==> Leaf(m', t, v) == Leaf(m, t, v)
  {
    hide NoHuge, Leaf, UserPage, OwnersAreNodes, DataOwned, OwnersAreData, SameTree;
    var f := Node(m, s, p).value;
    assert f in ow && ow[f] == TableOf(s, p);
    AddedTree(m, m', sp, ow, s, p, idx, n, flags);
    OthersSame(m, m', sp, ow, s, {f, n});
    AddedNodesOwned(m, m', sp, ow, s, p, idx, n, flags);
    AddedDataOwned(m, m', sp, ow, s, p, idx, n, flags);
  }

  lemma AddedNodesOwned(m: Memory, m': Memory, sp: Spaces, ow: Owners, s: nat, p: Path, idx: nat, n: nat, flags: Flags)
    requires NodesOwned(m, sp, ow) && OwnersAreNodes(m, sp, ow) && s in sp && UserPath(Sub(p, idx))
    requires Node(m, s, p).Some? && Node(m, s, Sub(p, idx)).None?
    requires n < |m| && n !in ow
    requires var f := Node(m, s, p).value; f < |m| && IsTable(m[f]) && f != n && m' == WithTable(m, f, idx, n, flags)
    requires forall q {:trigger Node(m', s, q)} :: UserPath(q) ==> Node(m', s, q) == (if q == Sub(p, idx) then Some(n) else Node(m, s, q))
    requires forall t :: t in sp && t != s ==> SameTree(m, m', t)
    ensures NodesOwned(m', sp, ow[n := TableOf(s, Sub(p, idx))])
    ensures OwnersAreNodes(m', sp, ow[n := TableOf(s, Sub(p, idx))])
  {
    var ow' := ow[n := TableOf(s, Sub(p, idx))];
    forall t, q | t in sp && UserPath(q) && Node(m', t, q).Some?
      ensures Node(m', t, q).value in ow' && ow'[Node(m', t, q).value] == TableOf(t, q)
    {
      if t != s {
        assert Node(m', t, q) == Node(m, t, q);
      }
    }
    forall g | g in ow' && ow'[g].TableOf?
      ensures ow'[g].space in sp && UserPath(ow'[g].path) && Node(m', ow'[g].space, ow'[g].path) == Some(g) && g < |m'| && IsTable(m'[g])
    {
      if g != n {
        assert ow[g] == ow'[g];
        assert Node(m, ow[g].space, ow[g].path) == Some(g);
      }
    }
  }

  lemma AddedDataOwned(m: Memory, m': Memory, sp: Spaces, ow: Owners, s: nat, p: Path, idx: nat, n: nat, flags: Flags)
    requires NodesOwned(m, sp, ow) && DataOwned(m, sp, ow) && OwnersAreData(sp, ow) && s in sp && UserPath(p)
    requires Node(m, s, p).Some? && n < |m| && n !in ow && idx < ENTRIES
    requires var f := Node(m, s, p).value; f < |m| && IsTable(m[f]) && f != n && m' == WithTable(m, f, idx, n, flags)
    ensures DataOwned(m', sp, ow[n := TableOf(s, Sub(p, idx))])
    ensures OwnersAreData(sp, ow[n := TableOf(s, Sub(p, idx))])
  {
    var f := Node(m, s, p).value;
    assert ow[f] == TableOf(s, p);
    var ow' := ow[n := TableOf(s, Sub(p, idx))];
    forall t, i | t in sp && 0 <= i < |sp[t]|
      ensures sp[t][i].frame in ow' && ow'[sp[t][i].frame] == DataOf(t) && sp[t][i].frame < |m'| && IsData(m'[sp[t][i].frame])
    {
      assert sp[t][i].frame != n && sp[t][i].frame != f;
    }
  }

  // -----------------------------------------------------------------------------
  // Writing a leaf entry

  /** The memory after entry `l` of the table in frame `f` was set to `e`. */
  function WithEntry(m: Memory, f: nat, l: nat, e: Pte): Memory
    requires f < |m| && IsTable(m[f]) && l < ENTRIES
  {
    m[f := Table(m[f].entries[l := e])]
  }

  lemma {:induction false} LeafWrittenNode(m: Memory, m': Memory, sp: Spaces, ow: Owners, s: nat, p: Path, f: nat, l: nat, e: Pte, q: Path)
    requires NodesOwned(m, sp, ow) && s in sp && UserPath(p) && Depth(p) == 3 && UserPath(q)
    requires Node(m, s, p) == Some(f) && f < |m| && IsTable(m[f]) && l < ENTRIES
    requires m' == WithEntry(m, f, l, e)
    ensures Node(m', s, q) == Node(m, s, q)
    ensures Node(m, s, q).Some? ==> forall i :: Entry(m', Node(m, s, q).value, i) == if q == p && i == l then e else Entry(m, Node(m, s, q).value, i)
  {
    assert ow[f] == TableOf(s, p);
    if q.Sub? {
      LeafWrittenNode(m, m', sp, ow, s, p, f, l, e, q.parent);
    }
  }

  lemma LeafWrittenTree(m: Memory, m': Memory, sp: Spaces, ow: Owners, s: nat, v: Page, f: nat, e: Pte)
    requires NodesOwned(m, sp, ow) && NoHugePages(m, sp) && s in sp && UserPage(v)
    requires Node(m, s, PtPath(v)) == Some(f) && f < |m| && IsTable(m[f])
    requires m' == WithEntry(m, f, v.i1, e)
    ensures forall q {:trigger Node(m', s, q)} :: UserPath(q) ==> Node(m', s, q) == Node(m, s, q)
    ensures NoHuge(m', s)
    ensures forall w :: UserPage(w) ==> Leaf(m', s, w) == if w == v then e else Leaf(m, s, w)
  {
    PtPathUser(v);
    forall q | UserPath(q)
      ensures Node(m', s, q) == Node(m, s, q)
    {
      LeafWrittenNode(m, m', sp, ow, s, PtPath(v), f, v.i1, e, q);
    }
    forall q, i | UserPath(Sub(q, i)) && Node(m', s, q).Some? && Entry(m', Node(m', s, q).value, i).flags.present
      ensures !Entry(m', Node(m', s, q).value, i).flags.huge
    {
      LeafWrittenNode(m, m', sp, ow, s, PtPath(v), f, v.i1, e, q);
    }
    forall w | UserPage(w)
      ensures Leaf(m', s, w) == if w == v then e else Leaf(m, s, w)
    {
      PtPathUser(w);
      LeafWrittenNode(m, m', sp, ow, s, PtPath(v), f, v.i1, e, PtPath(w));
    }
  }

  /** Writing the leaf entry of a page changes the lookup of that page in that space, and no other. */
  lemma LeafWritten(m: Memory, m': Memory, sp: Spaces, ow: Owners, s: nat, v: Page, f: nat, e: Pte)
    requires Inv(m, sp, ow) && s in sp && UserPage(v)
    requires Node(m, s, PtPath(v)) == Some(f) && f < |m| && IsTable(m[f])
    requires m' == WithEntry(m, f, v.i1, e)
    ensures Inv(m', sp, ow)
    ensures forall t, w :: t in sp && UserPage(w) ==> Leaf(m', t, w) == if t == s && w == v then e else Leaf(m, t, w)
  {
    hide NoHuge, Leaf, SameTree;
    PtPathUser(v);
    assert ow[f] == TableOf(s, PtPath(v));
    LeafWrittenTree(m, m', sp, ow, s, v, f, e);
    OthersSame(m, m', sp, ow, s, {f});
    SameNodesInv(m, m', sp, ow, s, f);
  }

  /** A table write that leaves all positions in place keeps the ownership records right. */
  lemma SameNodesInv(m: Memory, m': Memory, sp: Spaces, ow: Owners, s: nat, f: nat)
    requires NodesOwned(m, sp, ow) && OwnersAreNodes(m, sp, ow) && DataOwned(m, sp, ow)
    requires |m'| == |m| && f < |m| && (forall g :: 0 <= g < |m| && g != f ==> m'[g] == m[g])
    requires f in ow && ow[f].TableOf? && IsTable(m'[f])
    requires s in sp ==> forall q {:trigger Node(m', s, q)} :: UserPath(q) ==> Node(m', s, q) == Node(m, s, q)
    requires forall t :: t in sp && t != s ==> SameTree(m, m', t)
    ensures NodesOwned(m', sp, ow) && OwnersAreNodes(m', sp, ow) && DataOwned(m', sp, ow)
  {
    forall t, q | t in sp && UserPath(q) && Node(m', t, q).Some?
      ensures Node(m', t, q).value in ow && ow[Node(m', t, q).value] == TableOf(t, q)
    {
      assert Node(m', t, q) == Node(m, t, q);
    }
    forall g | g in ow && ow[g].TableOf?
      ensures Node(m', ow[g].space, ow[g].path) == Some(g) && g < |m'| && IsTable(m'[g])
    {
      assert Node(m, ow[g].space, ow[g].path) == Some(g);
    }
  }

  // -----------------------------------------------------------------------------
  // Frames that are not tables

  /** Frames that carry no table can be rewritten without any space noticing. */
  lemma AllSame(m: Memory, m': Memory, sp: Spaces, ow: Owners, f: nat)
    requires NodesOwned(m, sp, ow) && NoHugePages(m, sp) && |m'| == |m|
    requires forall g :: 0 <= g < |m| && g != f ==> m'[g] == m[g]
    requires f in ow ==> ow[f].DataOf?
    ensures forall t :: t in sp ==> SameTree(m, m', t) && NoHuge(m', t)
    ensures forall t, v :: t in sp && UserPage(v) ==> Leaf(m', t, v) == Leaf(m, t, v)
  {
    hide NoHuge, Leaf, UserPage;
    forall t | t in sp
      ensures SameTree(m, m', t) && NoHuge(m', t)
      ensures forall v :: UserPage(v) ==> Leaf(m', t, v) == Leaf(m, t, v)
    {
      Untouched(m, m', sp, ow, t, {f});
      SameLeaves(m, m', t);
    }
  }

  /** Rewriting a data frame, or a frame nobody owns, keeps the invariant and every lookup. */
  lemma FrameWritten(m: Memory, m': Memory, sp: Spaces, ow: Owners, f: nat, d: Frame)
    requires Inv(m, sp, ow) && f < |m| && m' == m[f := d]
    requires f in ow ==> ow[f].DataOf? && IsData(d)
    ensures Inv(m', sp, ow)
    ensures forall t, v :: t in sp && UserPage(v) ==> Leaf(m', t, v) == Leaf(m, t, v)
  {
    hide NoHuge, Leaf, UserPage;
    AllSame(m, m', sp, ow, f);
    forall t, q | t in sp && UserPath(q) && Node(m', t, q).Some?
      ensures Node(m', t, q).value in ow && ow[Node(m', t, q).value] == TableOf(t, q)
    {
      assert Node(m', t, q) == Node(m, t, q);
    }
    forall g | g in ow && ow[g].TableOf?
      ensures Node(m', ow[g].space, ow[g].path) == Some(g) && g < |m'| && IsTable(m'[g])
    {
      assert Node(m, ow[g].space, ow[g].path) == Some(g);
    }
  }

  // -----------------------------------------------------------------------------
  // Records of data pages

  lemma RecordAdded(m: Memory, sp: Spaces, ow: Owners, s: nat, virt: nat, n: nat)
    requires Inv(m, sp, ow) && s in sp && n !in ow && n < |m| && IsData(m[n])
    ensures Inv(m, sp[s := sp[s] + [Mapping(virt, n)]], ow[n := DataOf(s)])
  {
    hide NoHuge;
    var sp', ow' := sp[s := sp[s] + [Mapping(virt, n)]], ow[n := DataOf(s)];
    assert NodesOwned(m, sp', ow');
    forall f | f in ow' && ow'[f].DataOf?
      ensures ow'[f].space in sp' && Records(sp'[ow'[f].space], f)
    {
      var t := ow'[f].space;
      if f == n {
        assert sp'[s][|sp[s]|].frame == n;
      } else {
        assert ow[f] == ow'[f];
        var i :| 0 <= i < |sp[t]| && sp[t][i].frame == f;
        assert sp'[t][i].frame == f;
      }
    }
    forall t, i | t in sp' && 0 <= i < |sp'[t]|
      ensures sp'[t][i].frame in ow' && ow'[sp'[t][i].frame] == DataOf(t) && sp'[t][i].frame < |m| && IsData(m[sp'[t][i].frame])
    {
      if i < |sp[t]| {
        assert sp'[t][i] == sp[t][i];
      }
    }
    forall t, i, j | t in sp' && 0 <= i < j < |sp'[t]|
      ensures sp'[t][i].frame != sp'[t][j].frame
    {
      assert sp'[t][i] == sp[t][i];
      if j < |sp[t]| {
        assert sp'[t][j] == sp[t][j];
      }
    }
  }

  /** Removal of record `i` by moving the last record into its place. */
  function SwapRemove(umap: seq<Mapping>, i: nat): seq<Mapping>
    requires i < |umap|
  {
    umap[i := umap[|umap| - 1]][..|umap| - 1]
  }

  lemma RemovedAt(umap: seq<Mapping>, i: nat, j: nat)
    requires i < |umap| && j < |umap| - 1
    ensures SwapRemove(umap, i)[j] == if j == i then umap[|umap| - 1] else umap[j]
  {
  }

  lemma RemovedStill(umap: seq<Mapping>, i: nat, f: nat)
    requires i < |umap| && Records(umap, f) && umap[i].frame != f
    ensures Records(SwapRemove(umap, i), f)
  {
    var j :| 0 <= j < |umap| && umap[j].frame == f;
    assert SwapRemove(umap, i)[if j == |umap| - 1 then i else j].frame == f;
  }

  lemma RecordRemoved(m: Memory, sp: Spaces, ow: Owners, s: nat, i: nat)
    requires Inv(m, sp, ow) && s in sp && i < |sp[s]|
    ensures Inv(m, sp[s := SwapRemove(sp[s], i)], ow - {sp[s][i].frame})
  {
    hide NoHuge, SwapRemove, Records;
    var n := sp[s][i].frame;
    var sp', ow' := sp[s := SwapRemove(sp[s], i)], ow - {n};
    assert ow[n] == DataOf(s);
    assert NodesOwned(m, sp', ow');
    RecordRemovedData(m, sp, ow, s, i);
    forall f | f in ow' && ow'[f].DataOf?
      ensures ow'[f].space in sp' && Records(sp'[ow'[f].space], f)
    {
      assert ow[f] == ow'[f];
      if ow[f].space == s {
        RemovedStill(sp[s], i, f);
      }
    }
  }

  lemma RecordRemovedData(m: Memory, sp: Spaces, ow: Owners, s: nat, i: nat)
    requires DataOwned(m, sp, ow) && s in sp && i < |sp[s]|
    ensures DataOwned(m, sp[s := SwapRemove(sp[s], i)], ow - {sp[s][i].frame})
  {
    var was, r := sp[s], SwapRemove(sp[s], i);
    var sp': Spaces, ow': Owners := sp[s := r], ow - {was[i].frame};
    forall j | 0 <= j < |r|
      ensures r[j] == if j == i then was[|was| - 1] else was[j]
    {
      RemovedAt(was, i, j);
    }
    forall t, j | t in sp' && 0 <= j < |sp'[t]|
      ensures sp'[t][j].frame in ow' && ow'[sp'[t][j].frame] == DataOf(t) && sp'[t][j].frame < |m| && IsData(m[sp'[t][j].frame])
    {
      assert sp'[t][j] == if t == s && j == i then sp[s][|was| - 1] else sp[t][j];
      assert sp[s][i].frame in ow;
    }
    forall t, j, k | t in sp' && 0 <= j < k < |sp'[t]|
      ensures sp'[t][j].frame != sp'[t][k].frame
    {
      assert sp'[t][j] == if t == s && j == i then sp[s][|was| - 1] else sp[t][j];
      assert sp'[t][k] == if t == s && k == i then sp[s][|was| - 1] else sp[t][k];
    }
  }

  // -----------------------------------------------------------------------------
  // Spaces as a whole

  /** A new PML4 with an empty lower half starts a space that maps nothing. */
  lemma SpaceAdded(m: Memory, m': Memory, sp: Spaces, ow: Owners, n: nat, entries: seq<Pte>)
    requires Inv(m, sp, ow) && n !in ow && n !in sp && n < |m| && |entries| == ENTRIES
    requires forall i :: 0 <= i < USER_TOP ==> entries[i] == ZERO_PTE
    requires m' == m[n := Table(entries)]
    ensures Inv(m', sp[n := []], ow[n := TableOf(n, Root)])
    ensures forall t, v :: t in sp && UserPage(v) ==> Leaf(m', t, v) == Leaf(m, t, v)
    ensures forall v :: UserPage(v) ==> Leaf(m', n, v) == ZERO_PTE
  {
    hide NoHuge, Leaf, UserPage;
    FrameWritten(m, m', sp, ow, n, Table(entries));
    EmptyTree(m', n);
    SpaceAddedOwners(m', sp, ow, n);
  }

  lemma EmptyTree(m: Memory, n: nat)
    requires n < |m| && IsTable(m[n]) && forall i :: 0 <= i < USER_TOP ==> m[n].entries[i] == ZERO_PTE
    ensures forall p {:trigger Node(m, n, p)} :: UserPath(p) && p != Root ==> Node(m, n, p).None?
    ensures NoHuge(m, n)
    ensures forall v :: UserPage(v) ==> Leaf(m, n, v) == ZERO_PTE
  {
    forall p | UserPath(p) && p != Root
      ensures Node(m, n, p).None?
    {
      EmptyNode(m, n, p);
    }
    forall v | UserPage(v)
      ensures Leaf(m, n, v) == ZERO_PTE
    {
      PtPathUser(v);
    }
  }

  lemma {:induction false} EmptyNode(m: Memory, n: nat, p: Path)
    requires n < |m| && IsTable(m[n]) && forall i :: 0 <= i < USER_TOP ==> m[n].entries[i] == ZERO_PTE
    requires UserPath(p) && p != Root
    ensures Node(m, n, p).None?
  {
    if p.parent != Root {
      EmptyNode(m, n, p.parent);
    }
  }

  lemma SpaceAddedOwners(m: Memory, sp: Spaces, ow: Owners, n: nat)
    requires Inv(m, sp, ow) && n !in ow && n !in sp && n < |m| && IsTable(m[n]) && NoHuge(m, n)
    requires forall p {:trigger Node(m, n, p)} :: UserPath(p) && p != Root ==> Node(m, n, p).None?
    ensures Inv(m, sp[n := []], ow[n := TableOf(n, Root)])
  {
    hide NoHuge;
    var sp', ow' := sp[n := []], ow[n := TableOf(n, Root)];
    forall t, q | t in sp' && UserPath(q) && Node(m, t, q).Some?
      ensures Node(m, t, q).value in ow' && ow'[Node(m, t, q).value] == TableOf(t, q)
    {
    }
    forall g | g in ow' && ow'[g].TableOf?
      ensures ow'[g].space in sp' && UserPath(ow'[g].path) && Node(m, ow'[g].space, ow'[g].path) == Some(g) && g < |m| && IsTable(m[g])
    {
      if g != n {
        assert ow[g] == ow'[g];
      }
    }
    forall f | f in ow' && ow'[f].DataOf?
      ensures ow'[f].space in sp' && Records(sp'[ow'[f].space], f)
    {
      assert ow[f] == ow'[f];
    }
    forall t, i | t in sp' && 0 <= i < |sp'[t]|
      ensures sp'[t][i].frame in ow' && ow'[sp'[t][i].frame] == DataOf(t) && sp'[t][i].frame < |m| && IsData(m[sp'[t][i].frame])
    {
      assert sp'[t][i] == sp[t][i];
    }
    forall t, i, j | t in sp' && 0 <= i < j < |sp'[t]|
      ensures sp'[t][i].frame != sp'[t][j].frame
    {
      assert sp'[t][i] == sp[t][i] && sp'[t][j] == sp[t][j];
    }
  }

  /** Giving back everything a space owns leaves the other spaces as they were. */
  lemma SpaceDropped(m: Memory, m': Memory, sp: Spaces, ow: Owners, s: nat)
    requires Inv(m, sp, ow) && s in sp && |m'| == |m|
    requires forall f :: 0 <= f < |m| && f !in FramesOf(ow, s) ==> m'[f] == m[f]
    ensures Inv(m', sp - {s}, ow - FramesOf(ow, s))
    ensures forall t, v :: t in sp && t != s && UserPage(v) ==> Leaf(m', t, v) == Leaf(m, t, v)
  {
    hide NoHuge, Leaf, UserPage;
    OthersSame(m, m', sp, ow, s, FramesOf(ow, s));
    SpaceDroppedOwners(m, m', sp, ow, s);
  }

  lemma SpaceDroppedOwners(m: Memory, m': Memory, sp: Spaces, ow: Owners, s: nat)
    requires Inv(m, sp, ow) && s in sp && |m'| == |m|
    requires forall f :: 0 <= f < |m| && f !in FramesOf(ow, s) ==> m'[f] == m[f]
    requires forall t :: t in sp && t != s ==> SameTree(m, m', t) && NoHuge(m', t)
    ensures Inv(m', sp - {s}, ow - FramesOf(ow, s))
  {
    hide NoHuge;
    var sp', ow' := sp - {s}, ow - FramesOf(ow, s);
    forall t, q | t in sp' && UserPath(q) && Node(m', t, q).Some?
      ensures Node(m', t, q).value in ow' && ow'[Node(m', t, q).value] == TableOf(t, q)
    {
      assert Node(m', t, q) == Node(m, t, q);
    }
    forall g | g in ow' && ow'[g].TableOf?
      ensures ow'[g].space in sp' && Node(m', ow'[g].space, ow'[g].path) == Some(g) && g < |m'| && IsTable(m'[g])
    {
      assert ow[g] == ow'[g];
      assert Node(m, ow[g].space, ow[g].path) == Some(g);
    }
    forall f | f in ow' && ow'[f].DataOf?
      ensures ow'[f].space in sp' && Records(sp'[ow'[f].space], f)
    {
      assert ow[f] == ow'[f];
    }
  }

  /** The data frames of a space. */
  ghost function DataFramesOf(ow: Owners, s: nat): set<nat> {
    set f | f in ow && ow[f] == DataOf(s)
  }

  /** Forgetting all records of a space releases exactly its data frames. */
  lemma RecordsDropped(m: Memory, sp: Spaces, ow: Owners, s: nat)
    requires Inv(m, sp, ow) && s in sp
    ensures Inv(m, sp[s := []], ow - DataFramesOf(ow, s))
    ensures DataFramesOf(ow, s) == set i | 0 <= i < |sp[s]| :: sp[s][i].frame
  {
    hide NoHuge;
    var sp': Spaces, ow': Owners := sp[s := []], ow - DataFramesOf(ow, s);
    assert NodesOwned(m, sp', ow');
    forall f | f in ow' && ow'[f].DataOf?
      ensures ow'[f].space in sp' && Records(sp'[ow'[f].space], f)
    {
      assert ow[f] == ow'[f];
    }
    forall f | f in DataFramesOf(ow, s)
      ensures f in set i | 0 <= i < |sp[s]| :: sp[s][i].frame
    {
      assert ow[f] == DataOf(s);
      assert Records(sp[s], f);
    }
    forall i | 0 <= i < |sp[s]|
      ensures sp[s][i].frame in DataFramesOf(ow, s)
    {
    }
  }
}
