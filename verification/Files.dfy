/** Open files shared between descriptor tables, with reference counts. */
module Files {
  const MAX_FDS: nat := 16
  const FIRST_FD: nat := 3

  const BADF: int := -9
  const NOMEM: int := -12

  datatype Slot = Empty | Console | File(file: nat)

  type Tables = map<int, seq<Slot>>

  /** The descriptor slots of all processes that point to a file. */
  ghost function Refs(tables: Tables, f: nat): set<(int, int)> {
    set p, i | p in tables && 0 <= i < |tables[p]| && tables[p][i] == File(f) :: (p, i)
  }

  ghost predicate Shaped(tables: Tables) {
    forall p :: p in tables ==> |tables[p]| == MAX_FDS
  }

  /** The count of each live file object is the number of slots that point to it, at least one,
      and no slot points to a freed object. */
  ghost predicate Counted(files: map<nat, int>, tables: Tables) {
    && (forall f :: f in files ==> files[f] == |Refs(tables, f)| && 0 < files[f])
    && (forall p, i :: p in tables && 0 <= i < |tables[p]| && tables[p][i].File? ==> tables[p][i].file in files)
  }

  ghost predicate Sound(files: map<nat, int>, tables: Tables) { Shaped(tables) && Counted(files, tables) }

  function WithSlot(tables: Tables, p: int, i: nat, s: Slot): Tables
    requires p in tables && i < |tables[p]|
  {
    tables[p := tables[p][i := s]]
  }

  lemma SlotFilled(tables: Tables, p: int, i: nat, f: nat, g: nat)
    requires p in tables && i < |tables[p]| && !tables[p][i].File?
    ensures Refs(WithSlot(tables, p, i, File(f)), g) == Refs(tables, g) + if g == f then {(p, i)} else {}
    ensures (p, i) !in Refs(tables, g)
  {
    var tables' := WithSlot(tables, p, i, File(f));
    forall q, j
      ensures (q, j) in Refs(tables', g) <==> (q, j) in Refs(tables, g) || (g == f && q == p && j == i)
    {
    }
  }

  lemma SlotEmptied(tables: Tables, p: int, i: nat, s: Slot, g: nat)
    requires p in tables && i < |tables[p]| && !s.File?
    ensures Refs(WithSlot(tables, p, i, s), g) == Refs(tables, g) - {(p, i)}
    ensures (p, i) in Refs(tables, g) <==> tables[p][i] == File(g)
  {
    var tables' := WithSlot(tables, p, i, s);
    forall q, j
      ensures (q, j) in Refs(tables', g) <==> (q, j) in Refs(tables, g) && !(q == p && j == i)
    {
    }
  }

  /** One more reference. */
  lemma Gained(files: map<nat, int>, tables: Tables, p: int, i: nat, f: nat, n: int)
    requires Sound(files, tables) && p in tables && i < |tables[p]| && !tables[p][i].File?
    requires n == if f in files then files[f] + 1 else 1
    ensures Sound(files[f := n], WithSlot(tables, p, i, File(f)))
  {
    hide Refs;
    var files', tables' := files[f := n], WithSlot(tables, p, i, File(f));
    forall g | g in files'
      ensures files'[g] == |Refs(tables', g)| && 0 < files'[g]
    {
      SlotFilled(tables, p, i, f, g);
      if g == f && f !in files {
        NoRefs(files, tables, f);
      }
    }
  }

  lemma NoRefs(files: map<nat, int>, tables: Tables, f: nat)
    requires Sound(files, tables) && f !in files
    ensures Refs(tables, f) == {}
  {
  }

  /** The file table after one reference to `f` went. */
  function Lowered(files: map<nat, int>, f: nat): map<nat, int>
    requires f in files
  {
    if files[f] - 1 <= 0 then files - {f} else files[f := files[f] - 1]
  }

  lemma Lost(files: map<nat, int>, tables: Tables, p: int, i: nat)
    requires Sound(files, tables) && p in tables && i < |tables[p]| && tables[p][i].File?
    ensures tables[p][i].file in files
    ensures Sound(Lowered(files, tables[p][i].file), WithSlot(tables, p, i, Empty))
    ensures tables[p][i].file in Lowered(files, tables[p][i].file) <==> Refs(WithSlot(tables, p, i, Empty), tables[p][i].file) != {}
  {
    hide Refs;
    var f := tables[p][i].file;
    var files', tables' := Lowered(files, f), WithSlot(tables, p, i, Empty);
    SlotEmptied(tables, p, i, Empty, f);
    forall g | g in files'
      ensures files'[g] == |Refs(tables', g)| && 0 < files'[g]
    {
      SlotEmptied(tables, p, i, Empty, g);
    }
    forall q, j | q in tables' && 0 <= j < |tables'[q]| && tables'[q][j].File?
      ensures tables'[q][j].file in files'
    {
      assert tables[q][j] == tables'[q][j];
      if tables[q][j].file == f {
        StillThere(tables', q, j, f);
      }
    }
  }

  lemma StillThere(tables: Tables, q: int, j: int, f: nat)
    requires q in tables && 0 <= j < |tables[q]| && tables[q][j] == File(f)
    ensures (q, j) in Refs(tables, f) && |Refs(tables, f)| > 0
  {
  }

  lemma TableAdded(files: map<nat, int>, tables: Tables, c: int, slots: seq<Slot>)
    requires Sound(files, tables) && |slots| == MAX_FDS && (forall i :: 0 <= i < |slots| ==> !slots[i].File?)
    requires c in tables ==> forall i :: 0 <= i < |tables[c]| ==> !tables[c][i].File?
    ensures Sound(files, tables[c := slots])
  {
    forall f
      ensures Refs(tables[c := slots], f) == Refs(tables, f)
    {
    }
  }

  lemma TableDropped(files: map<nat, int>, tables: Tables, c: int)
    requires Sound(files, tables) && c in tables && forall i :: 0 <= i < |tables[c]| ==> !tables[c][i].File?
    ensures Sound(files, tables - {c})
  {
    var tables' := tables - {c};
    forall f
      ensures Refs(tables', f) == Refs(tables, f)
    {
      forall q, j
        ensures (q, j) in Refs(tables', f) <==> (q, j) in Refs(tables, f)
      {
      }
    }
  }

  class Descriptors {
    var files: map<nat, int>       // live file objects and their counts
    var tables: Tables

    ghost predicate Valid()
      reads this
    {
      Sound(files, tables)
    }

    constructor ()
      ensures Valid() && files == map[] && tables == map[]
    {
      files, tables := map[], map[];
    }

    /** The descriptor part of `process_alloc`: the console on 0, 1 and 2. */
    method NewTable(p: int)
      requires Valid() && p !in tables
      modifies this
      ensures Valid() && files == old(files) && p in tables && tables == old(tables)[p := tables[p]]
      ensures forall i :: 0 <= i < MAX_FDS ==> tables[p][i] == if i < FIRST_FD then Console else Empty
    {
      var slots := seq(MAX_FDS, i => if i < FIRST_FD then Console else Empty);
      TableAdded(files, tables, p, slots);
      tables := tables[p := slots];
    }

    /** `sys_vfs_open` once the path is resolved: `f` is the object the allocator returned, if any.
        Without a free slot the object is freed again. */
    method Open(p: int, f: nat, memOk: bool) returns (fd: int)
      requires Valid() && p in tables && f !in files
      modifies this
      ensures Valid()
      ensures fd < 0 ==> fd == NOMEM && files == old(files) && tables == old(tables)
      ensures fd < 0 <==> !memOk || forall i :: FIRST_FD <= i < MAX_FDS ==> old(tables)[p][i] != Empty
      ensures fd >= 0 ==>
                && FIRST_FD <= fd < MAX_FDS && old(tables)[p][fd] == Empty && (forall j :: FIRST_FD <= j < fd ==> old(tables)[p][j] != Empty)
                && files == old(files)[f := 1] && tables == old(tables)[p := old(tables)[p][fd := File(f)]]
    {
      hide Counted;
      if !memOk {
        return NOMEM;
      }
      for i := FIRST_FD to MAX_FDS
        invariant Valid() && files == old(files) && tables == old(tables)
        invariant forall j :: FIRST_FD <= j < i ==> tables[p][j] != Empty
      {
        if tables[p][i] == Empty {
          Gained(files, tables, p, i, f, 1);
          files := files[f := 1];
          tables := WithSlot(tables, p, i, File(f));
          return i;
        }
      }
      return NOMEM;
    }

    /** `sys_vfs_close`: the object is freed exactly when its last slot goes. */
    method Close(p: int, fd: int) returns (r: int)
      requires Valid() && p in tables
      modifies this
      ensures Valid()
      ensures r == if 0 <= fd < MAX_FDS && old(tables)[p][fd].File? then 0 else BADF
      ensures r != 0 ==> files == old(files) && tables == old(tables)
      ensures r == 0 ==>
                var f := old(tables)[p][fd].file;
                && tables == old(tables)[p := old(tables)[p][fd := Empty]]
                && (f in files <==> Refs(tables, f) != {})
                && forall g :: g != f ==> (g in files <==> g in old(files)) && (g in files ==> files[g] == old(files)[g])
    {
      hide Counted, Refs;
      if fd < 0 || fd >= MAX_FDS || !tables[p][fd].File? {
        return BADF;
      }
      Drop(p, fd);
      return 0;
    }

    method Drop(p: int, fd: nat)
      requires Valid() && p in tables && fd < MAX_FDS && tables[p][fd].File?
      modifies this
      ensures Valid() && old(tables)[p][fd].file in old(files)
      ensures files == Lowered(old(files), old(tables)[p][fd].file) && tables == WithSlot(old(tables), p, fd, Empty)
      ensures old(tables)[p][fd].file in files <==> Refs(tables, old(tables)[p][fd].file) != {}
    {
      hide Counted, Refs;
      var f := tables[p][fd].file;
      Lost(files, tables, p, fd);
      files := Lowered(files, f);
      tables := WithSlot(tables, p, fd, Empty);
    }

    /** `vfs_close_process_fds`. */
    method CloseAll(p: int)
      requires Valid() && p in tables
      modifies this
      ensures Valid() && p in tables && tables == old(tables)[p := tables[p]]
      ensures forall i :: 0 <= i < MAX_FDS ==> tables[p][i] == if old(tables)[p][i].File? then Empty else old(tables)[p][i]
    {
      hide Counted, Refs;
      for fd := 0 to MAX_FDS
        invariant Valid() && p in tables && tables == old(tables)[p := tables[p]]
        invariant forall i :: 0 <= i < MAX_FDS ==> tables[p][i] == if i < fd && old(tables)[p][i].File? then Empty else old(tables)[p][i]
      {
        if tables[p][fd].File? {
          Drop(p, fd);
        }
      }
    }

    /** The descriptor part of fork: the child shares every open file; when the fork fails later
        on, all of it is undone. */
    method Fork(p: int, c: int, ok: bool)
      requires Valid() && p in tables && c !in tables
      modifies this
      ensures Valid()
      ensures ok ==> tables == old(tables)[c := old(tables)[p]]
      ensures !ok ==> tables == old(tables) && files == old(files)
    {
      hide Counted, Refs;
      NewTable(c);
      for fd := 0 to MAX_FDS
        invariant Valid() && c in tables && tables == old(tables)[c := tables[c]]
        invariant forall i :: 0 <= i < MAX_FDS ==> tables[c][i] == if i < fd then old(tables)[p][i] else if i < FIRST_FD then Console else Empty
        invariant files.Keys == old(files).Keys
      {
        var s := tables[p][fd];
        if s.File? {
          Known(files, tables, p, fd);
          Gained(files, tables, c, fd, s.file, files[s.file] + 1);
          files := files[s.file := files[s.file] + 1];
          tables := WithSlot(tables, c, fd, s);
        } else {
          Replaced(files, tables, c, fd, s);
          tables := WithSlot(tables, c, fd, s);
        }
      }
      if ok {
        assert tables[c] == old(tables)[p];
      } else {
        CloseAll(c);
        TableDropped(files, tables, c);
        tables := tables - {c};
        SameKeys(old(files), old(tables), files, tables);
      }
    }

    /** Exit closes all files; the table goes when the process is reaped. */
    method Destroy(p: int)
      requires Valid() && p in tables
      modifies this
      ensures Valid() && tables == old(tables) - {p}
    {
      hide Counted, Refs;
      CloseAll(p);
      TableDropped(files, tables, p);
      tables := tables - {p};
    }
  }

  lemma Known(files: map<nat, int>, tables: Tables, p: int, i: nat)
    requires Sound(files, tables) && p in tables && i < |tables[p]| && tables[p][i].File?
    ensures tables[p][i].file in files
  {
  }

  lemma Replaced(files: map<nat, int>, tables: Tables, p: int, i: nat, s: Slot)
    requires Sound(files, tables) && p in tables && i < |tables[p]| && !tables[p][i].File? && !s.File?
    ensures Sound(files, WithSlot(tables, p, i, s))
  {
    hide Refs;
    forall g | g in files
      ensures Refs(WithSlot(tables, p, i, s), g) == Refs(tables, g)
    {
      SlotEmptied(tables, p, i, s, g);
    }
  }

  /** The live objects are determined by the tables. */
  lemma SameKeys(files: map<nat, int>, tables: Tables, files': map<nat, int>, tables': Tables)
    requires Sound(files, tables) && Sound(files', tables') && tables' == tables
    ensures files' == files
  {
    forall f
      ensures f in files <==> f in files'
    {
      if f in files && f !in files' {
        NoRefs(files', tables, f);
      }
      if f in files' && f !in files {
        NoRefs(files, tables, f);
      }
    }
  }

  // -----------------------------------------------------------------------------
  // Whole runs

  datatype Event = Start(p: int) | Open(p: int, f: nat, memOk: bool) | Close(p: int, fd: int) | Fork(p: int, c: int, ok: bool)
                 | Exit(p: int) | Reap(p: int)

  function NewSlots(): (t: seq<Slot>)
    ensures |t| == MAX_FDS
  {
    seq(MAX_FDS, i => if i < FIRST_FD then Console else Empty)
  }

  function Closed(t: seq<Slot>): (r: seq<Slot>)
    ensures |r| == |t|
  {
    seq(|t|, i requires 0 <= i < |t| => if t[i].File? then Empty else t[i])
  }

  /** The first empty slot for a file is `i`. */
  ghost predicate FirstEmpty(t: seq<Slot>, i: nat) {
    FIRST_FD <= i < |t| && t[i] == Empty && forall j :: FIRST_FD <= j < i ==> t[j] != Empty
  }

  /** What each event does to the tables; the objects follow from them.  Events that name no table, or
      an object in use, are refused. */
  ghost predicate Step(e: Event, files: map<nat, int>, a: Tables, b: Tables, r: int) {
    match e
    case Start(p) => b == if p in a then a else a[p := NewSlots()]
    case Open(p, f, memOk) =>
      if p in a && f !in files && memOk && |a[p]| == MAX_FDS && exists i :: FIRST_FD <= i < MAX_FDS && a[p][i] == Empty
      then r >= 0 && FirstEmpty(a[p], r) && b == a[p := a[p][r := File(f)]]
      else r < 0 && b == a
    case Close(p, fd) =>
      if p in a && 0 <= fd < |a[p]| && a[p][fd].File? then r == 0 && b == a[p := a[p][fd := Empty]] else r < 0 && b == a
    case Fork(p, c, ok) => b == if p in a && c !in a && ok then a[c := a[p]] else a
    case Exit(p) => b == if p in a then a[p := Closed(a[p])] else a
    case Reap(p) => b == if p in a then a - {p} else a
  }

  method Serve(d: Descriptors, e: Event) returns (r: int)
    requires d.Valid()
    modifies d
    ensures d.Valid() && Step(e, old(d.files), old(d.tables), d.tables, r)
  {
    hide Refs, Counted;
    r := -1;
    match e
    case Start(p) =>
      if p !in d.tables {
        d.NewTable(p);
        assert d.tables[p] == NewSlots();
      }
    case Open(p, f, memOk) =>
      if p in d.tables && f !in d.files {
        r := d.Open(p, f, memOk);
      }
    case Close(p, fd) =>
      if p in d.tables {
        r := d.Close(p, fd);
      }
    case Fork(p, c, ok) =>
      if p in d.tables && c !in d.tables {
        d.Fork(p, c, ok);
      }
    case Exit(p) =>
      if p in d.tables {
        d.CloseAll(p);
        assert d.tables[p] == Closed(old(d.tables)[p]);
      }
    case Reap(p) =>
      if p in d.tables {
        d.Destroy(p);
      }
  }

  datatype State = State(files: map<nat, int>, tables: Tables)

  /** Every object lives exactly as long as some descriptor points to it, and its count is the number
      of those descriptors. */
  ghost predicate Exact(a: State) {
    && (forall f :: f in a.files <==> Refs(a.tables, f) != {})
    && (forall f :: f in a.files ==> a.files[f] == |Refs(a.tables, f)|)
  }

  lemma ExactIs(files: map<nat, int>, tables: Tables)
    requires Sound(files, tables)
    ensures Exact(State(files, tables))
  {
    hide Refs;
    forall f
      ensures f in files <==> Refs(tables, f) != {}
    {
      if f !in files {
        NoRefs(files, tables, f);
      }
    }
  }

  /** Any run is a chain of steps, and in each state the counts are exact.  `trace[i]` is the state
      before event `i`. */
  method Run(d: Descriptors, events: seq<Event>) returns (results: seq<int>, ghost trace: seq<State>)
    requires d.Valid()
    modifies d
    ensures d.Valid() && |results| == |events| && |trace| == |events| + 1
    ensures trace[0] == State(old(d.files), old(d.tables)) && trace[|events|] == State(d.files, d.tables)
    ensures forall i :: 0 <= i <= |events| ==> Exact(trace[i])
    ensures forall i :: 0 <= i < |events| ==> Step(events[i], trace[i].files, trace[i].tables, trace[i + 1].tables, results[i])
  {
    hide Refs, Counted, Step, Exact;
    results, trace := [], [State(d.files, d.tables)];
    ExactIs(d.files, d.tables);
    for i := 0 to |events|
      invariant d.Valid() && |results| == i && |trace| == i + 1
      invariant trace[0] == State(old(d.files), old(d.tables)) && trace[i] == State(d.files, d.tables)
      invariant forall j :: 0 <= j <= i ==> Exact(trace[j])
      invariant forall j :: 0 <= j < i ==> Step(events[j], trace[j].files, trace[j].tables, trace[j + 1].tables, results[j])
    {
      var r := Serve(d, events[i]);
      ExactIs(d.files, d.tables);
      results, trace := results + [r], trace + [State(d.files, d.tables)];
    }
  }
}
