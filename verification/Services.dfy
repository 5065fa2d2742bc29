/** The endpoint registry, the handle tables and the service names of all processes. */
module Services {
  import opened Common
  import M = Mailbox

  const MAX_ENDPOINTS: nat := 1024
  const MAX_SERVICES: nat := 64
  const MAX_HANDLES: nat := 64
  const NAME_LEN: nat := 32
  const MAX_DATA: nat := 512 - 16

  const NOMEM: int := -12
  const BADF: int := -9
  const INVAL: int := -22
  const NOENT: int := -2
  const CONFLICT: int := -1

  /** A registry row; a released row is not live.  The queue is the FIFO the endpoint's circular
      buffer stands for. */
  datatype Row = Row(live: bool, owner: int, id: nat, closed: bool, queue: seq<M.Message>)

  /** A service entry; the empty name marks a free slot. */
  datatype Service = Service(name: string, owner: int, id: nat)

  datatype Handle = Handle(used: bool, pid: int, id: nat)

  const NO_HANDLE := Handle(false, 0, 0)

  function EmptyTable(): (t: seq<Handle>)
    ensures |t| == MAX_HANDLES
  {
    seq(MAX_HANDLES, _ => NO_HANDLE)
  }

  /** The tables after a lazy allocation for process `p`. */
  function Tabled(handles: map<int, seq<Handle>>, p: int, memOk: bool): map<int, seq<Handle>> {
    if p in handles || !memOk then handles else handles[p := EmptyTable()]
  }

  /** Process `p` has a table with a free handle. */
  ghost predicate HandleLeft(handles: map<int, seq<Handle>>, p: int) {
    p in handles && exists j :: 0 <= j < |handles[p]| && !handles[p][j].used
  }

  /** The lowest free handle `r` of `p` now names endpoint `id` of process `pid`. */
  ghost predicate Minted(handles: map<int, seq<Handle>>, handles': map<int, seq<Handle>>, p: int, r: int, pid: int, id: nat) {
    && p in handles && 0 <= r < |handles[p]| && !handles[p][r].used && (forall j :: 0 <= j < r ==> handles[p][j].used)
    && handles' == handles[p := handles[p][r := Handle(true, pid, id)]]
  }

  predicate Names(row: Row, owner: int, id: nat) { row.live && row.owner == owner && row.id == id }

  /** Row `i` is the one a lookup returns: the first that bears the name. */
  ghost predicate IsFirst(rows: seq<Row>, owner: int, id: nat, i: nat) {
    i < |rows| && Names(rows[i], owner, id) && forall j :: 0 <= j < i ==> !Names(rows[j], owner, id)
  }

  ghost predicate Resolves(rows: seq<Row>, owner: int, id: nat) {
    exists i :: 0 <= i < |rows| && Names(rows[i], owner, id)
  }

  // -----------------------------------------------------------------------------
  // The invariant

  /** Live endpoints belong to living processes. */
  ghost predicate RowsOwned(rows: seq<Row>, alive: set<int>) {
    forall i :: 0 <= i < |rows| && rows[i].live ==> rows[i].owner in alive
  }

  ghost predicate QueuesBounded(rows: seq<Row>) {
    forall i :: 0 <= i < |rows| ==> |rows[i].queue| <= M.DEPTH
  }

  /** Live service names are pairwise distinct. */
  ghost predicate NamesDistinct(svcs: seq<Service>) {
    forall i, j :: 0 <= i < j < |svcs| && svcs[i].name != "" ==> svcs[i].name != svcs[j].name
  }

  /** Every live name leads to an endpoint of a living process. */
  ghost predicate NamesResolve(svcs: seq<Service>, rows: seq<Row>, alive: set<int>) {
    forall i :: 0 <= i < |svcs| && svcs[i].name != "" ==> svcs[i].owner in alive && Resolves(rows, svcs[i].owner, svcs[i].id)
  }

  ghost predicate TablesShaped(handles: map<int, seq<Handle>>) {
    forall p :: p in handles ==> |handles[p]| == MAX_HANDLES
  }

  class Ipc {
    var rows: seq<Row>
    var services: seq<Service>
    var handles: map<int, seq<Handle>>     // the tables allocated so far
    var alive: set<int>                    // processes that have not exited
    ghost var dead: set<int>
    var nextPid: int

    ghost predicate Valid()
      reads this
    {
      && |rows| <= MAX_ENDPOINTS && |services| <= MAX_SERVICES && TablesShaped(handles)
      && RowsOwned(rows, alive) && QueuesBounded(rows)
      && NamesDistinct(services) && NamesResolve(services, rows, alive)
      && alive !! dead && (forall p :: p in alive || p in dead ==> p < nextPid)
    }

    constructor ()
      ensures Valid() && alive == {0} && dead == {} && rows == [] && services == [] && handles == map[]
    {
      rows, services, handles := [], [], map[];
      alive, dead, nextPid := {0}, {}, 1;
    }

    /** `ipc_endpoint_lookup`. */
    method Lookup(owner: int, id: nat) returns (r: Option<nat>)
      ensures r.Some? ==> IsFirst(rows, owner, id, r.value)
      ensures r.None? <==> !Resolves(rows, owner, id)
    {
      for i := 0 to |rows|
        invariant forall j :: 0 <= j < i ==> !Names(rows[j], owner, id)
      {
        if Names(rows[i], owner, id) {
          return Some(i);
        }
      }
      return None;
    }

    /** `svc_find_name`. */
    method FindName(name: string) returns (r: Option<nat>)
      ensures r.Some? ==> r.value < |services| && services[r.value].name == name && name != ""
      ensures r.None? ==> forall i :: 0 <= i < |services| && services[i].name != "" ==> services[i].name != name
    {
      for i := 0 to |services|
        invariant forall j :: 0 <= j < i && services[j].name != "" ==> services[j].name != name
      {
        if services[i].name != "" && services[i].name == name {
          return Some(i);
        }
      }
      return None;
    }

    /** The handle table of a process, allocated on first use. */
    method EnsureTable(p: int, memOk: bool) returns (ok: bool)
      requires Valid()
      modifies this`handles
      ensures Valid() && (ok <==> p in handles) && handles == Tabled(old(handles), p, memOk)
    {
      if p !in handles {
        if !memOk {
          return false;
        }
        handles := handles[p := EmptyTable()];
      }
      return true;
    }

    /** The first free handle of a table. */
    method FreeHandle(p: int) returns (r: Option<nat>)
      requires p in handles
      ensures r.Some? ==> r.value < |handles[p]| && !handles[p][r.value].used && forall j :: 0 <= j < r.value ==> handles[p][j].used
      ensures r.None? ==> forall j :: 0 <= j < |handles[p]| ==> handles[p][j].used
    {
      for i := 0 to |handles[p]|
        invariant forall j :: 0 <= j < i ==> handles[p][j].used
      {
        if !handles[p][i].used {
          return Some(i);
        }
      }
      return None;
    }

    /** `ipc_endpoint_register`: the first released row, or a new one at the end. */
    method RegisterRow(row: Row) returns (r: Option<nat>)
      requires Valid() && row.live && row.owner in alive && row.queue == []
      modifies this`rows
      ensures Valid()
      ensures r.None? <==> |old(rows)| == MAX_ENDPOINTS && forall j :: 0 <= j < |old(rows)| ==> old(rows)[j].live
      ensures r.None? ==> rows == old(rows)
      ensures r.Some? ==> Placed(old(rows), rows, r.value, row)
    {
      hide NamesDistinct;
      var i := 0;
      while i < |rows| && rows[i].live
        invariant i <= |rows| && forall j :: 0 <= j < i ==> rows[j].live
      {
        i := i + 1;
      }
      if i == |rows| && i >= MAX_ENDPOINTS {
        return None;
      }
      PlacedKeeps(rows, services, alive, i, row);
      rows := if i == |rows| then rows + [row] else rows[i := row];
      return Some(i);
    }

    /** `sys_ipc_endpoint_create`: the id of the endpoint is the number of its handle, the lowest
        free one.  The handle leads to the new endpoint exactly when no endpoint of the same name
        stands before the first released row. */
    method Create(p: int, tableOk: bool, endpointOk: bool) returns (r: int)
      requires Valid() && p in alive
      modifies this
      ensures Valid() && Steady()
      ensures services == old(services)
      ensures r >= 0 <==> HandleLeft(Tabled(old(handles), p, tableOk), p) && endpointOk && RowLeft(old(rows))
      ensures r < 0 ==> r == NOMEM && rows == old(rows) && handles == Tabled(old(handles), p, tableOk)
      ensures r >= 0 ==>
                && Minted(Tabled(old(handles), p, tableOk), handles, p, r, p, r)
                && exists i :: 0 <= i < |rows| && Placed(old(rows), rows, i, Row(true, p, r, false, []))
                               && (IsFirst(rows, p, r, i) <==> !Shadowed(old(rows), p, r))
    {
      hide NamesDistinct, NamesResolve, RowsOwned, QueuesBounded;
      var ok := EnsureTable(p, tableOk);
      if !ok {
        return NOMEM;
      }
      var h := FreeHandle(p);
      if h.None? || !endpointOk {
        return NOMEM;
      }
      var i := RegisterRow(Row(true, p, h.value, false, []));
      if i.None? {
        return NOMEM;
      }
      FirstIff(old(rows), rows, i.value, p, h.value);
      handles := handles[p := handles[p][h.value := Handle(true, p, h.value)]];
      return h.value;
    }

    /** `sys_ipc_send`: the message goes to the end of the queue the handle leads to, or nowhere. */
    method Send(p: int, h: int, m: M.Message, tableOk: bool, copyOk: bool) returns (r: int)
      requires Valid() && p in alive
      modifies this
      ensures Valid() && Steady() && services == old(services)
      ensures r != 0 ==> r < 0 && rows == old(rows)
      ensures handles == Tabled(old(handles), p, tableOk)
      ensures r == 0 <==> Deliverable(old(rows), old(handles), p, h) && |m.data| <= MAX_DATA && (m.data == [] || copyOk)
      ensures r == 0 ==> Target(old(handles), p, h).Some? && exists i :: Delivered(old(rows), rows, i, Target(old(handles), p, h).value, m)
      ensures AimsAtDead(old(handles), p, h, dead) ==> r < 0
    {
      hide NamesDistinct, NamesResolve, RowsOwned, QueuesBounded, Delivered;
      var ok := EnsureTable(p, tableOk);
      if !ok {
        return NOMEM;
      }
      SameTarget(old(handles), p, tableOk, h);
      if h < 0 || h >= MAX_HANDLES {
        return BADF;
      }
      if |m.data| > MAX_DATA {
        return INVAL;
      }
      var e := handles[p][h];
      if !e.used {
        return BADF;
      }
      var row := Lookup(e.pid, e.id);
      if row.None? {
        return BADF;
      }
      LiveTarget(rows, alive, dead, e.pid, e.id);
      OneFirst(rows, e.pid, e.id, row.value);
      if |m.data| > 0 && !copyOk {
        return FAULT;
      }
      var ep := rows[row.value];
      if |ep.queue| >= M.DEPTH {
        return NOMEM;
      }
      if ep.closed {
        return BADF;
      }
      RowChanged(rows, services, alive, row.value, ep.(queue := ep.queue + [m]));
      rows := rows[row.value := ep.(queue := ep.queue + [m])];
      assert Delivered(old(rows), rows, row.value, Target(old(handles), p, h).value, m) by { DeliveredIs(old(rows), row.value, e, m); }
      return 0;
    }

    /** `sys_ipc_recv`: the oldest message of the queue, which is gone even when it cannot be copied
        out; nothing when the queue is empty. */
    method Receive(p: int, h: int, maxLen: nat, tableOk: bool, copyOk: bool) returns (r: int, m: Option<M.Message>)
      requires Valid() && p in alive
      modifies this
      ensures Valid() && Steady() && services == old(services)
      ensures handles == Tabled(old(handles), p, tableOk)
      ensures m.Some? <==> Waiting(old(rows), old(handles), p, h)
      ensures m.None? ==> rows == old(rows) && (if Reached(old(rows), old(handles), p, h) then r == 0 else r < 0)
      ensures m.Some? ==>
                && Target(old(handles), p, h).Some?
                && (exists i :: Taken(old(rows), rows, i, Target(old(handles), p, h).value, m.value))
                && r == Received(m.value, maxLen, copyOk)
      ensures AimsAtDead(old(handles), p, h, dead) ==> r < 0
    {
      hide NamesDistinct, NamesResolve, RowsOwned, Taken;
      m := None;
      var ok := EnsureTable(p, tableOk);
      if !ok {
        return NOMEM, m;
      }
      SameTarget(old(handles), p, tableOk, h);
      if h < 0 || h >= MAX_HANDLES {
        return BADF, m;
      }
      var e := handles[p][h];
      if !e.used {
        return BADF, m;
      }
      var row := Lookup(e.pid, e.id);
      if row.None? {
        return BADF, m;
      }
      LiveTarget(rows, alive, dead, e.pid, e.id);
      OneFirst(rows, e.pid, e.id, row.value);
      var ep := rows[row.value];
      if |ep.queue| == 0 {
        return 0, m;
      }
      m := Some(ep.queue[0]);
      RowChanged(rows, services, alive, row.value, ep.(queue := ep.queue[1..]));
      rows := rows[row.value := ep.(queue := ep.queue[1..])];
      assert Taken(old(rows), rows, row.value, Target(old(handles), p, h).value, m.value) by { TakenIs(old(rows), row.value, e); }
      if !copyOk {
        return FAULT, m;
      }
      var len := |m.value.data|;
      if len > maxLen {
        len := maxLen;
      }
      return len, m;
    }

    /** `sys_ipc_connect`. */
    method Connect(p: int, pid: int, id: nat, tableOk: bool) returns (r: int)
      requires Valid() && p in alive
      modifies this
      ensures Valid() && Steady() && services == old(services) && rows == old(rows)
      ensures pid in dead ==> r < 0
      ensures r >= 0 <==> FirstOpen(rows, pid, id) && HandleLeft(Tabled(old(handles), p, tableOk), p)
      ensures r >= 0 ==> Minted(Tabled(old(handles), p, tableOk), handles, p, r, pid, id)
      ensures r < 0 ==> handles == if FirstOpen(rows, pid, id) then Tabled(old(handles), p, tableOk) else old(handles)
    {
      hide NamesDistinct, NamesResolve, QueuesBounded;
      var row := Lookup(pid, id);
      if row.Some? {
        OneFirst(rows, pid, id, row.value);
      }
      if row.None? || rows[row.value].closed {
        return BADF;
      }
      LiveTarget(rows, alive, dead, pid, id);
      r := Mint(p, pid, id, tableOk);
    }

    /** A new handle of process `p` for endpoint `id` of process `pid`. */
    method Mint(p: int, pid: int, id: nat, tableOk: bool) returns (r: int)
      requires Valid()
      modifies this`handles
      ensures Valid()
      ensures r >= 0 <==> HandleLeft(Tabled(old(handles), p, tableOk), p)
      ensures r < 0 ==> r == NOMEM && handles == Tabled(old(handles), p, tableOk)
      ensures r >= 0 ==> Minted(Tabled(old(handles), p, tableOk), handles, p, r, pid, id)
    {
      hide NamesDistinct, NamesResolve, RowsOwned, QueuesBounded;
      var ok := EnsureTable(p, tableOk);
      if !ok {
        return NOMEM;
      }
      var h := FreeHandle(p);
      if h.None? {
        return NOMEM;
      }
      handles := handles[p := handles[p][h.value := Handle(true, pid, id)]];
      return h.value;
    }

    /** `svc_on_endpoint_close`: drops the first name of the endpoint. */
    method OnClose(owner: int, id: nat)
      requires Valid()
      modifies this`services
      ensures Valid()
      ensures ForgotFirst(old(services), services, owner, id)
    {
      hide RowsOwned, QueuesBounded, NamesResolve;
      for i := 0 to |services|
        invariant services == old(services) && Valid() && forall j :: 0 <= j < i ==> !Points(services[j], owner, id)
      {
        if Points(services[i], owner, id) {
          ForgetKeeps(services, rows, alive, i);
          services := services[i := services[i].(name := "")];
          return;
        }
      }
    }

    /** `sys_ipc_close`: an endpoint of our own is closed, and loses its first service name. */
    method Close(p: int, h: int, tableOk: bool) returns (r: int)
      requires Valid() && p in alive
      modifies this
      ensures Valid() && Steady()
      ensures r == 0 <==> Target(old(handles), p, h).Some?
      ensures r != 0 ==> r < 0 && rows == old(rows) && services == old(services) && handles == Tabled(old(handles), p, tableOk)
      ensures r == 0 ==> handles == old(handles)[p := old(handles)[p][h := old(handles)[p][h].(used := false)]]
      ensures r == 0 ==>
                var (pid, id) := Target(old(handles), p, h).value;
                if pid == p && Resolves(old(rows), p, id)
                then ForgotFirst(old(services), services, p, id) && exists i: nat :: IsFirst(old(rows), p, id, i) && rows == old(rows)[i := old(rows)[i].(closed := true)]
                else services == old(services) && rows == old(rows)
    {
      hide NamesDistinct, NamesResolve, RowsOwned, ForgotFirst;
      var ok := EnsureTable(p, tableOk);
      if !ok {
        return NOMEM;
      }
      SameTarget(old(handles), p, tableOk, h);
      if h < 0 || h >= MAX_HANDLES {
        return BADF;
      }
      var e := handles[p][h];
      if !e.used {
        return BADF;
      }
      var row := Lookup(e.pid, e.id);
      if row.Some? && rows[row.value].owner == p {
        RowChanged(rows, services, alive, row.value, rows[row.value].(closed := true));
        rows := rows[row.value := rows[row.value].(closed := true)];
        OnClose(p, e.id);
      }
      handles := handles[p := handles[p][h := handles[p][h].(used := false)]];
      return 0;
    }

    /** `svc_check_endpoint`: a handle for a registered endpoint of our own. */
    method OwnEndpoint(p: int, h: int) returns (ok: bool)
      requires Valid()
      ensures ok <==> Target(handles, p, h).Some? && Target(handles, p, h).value.0 == p && Resolves(rows, p, Target(handles, p, h).value.1)
    {
      hide NamesDistinct, NamesResolve, RowsOwned, QueuesBounded;
      if h < 0 || h >= MAX_HANDLES || p !in handles {
        return false;
      }
      var e := handles[p][h];
      if !e.used || e.pid != p {
        return false;
      }
      var row := Lookup(p, e.id);
      return row.Some?;
    }

    /** `sys_sr_register`. */
    method Register(p: int, name: string, h: int) returns (r: int)
      requires Valid() && p in alive
      modifies this`services
      ensures Valid()
      ensures r != 0 ==> r < 0 && services == old(services)
      ensures r == 0 <==> Registrable(rows, old(services), handles, p, name, h)
      ensures r == 0 ==> exists i: nat :: Added(old(services), services, i, Service(name, p, Target(handles, p, h).value.1))
    {
      hide RowsOwned, QueuesBounded, NamesResolve, NamesDistinct;
      if |name| == 0 || |name| >= NAME_LEN {
        return INVAL;
      }
      var own := OwnEndpoint(p, h);
      if !own {
        return BADF;
      }
      var taken := FindName(name);
      if taken.Some? {
        return CONFLICT;
      }
      var i := 0;
      while i < |services| && services[i].name != ""
        invariant i <= |services| && forall j :: 0 <= j < i ==> services[j].name != ""
      {
        i := i + 1;
      }
      if i == |services| && i >= MAX_SERVICES {
        return NOMEM;
      }
      var entry := Service(name, p, handles[p][h].id);
      NamedKeeps(services, rows, alive, i, entry);
      services := if i == |services| then services + [entry] else services[i := entry];
      assert Added(old(services), services, i, entry);
      return 0;
    }

    /** `sys_sr_unregister`: only for the process that registered the name. */
    method Unregister(p: int, name: string, h: int) returns (r: int)
      requires Valid() && p in alive
      modifies this`services
      ensures Valid()
      ensures r != 0 ==> r < 0 && services == old(services)
      ensures r == 0 <==> Unregistrable(rows, old(services), handles, p, name, h)
      ensures r == 0 ==> forall i :: 0 <= i < |services| ==> services[i].name != name
      ensures r == 0 ==> exists i :: 0 <= i < |old(services)| && old(services)[i].name == name && services == old(services)[i := old(services)[i].(name := "")]
    {
      hide RowsOwned, QueuesBounded, NamesResolve;
      if |name| == 0 || |name| >= NAME_LEN {
        return INVAL;
      }
      var own := OwnEndpoint(p, h);
      if !own {
        return BADF;
      }
      var e := FindName(name);
      if e.None? {
        return NOENT;
      }
      if services[e.value].owner != p {
        return CONFLICT;
      }
      ForgetKeeps(services, rows, alive, e.value);
      services := services[e.value := services[e.value].(name := "")];
      return 0;
    }

    /** `sys_sr_lookup`: a handle to exactly the endpoint registered under the name, whose owner is
        alive. */
    method LookupName(p: int, name: string, tableOk: bool) returns (r: int)
      requires Valid() && p in alive
      modifies this`handles
      ensures Valid()
      ensures r >= 0 <==> |name| < NAME_LEN && Known(services, name) && HandleLeft(Tabled(old(handles), p, tableOk), p)
      ensures r >= 0 ==>
                exists i :: 0 <= i < |services| && services[i].name == name != ""
                            && Minted(Tabled(old(handles), p, tableOk), handles, p, r, services[i].owner, services[i].id)
                            && services[i].owner in alive && Resolves(rows, services[i].owner, services[i].id)
      ensures r < 0 ==> handles == if |name| < NAME_LEN && Known(services, name) then Tabled(old(handles), p, tableOk) else old(handles)
    {
      hide RowsOwned, QueuesBounded, NamesDistinct;
      if |name| == 0 || |name| >= NAME_LEN {
        return INVAL;
      }
      var e := FindName(name);
      if e.None? {
        return NOENT;
      }
      r := Mint(p, services[e.value].owner, services[e.value].id, tableOk);
    }

    /** `ipc_endpoint_unregister_by_owner`. */
    method ReleaseRows(p: int)
      modifies this`rows
      ensures rows == Released(old(rows), p)
    {
      for i := 0 to |rows|
        invariant |rows| == |old(rows)|
        invariant forall j :: 0 <= j < |rows| ==> rows[j] == if j < i then Released(old(rows), p)[j] else old(rows)[j]
      {
        if rows[i].live && rows[i].owner == p {
          rows := rows[i := rows[i].(live := false)];
        }
      }
    }

    /** `svc_cleanup_owner`. */
    method ForgetNames(p: int)
      modifies this`services
      ensures services == Forgotten(old(services), p)
    {
      for i := 0 to |services|
        invariant |services| == |old(services)|
        invariant forall j :: 0 <= j < |services| ==> services[j] == if j < i then Forgotten(old(services), p)[j] else old(services)[j]
      {
        if services[i].owner == p {
          services := services[i := services[i].(name := "")];
        }
      }
    }

    /** The IPC part of process exit. */
    method Exit(p: int)
      requires Valid() && p in alive
      modifies this
      ensures Valid() && alive == old(alive) - {p} && dead == old(dead) + {p} && nextPid == old(nextPid)
      ensures rows == Released(old(rows), p) && services == Forgotten(old(services), p) && handles == old(handles)
    {
      hide RowsOwned, QueuesBounded, NamesDistinct, NamesResolve, Released, Forgotten;
      ExitKeeps(rows, services, alive, p);
      ReleaseRows(p);
      ForgetNames(p);
      alive, dead := alive - {p}, dead + {p};
    }

    /** A new process, with a copy of its parent's handles; process numbers only go up. */
    method Fork(p: int) returns (c: int)
      requires Valid() && p in alive
      modifies this
      ensures Valid() && c == old(nextPid) && nextPid == c + 1 && c !in old(alive) && c !in old(dead) && alive == old(alive) + {c} && dead == old(dead)
      ensures rows == old(rows) && services == old(services)
      ensures handles == if p in old(handles) then old(handles)[c := old(handles)[p]] else old(handles)
    {
      hide QueuesBounded, NamesDistinct, Resolves;
      c := nextPid;
      nextPid := nextPid + 1;
      alive := alive + {c};
      if p in handles {
        handles := handles[c := handles[p]];
      }
    }

    /** `process_destroy` of an exited process drops its handle table. */
    method Destroy(p: int)
      requires Valid() && p in dead
      modifies this`handles
      ensures Valid() && handles == old(handles) - {p}
    {
      hide QueuesBounded, NamesDistinct, NamesResolve, RowsOwned;
      handles := handles - {p};
    }

    /** The living processes, the dead ones and the numbers given out are as before. */
    twostate predicate Steady()
      reads this
    {
      alive == old(alive) && dead == old(dead) && nextPid == old(nextPid)
    }

    ghost function Now(): State
      reads this
    {
      State(rows, services, handles, alive, dead, nextPid)
    }
  }

  /** All of IPC at one moment. */
  datatype State = State(rows: seq<Row>, services: seq<Service>, handles: map<int, seq<Handle>>, alive: set<int>, dead: set<int>, nextPid: int)

  /** `row` was put into place `i`: the first released one, or a new one at the end. */
  ghost predicate Placed(rows: seq<Row>, rows': seq<Row>, i: nat, row: Row) {
    && i <= |rows| && (forall j :: 0 <= j < i ==> rows[j].live)
    && if i == |rows| then rows' == rows + [row] else !rows[i].live && rows' == rows[i := row]
  }

  lemma PlacedKeeps(rows: seq<Row>, svcs: seq<Service>, alive: set<int>, i: nat, row: Row)
    requires RowsOwned(rows, alive) && QueuesBounded(rows) && NamesResolve(svcs, rows, alive)
    requires i <= |rows| && (i < |rows| ==> !rows[i].live) && row.live && row.owner in alive && row.queue == []
    ensures var rows' := if i == |rows| then rows + [row] else rows[i := row];
            RowsOwned(rows', alive) && QueuesBounded(rows') && NamesResolve(svcs, rows', alive)
  {
    var rows' := if i == |rows| then rows + [row] else rows[i := row];
    forall k | 0 <= k < |svcs| && svcs[k].name != ""
      ensures Resolves(rows', svcs[k].owner, svcs[k].id)
    {
      var j :| 0 <= j < |rows| && Names(rows[j], svcs[k].owner, svcs[k].id);
      assert Names(rows'[j], svcs[k].owner, svcs[k].id);
    }
  }

  /** Some live endpoint of that name stands before the first released row. */
  ghost predicate Shadowed(rows: seq<Row>, owner: int, id: nat) {
    exists j :: 0 <= j < |rows| && Names(rows[j], owner, id) && forall k :: 0 <= k < j ==> rows[k].live
  }

  ghost predicate RowLeft(rows: seq<Row>) {
    |rows| < MAX_ENDPOINTS || exists j :: 0 <= j < |rows| && !rows[j].live
  }

  lemma FirstIff(rows: seq<Row>, rows': seq<Row>, i: nat, owner: int, id: nat)
    requires Placed(rows, rows', i, Row(true, owner, id, false, []))
    ensures IsFirst(rows', owner, id, i) <==> !Shadowed(rows, owner, id)
  {
    assert forall j :: 0 <= j < i ==> rows'[j] == rows[j];
    if Shadowed(rows, owner, id) {
      var j :| 0 <= j < |rows| && Names(rows[j], owner, id) && forall k :: 0 <= k < j ==> rows[k].live;
      assert j < i;
    }
  }

  /** The endpoint a lookup finds is open. */
  ghost predicate FirstOpen(rows: seq<Row>, owner: int, id: nat) {
    exists i: nat :: IsFirst(rows, owner, id, i) && !rows[i].closed
  }

  lemma OneFirst(rows: seq<Row>, owner: int, id: nat, i: nat)
    requires IsFirst(rows, owner, id, i)
    ensures forall j: nat :: IsFirst(rows, owner, id, j) ==> j == i
  {
  }

  /** Handle `h` of process `p` leads to an open endpoint with room for a message. */
  ghost predicate Deliverable(rows: seq<Row>, handles: map<int, seq<Handle>>, p: int, h: int) {
    && Target(handles, p, h).Some?
    && exists i: nat :: IsFirst(rows, Target(handles, p, h).value.0, Target(handles, p, h).value.1, i)
                        && !rows[i].closed && |rows[i].queue| < M.DEPTH
  }

  /** Handle `h` of process `p` leads to an endpoint. */
  ghost predicate Reached(rows: seq<Row>, handles: map<int, seq<Handle>>, p: int, h: int) {
    Target(handles, p, h).Some? && Resolves(rows, Target(handles, p, h).value.0, Target(handles, p, h).value.1)
  }

  /** Handle `h` of process `p` leads to an endpoint, open or not, with a message in its queue. */
  ghost predicate Waiting(rows: seq<Row>, handles: map<int, seq<Handle>>, p: int, h: int) {
    && Target(handles, p, h).Some?
    && exists i: nat :: IsFirst(rows, Target(handles, p, h).value.0, Target(handles, p, h).value.1, i) && rows[i].queue != []
  }

  lemma SameTarget(handles: map<int, seq<Handle>>, p: int, memOk: bool, h: int)
    ensures Target(Tabled(handles, p, memOk), p, h) == Target(handles, p, h)
  {
  }

  const FAULT: int := -14

  /** The endpoint handle `h` of process `p` names. */
  function Target(handles: map<int, seq<Handle>>, p: int, h: int): Option<(int, nat)> {
    if p in handles && 0 <= h < |handles[p]| && handles[p][h].used then Some((handles[p][h].pid, handles[p][h].id)) else None
  }

  predicate AimsAtDead(handles: map<int, seq<Handle>>, p: int, h: int, dead: set<int>) {
    Target(handles, p, h).Some? && Target(handles, p, h).value.0 in dead
  }

  ghost predicate Delivered(rows: seq<Row>, rows': seq<Row>, i: nat, target: (int, nat), m: M.Message) {
    && IsFirst(rows, target.0, target.1, i) && !rows[i].closed && |rows[i].queue| < M.DEPTH
    && rows' == rows[i := rows[i].(queue := rows[i].queue + [m])]
  }

  ghost predicate Taken(rows: seq<Row>, rows': seq<Row>, i: nat, target: (int, nat), m: M.Message) {
    && IsFirst(rows, target.0, target.1, i) && rows[i].queue != [] && m == rows[i].queue[0]
    && rows' == rows[i := rows[i].(queue := rows[i].queue[1..])]
  }

  lemma DeliveredIs(rows: seq<Row>, i: nat, e: Handle, m: M.Message)
    requires IsFirst(rows, e.pid, e.id, i) && !rows[i].closed && |rows[i].queue| < M.DEPTH
    ensures Delivered(rows, rows[i := rows[i].(queue := rows[i].queue + [m])], i, (e.pid, e.id), m)
  {
  }

  lemma TakenIs(rows: seq<Row>, i: nat, e: Handle)
    requires IsFirst(rows, e.pid, e.id, i) && rows[i].queue != []
    ensures Taken(rows, rows[i := rows[i].(queue := rows[i].queue[1..])], i, (e.pid, e.id), rows[i].queue[0])
  {
  }

  lemma LiveTarget(rows: seq<Row>, alive: set<int>, dead: set<int>, owner: int, id: nat)
    requires RowsOwned(rows, alive) && alive !! dead && Resolves(rows, owner, id)
    ensures owner in alive && owner !in dead
  {
  }

  /** Nothing of a dead process can be reached, in any state. */
  lemma DeadUnreachable(rows: seq<Row>, svcs: seq<Service>, alive: set<int>, dead: set<int>, d: int, id: nat)
    requires RowsOwned(rows, alive) && NamesResolve(svcs, rows, alive) && alive !! dead && d in dead
    ensures !Resolves(rows, d, id)
    ensures forall i :: 0 <= i < |svcs| && svcs[i].name != "" ==> svcs[i].owner != d
  {
  }

  /** A row that keeps its name may change otherwise. */
  lemma RowChanged(rows: seq<Row>, svcs: seq<Service>, alive: set<int>, i: nat, row: Row)
    requires RowsOwned(rows, alive) && QueuesBounded(rows) && NamesResolve(svcs, rows, alive)
    requires i < |rows| && row.live == rows[i].live && row.owner == rows[i].owner && row.id == rows[i].id && |row.queue| <= M.DEPTH
    ensures RowsOwned(rows[i := row], alive) && QueuesBounded(rows[i := row]) && NamesResolve(svcs, rows[i := row], alive)
  {
    forall k | 0 <= k < |svcs| && svcs[k].name != ""
      ensures Resolves(rows[i := row], svcs[k].owner, svcs[k].id)
    {
      var j :| 0 <= j < |rows| && Names(rows[j], svcs[k].owner, svcs[k].id);
      assert Names(rows[i := row][j], svcs[k].owner, svcs[k].id);
    }
  }

  // -----------------------------------------------------------------------------
  // Names

  predicate Points(e: Service, owner: int, id: nat) { e.name != "" && e.owner == owner && e.id == id }

  /** Some live entry bears the name. */
  ghost predicate Known(svcs: seq<Service>, name: string) {
    exists i :: 0 <= i < |svcs| && svcs[i].name == name && name != ""
  }

  /** The name is proper and new, there is room for it, and the handle names an endpoint of one's
      own; whether that endpoint is closed does not matter. */
  ghost predicate Registrable(rows: seq<Row>, svcs: seq<Service>, handles: map<int, seq<Handle>>, p: int, name: string, h: int) {
    && 0 < |name| < NAME_LEN && !Known(svcs, name)
    && (|svcs| < MAX_SERVICES || exists i :: 0 <= i < |svcs| && svcs[i].name == "")
    && Target(handles, p, h).Some? && Target(handles, p, h).value.0 == p && Resolves(rows, p, Target(handles, p, h).value.1)
  }

  /** The name is registered by the process, which has a handle to some endpoint of its own. */
  ghost predicate Unregistrable(rows: seq<Row>, svcs: seq<Service>, handles: map<int, seq<Handle>>, p: int, name: string, h: int) {
    && 0 < |name| < NAME_LEN && (exists i :: 0 <= i < |svcs| && svcs[i].name == name && svcs[i].owner == p)
    && Target(handles, p, h).Some? && Target(handles, p, h).value.0 == p && Resolves(rows, p, Target(handles, p, h).value.1)
  }

  /** Entry `e` was put into slot `i`: the first free one, or a new one at the end. */
  ghost predicate Added(svcs: seq<Service>, svcs': seq<Service>, i: nat, e: Service) {
    && i <= |svcs| && (forall j :: 0 <= j < i ==> svcs[j].name != "")
    && if i == |svcs| then svcs' == svcs + [e] else svcs[i].name == "" && svcs' == svcs[i := e]
  }

  /** The first entry that points at the endpoint, if any, is free now. */
  ghost predicate ForgotFirst(svcs: seq<Service>, svcs': seq<Service>, owner: int, id: nat) {
    if exists i :: 0 <= i < |svcs| && Points(svcs[i], owner, id)
    then exists i :: 0 <= i < |svcs| && Points(svcs[i], owner, id) && (forall j :: 0 <= j < i ==> !Points(svcs[j], owner, id)) && svcs' == svcs[i := svcs[i].(name := "")]
    else svcs' == svcs
  }

  /** A closed endpoint stays discoverable by name exactly when it had more than one name. */
  lemma StillNamedIff(svcs: seq<Service>, svcs': seq<Service>, owner: int, id: nat)
    requires ForgotFirst(svcs, svcs', owner, id)
    ensures (exists k :: 0 <= k < |svcs'| && Points(svcs'[k], owner, id)) <==>
            (exists i, j :: 0 <= i < j < |svcs| && Points(svcs[i], owner, id) && Points(svcs[j], owner, id))
  {
    if i0 :| 0 <= i0 < |svcs| && Points(svcs[i0], owner, id) {
      var i :| 0 <= i < |svcs| && Points(svcs[i], owner, id) && (forall j :: 0 <= j < i ==> !Points(svcs[j], owner, id)) && svcs' == svcs[i := svcs[i].(name := "")];
      if k :| 0 <= k < |svcs'| && Points(svcs'[k], owner, id) {
        assert k > i && Points(svcs[k], owner, id);
      }
      if a, b :| 0 <= a < b < |svcs| && Points(svcs[a], owner, id) && Points(svcs[b], owner, id) {
        assert Points(svcs'[b], owner, id);
      }
    }
  }

  /** Such an endpoint: registered as "a" and "b", then closed, it is still found as "b". */
  lemma StillNamedExample()
    ensures ForgotFirst([Service("a", 1, 0), Service("b", 1, 0)], [Service("", 1, 0), Service("b", 1, 0)], 1, 0)
    ensures Points(Service("b", 1, 0), 1, 0)
  {
    var svcs := [Service("a", 1, 0), Service("b", 1, 0)];
    assert Points(svcs[0], 1, 0);
    assert svcs[0 := svcs[0].(name := "")] == [Service("", 1, 0), Service("b", 1, 0)];
  }

  lemma ForgetKeeps(svcs: seq<Service>, rows: seq<Row>, alive: set<int>, i: nat)
    requires NamesDistinct(svcs) && NamesResolve(svcs, rows, alive) && i < |svcs|
    ensures NamesDistinct(svcs[i := svcs[i].(name := "")]) && NamesResolve(svcs[i := svcs[i].(name := "")], rows, alive)
  {
    hide Resolves;
  }

  lemma NamedKeeps(svcs: seq<Service>, rows: seq<Row>, alive: set<int>, i: nat, e: Service)
    requires NamesDistinct(svcs) && NamesResolve(svcs, rows, alive) && i <= |svcs| && e.name != "" && e.owner in alive && Resolves(rows, e.owner, e.id)
    requires forall j :: 0 <= j < |svcs| && svcs[j].name != "" ==> svcs[j].name != e.name
    ensures var svcs' := if i == |svcs| then svcs + [e] else svcs[i := e]; NamesDistinct(svcs') && NamesResolve(svcs', rows, alive)
  {
    hide Resolves;
  }

  function Released(rows: seq<Row>, p: int): (r: seq<Row>)
    ensures |r| == |rows|
  {
    seq(|rows|, i requires 0 <= i < |rows| => if rows[i].live && rows[i].owner == p then rows[i].(live := false) else rows[i])
  }

  function Forgotten(svcs: seq<Service>, p: int): (r: seq<Service>)
    ensures |r| == |svcs|
  {
    seq(|svcs|, i requires 0 <= i < |svcs| => if svcs[i].owner == p then svcs[i].(name := "") else svcs[i])
  }

  lemma ExitKeeps(rows: seq<Row>, svcs: seq<Service>, alive: set<int>, p: int)
    requires RowsOwned(rows, alive) && QueuesBounded(rows) && NamesDistinct(svcs) && NamesResolve(svcs, rows, alive)
    ensures RowsOwned(Released(rows, p), alive - {p}) && QueuesBounded(Released(rows, p))
    ensures NamesDistinct(Forgotten(svcs, p)) && NamesResolve(Forgotten(svcs, p), Released(rows, p), alive - {p})
  {
    var rows', svcs' := Released(rows, p), Forgotten(svcs, p);
    forall k | 0 <= k < |svcs'| && svcs'[k].name != ""
      ensures svcs'[k].owner in alive - {p} && Resolves(rows', svcs'[k].owner, svcs'[k].id)
    {
      assert svcs[k].name != "";
      var j :| 0 <= j < |rows| && Names(rows[j], svcs[k].owner, svcs[k].id);
      assert Names(rows'[j], svcs'[k].owner, svcs'[k].id);
    }
  }

  // -----------------------------------------------------------------------------
  // Names of closed endpoints

  /** Every live name leads to an endpoint that is not closed. */
  ghost predicate NamesOpen(svcs: seq<Service>, rows: seq<Row>) {
    forall k, i: nat :: 0 <= k < |svcs| && svcs[k].name != "" && IsFirst(rows, svcs[k].owner, svcs[k].id, i) ==> !rows[i].closed
  }

  ghost predicate TwoNames(svcs: seq<Service>, owner: int, id: nat) {
    exists i, j :: 0 <= i < j < |svcs| && Points(svcs[i], owner, id) && Points(svcs[j], owner, id)
  }

  lemma PlacedOpen(svcs: seq<Service>, rows: seq<Row>, rows': seq<Row>, i: nat, p: int, id: nat)
    requires Placed(rows, rows', i, Row(true, p, id, false, [])) && NamesOpen(svcs, rows)
    ensures NamesOpen(svcs, rows')
  {
    forall k, x: nat | 0 <= k < |svcs| && svcs[k].name != "" && IsFirst(rows', svcs[k].owner, svcs[k].id, x)
      ensures !rows'[x].closed
    {
      if x != i {
        assert rows'[x] == rows[x];
        assert forall j :: 0 <= j < x && j != i ==> rows'[j] == rows[j];
        assert IsFirst(rows, svcs[k].owner, svcs[k].id, x);
      }
    }
  }

  /** A change of one row that keeps its name keeps who is found first. */
  lemma FirstKept(rows: seq<Row>, i: nat, row: Row, owner: int, id: nat, x: nat)
    requires i < |rows| && row.live == rows[i].live && row.owner == rows[i].owner && row.id == rows[i].id
    ensures IsFirst(rows[i := row], owner, id, x) <==> IsFirst(rows, owner, id, x)
  {
    assert forall j :: 0 <= j < |rows| ==> (Names(rows[i := row][j], owner, id) <==> Names(rows[j], owner, id));
  }

  lemma QueueOpen(svcs: seq<Service>, rows: seq<Row>, i: nat, queue: seq<M.Message>)
    requires i < |rows| && NamesOpen(svcs, rows)
    ensures NamesOpen(svcs, rows[i := rows[i].(queue := queue)])
  {
    hide IsFirst;
    var row := rows[i].(queue := queue);
    var rows' := rows[i := row];
    forall k, x: nat | 0 <= k < |svcs| && svcs[k].name != "" && IsFirst(rows', svcs[k].owner, svcs[k].id, x)
      ensures x < |rows| && !rows'[x].closed
    {
      FirstKept(rows, i, row, svcs[k].owner, svcs[k].id, x);
      InRange(rows, svcs[k].owner, svcs[k].id, x);
    }
  }

  lemma InRange(rows: seq<Row>, owner: int, id: nat, x: nat)
    requires IsFirst(rows, owner, id, x)
    ensures x < |rows| && rows[x].owner == owner && rows[x].id == id
  {
  }

  lemma ClosedOpen(svcs: seq<Service>, svcs': seq<Service>, rows: seq<Row>, i: nat, p: int, id: nat)
    requires IsFirst(rows, p, id, i) && NamesOpen(svcs, rows) && ForgotFirst(svcs, svcs', p, id)
    ensures NamesOpen(svcs', rows[i := rows[i].(closed := true)]) <==> !TwoNames(svcs, p, id)
  {
    hide IsFirst, ForgotFirst, Points;
    InRange(rows, p, id, i);
    var row := rows[i].(closed := true);
    var rows' := rows[i := row];
    StillNamedIff(svcs, svcs', p, id);
    FirstKept(rows, i, row, p, id, i);
    if TwoNames(svcs, p, id) {
      var k :| 0 <= k < |svcs'| && Points(svcs'[k], p, id);
      PointsIs(svcs'[k], p, id);
      assert IsFirst(rows', svcs'[k].owner, svcs'[k].id, i) && rows'[i].closed;
      assert !NamesOpen(svcs', rows');
    } else {
      FewerNames(svcs, svcs', p, id);
      forall k, x: nat | 0 <= k < |svcs'| && svcs'[k].name != "" && IsFirst(rows', svcs'[k].owner, svcs'[k].id, x)
        ensures x < |rows| && !rows'[x].closed
      {
        FirstKept(rows, i, row, svcs'[k].owner, svcs'[k].id, x);
        InRange(rows, svcs'[k].owner, svcs'[k].id, x);
        assert !Points(svcs'[k], p, id);
        PointsIs(svcs'[k], p, id);
        assert svcs[k] == svcs'[k];
      }
    }
  }

  lemma PointsIs(e: Service, owner: int, id: nat)
    ensures Points(e, owner, id) <==> e.name != "" && e.owner == owner && e.id == id
  {
  }

  lemma FewerNames(svcs: seq<Service>, svcs': seq<Service>, owner: int, id: nat)
    requires ForgotFirst(svcs, svcs', owner, id)
    ensures |svcs'| == |svcs| && forall k :: 0 <= k < |svcs| && svcs'[k].name != "" ==> svcs'[k] == svcs[k]
  {
  }

  lemma ForgetOpen(svcs: seq<Service>, svcs': seq<Service>, rows: seq<Row>)
    requires NamesOpen(svcs, rows) && |svcs'| == |svcs| && forall k :: 0 <= k < |svcs| && svcs'[k].name != "" ==> svcs'[k] == svcs[k]
    ensures NamesOpen(svcs', rows)
  {
    hide IsFirst;
  }

  lemma AddedOpen(svcs: seq<Service>, svcs': seq<Service>, rows: seq<Row>, i: nat, e: Service)
    requires NamesOpen(svcs, rows) && Added(svcs, svcs', i, e) && e.name != "" && Resolves(rows, e.owner, e.id)
    ensures NamesOpen(svcs', rows) <==> FirstOpen(rows, e.owner, e.id)
  {
    var x := FirstOf(rows, e.owner, e.id);
    OneFirst(rows, e.owner, e.id, x);
    assert svcs'[i] == e;
    assert forall k :: 0 <= k < |svcs'| && k != i ==> svcs'[k] == svcs[k];
  }

  lemma FirstOf(rows: seq<Row>, owner: int, id: nat) returns (x: nat)
    requires Resolves(rows, owner, id)
    ensures IsFirst(rows, owner, id, x)
  {
    x := 0;
    while !Names(rows[x], owner, id)
      invariant x < |rows| && forall j :: 0 <= j < x ==> !Names(rows[j], owner, id)
      decreases |rows| - x
    {
      x := x + 1;
    }
  }

  lemma ExitOpen(svcs: seq<Service>, rows: seq<Row>, p: int)
    requires NamesOpen(svcs, rows)
    ensures NamesOpen(Forgotten(svcs, p), Released(rows, p))
  {
    var svcs', rows' := Forgotten(svcs, p), Released(rows, p);
    forall k, x: nat | 0 <= k < |svcs'| && svcs'[k].name != "" && IsFirst(rows', svcs'[k].owner, svcs'[k].id, x)
      ensures !rows'[x].closed
    {
      assert svcs[k] == svcs'[k] && svcs[k].owner != p;
      assert forall j :: 0 <= j < |rows| ==> (Names(rows'[j], svcs[k].owner, svcs[k].id) <==> Names(rows[j], svcs[k].owner, svcs[k].id));
      assert IsFirst(rows, svcs[k].owner, svcs[k].id, x);
    }
  }

  // -----------------------------------------------------------------------------
  // Whole runs

  datatype Event =
    | Create(p: int, tableOk: bool, endpointOk: bool)
    | Send(p: int, h: int, m: M.Message, tableOk: bool, copyOk: bool)
    | Receive(p: int, h: int, maxLen: nat, tableOk: bool, copyOk: bool)
    | Connect(p: int, pid: int, id: nat, tableOk: bool)
    | Close(p: int, h: int, tableOk: bool)
    | Register(p: int, name: string, h: int)
    | Unregister(p: int, name: string, h: int)
    | LookupName(p: int, name: string, tableOk: bool)
    | Fork(p: int)
    | Exit(p: int)

  /** The process whose endpoint a call is aimed at. */
  function Aim(e: Event, handles: map<int, seq<Handle>>): Option<int> {
    match e
    case Send(p, h, _, _, _) => if Target(handles, p, h).Some? then Some(Target(handles, p, h).value.0) else None
    case Receive(p, h, _, _, _) => if Target(handles, p, h).Some? then Some(Target(handles, p, h).value.0) else None
    case Connect(_, pid, _, _) => Some(pid)
    case _ => None
  }

  /** The two ways to make a closed endpoint discoverable by name: closing one that has two names,
      and registering a name through a handle that leads to a closed one. */
  ghost predicate Harmful(e: Event, rows: seq<Row>, svcs: seq<Service>, handles: map<int, seq<Handle>>, alive: set<int>) {
    match e
    case Close(p, h, _) =>
      && p in alive && Target(handles, p, h).Some? && Target(handles, p, h).value.0 == p
      && Resolves(rows, p, Target(handles, p, h).value.1) && TwoNames(svcs, p, Target(handles, p, h).value.1)
    case Register(p, name, h) =>
      p in alive && Registrable(rows, svcs, handles, p, name, h) && !FirstOpen(rows, p, Target(handles, p, h).value.1)
    case _ => false
  }

  /** What each call does to the whole state, and its result; calls of processes that are not
      alive are refused. */
  ghost predicate Step(e: Event, a: State, b: State, r: int) {
    if e.p !in a.alive then b == a && r < 0 else
    match e
    case Create(p, t, n) =>
      if HandleLeft(Tabled(a.handles, p, t), p) && n && RowLeft(a.rows) then
        && r >= 0 && b == a.(rows := b.rows, handles := b.handles) && Minted(Tabled(a.handles, p, t), b.handles, p, r, p, r)
        && exists i :: 0 <= i < |b.rows| && Placed(a.rows, b.rows, i, Row(true, p, r, false, []))
      else b == a.(handles := Tabled(a.handles, p, t)) && r < 0
    case Send(p, h, m, t, c) =>
      if Deliverable(a.rows, a.handles, p, h) && |m.data| <= MAX_DATA && (m.data == [] || c) then
        && b == a.(rows := b.rows, handles := Tabled(a.handles, p, t)) && r == 0
        && Target(a.handles, p, h).Some? && exists i: nat :: Delivered(a.rows, b.rows, i, Target(a.handles, p, h).value, m)
      else b == a.(handles := Tabled(a.handles, p, t)) && r < 0
    case Receive(p, h, n, t, c) =>
      if Waiting(a.rows, a.handles, p, h) then
        && b == a.(rows := b.rows, handles := Tabled(a.handles, p, t)) && Target(a.handles, p, h).Some?
        && exists i: nat, m: M.Message :: Taken(a.rows, b.rows, i, Target(a.handles, p, h).value, m) && r == Received(m, n, c)
      else b == a.(handles := Tabled(a.handles, p, t)) && if Reached(a.rows, a.handles, p, h) then r == 0 else r < 0
    case Connect(p, pid, id, t) =>
      if FirstOpen(a.rows, pid, id) && HandleLeft(Tabled(a.handles, p, t), p) then
        b == a.(handles := b.handles) && Minted(Tabled(a.handles, p, t), b.handles, p, r, pid, id)
      else b == a.(handles := if FirstOpen(a.rows, pid, id) then Tabled(a.handles, p, t) else a.handles) && r < 0
    case Close(p, h, t) =>
      if Target(a.handles, p, h).None? then b == a.(handles := Tabled(a.handles, p, t)) && r < 0 else
      && r == 0 && p in a.handles && 0 <= h < |a.handles[p]|
      && b == a.(rows := b.rows, services := b.services, handles := a.handles[p := a.handles[p][h := a.handles[p][h].(used := false)]])
      && var (pid, id) := Target(a.handles, p, h).value;
         if pid == p && Resolves(a.rows, p, id)
         then ForgotFirst(a.services, b.services, p, id) && exists i: nat :: IsFirst(a.rows, p, id, i) && b.rows == a.rows[i := a.rows[i].(closed := true)]
         else b.services == a.services && b.rows == a.rows
    case Register(p, name, h) =>
      if Registrable(a.rows, a.services, a.handles, p, name, h) then
        b == a.(services := b.services) && r == 0 && exists i: nat :: Added(a.services, b.services, i, Service(name, p, Target(a.handles, p, h).value.1))
      else b == a && r < 0
    case Unregister(p, name, h) =>
      if Unregistrable(a.rows, a.services, a.handles, p, name, h) then
        && b == a.(services := b.services) && r == 0
        && exists i :: 0 <= i < |a.services| && a.services[i].name == name && b.services == a.services[i := a.services[i].(name := "")]
      else b == a && r < 0
    case LookupName(p, name, t) =>
      if |name| < NAME_LEN && Known(a.services, name) && HandleLeft(Tabled(a.handles, p, t), p) then
        && b == a.(handles := b.handles)
        && exists i :: 0 <= i < |a.services| && a.services[i].name == name
                       && Minted(Tabled(a.handles, p, t), b.handles, p, r, a.services[i].owner, a.services[i].id)
      else b == a.(handles := if |name| < NAME_LEN && Known(a.services, name) then Tabled(a.handles, p, t) else a.handles) && r < 0
    case Fork(p) =>
      && r == a.nextPid
      && b == a.(handles := if p in a.handles then a.handles[r := a.handles[p]] else a.handles, alive := a.alive + {r}, nextPid := r + 1)
    case Exit(p) =>
      b == State(Released(a.rows, p), Forgotten(a.services, p), a.handles, a.alive - {p}, a.dead + {p}, a.nextPid) && r == 0
  }

  /** The result of taking message `m`. */
  function Received(m: M.Message, maxLen: nat, copyOk: bool): int {
    if !copyOk then FAULT else if |m.data| > maxLen then maxLen else |m.data|
  }

  /** Serves one call of a living process; calls of others are refused.  Every live name keeps
      leading to an open endpoint exactly when the call is not one of the two harmful kinds. */
  method Serve(k: Ipc, e: Event) returns (r: int)
    requires k.Valid()
    modifies k
    ensures k.Valid() && Step(e, old(k.Now()), k.Now(), r)
    ensures Aim(e, old(k.handles)).Some? && Aim(e, old(k.handles)).value in old(k.dead) ==> r < 0
    ensures e.LookupName? && r >= 0 ==> e.p in k.handles && r < |k.handles[e.p]| && k.handles[e.p][r].pid in k.alive
    ensures NamesOpen(old(k.services), old(k.rows)) ==>
              (NamesOpen(k.services, k.rows) <==> !Harmful(e, old(k.rows), old(k.services), old(k.handles), old(k.alive)))
  {
    hide NamesOpen, Harmful, Step, Aim;
    ghost var a := k.Now();
    r := Dispatch(k, e);
    StepOpen(e, a, k.Now(), r);
  }

  method Dispatch(k: Ipc, e: Event) returns (r: int)
    requires k.Valid()
    modifies k
    ensures k.Valid() && Step(e, old(k.Now()), k.Now(), r)
    ensures Aim(e, old(k.handles)).Some? && Aim(e, old(k.handles)).value in old(k.dead) ==> r < 0
    ensures e.LookupName? && r >= 0 ==> e.p in k.handles && r < |k.handles[e.p]| && k.handles[e.p][r].pid in k.alive
  {
    hide RowsOwned, QueuesBounded, NamesDistinct, NamesResolve, Resolves, IsFirst, Delivered, Taken, Placed, ForgotFirst, Added,
         Registrable, Unregistrable, FirstOpen, Shadowed, Deliverable, Waiting, Reached, HandleLeft, RowLeft, Known, Released, Forgotten, Received;
    if e.p !in k.alive {
      return -1;
    }
    match e
    case Create(p, t, n) => r := k.Create(p, t, n);
    case Send(p, h, m, t, c) => r := k.Send(p, h, m, t, c);
    case Receive(p, h, n, t, c) =>
      var m;
      r, m := k.Receive(p, h, n, t, c);
    case Connect(p, pid, id, t) => r := k.Connect(p, pid, id, t);
    case Close(p, h, t) => r := k.Close(p, h, t);
    case Register(p, name, h) => r := k.Register(p, name, h);
    case Unregister(p, name, h) => r := k.Unregister(p, name, h);
    case LookupName(p, name, t) => r := k.LookupName(p, name, t);
    case Fork(p) => r := k.Fork(p);
    case Exit(p) =>
      k.Exit(p);
      r := 0;
  }

  /** Every call keeps all names leading to open endpoints exactly when it is not harmful. */
  lemma StepOpen(e: Event, a: State, b: State, r: int)
    requires Step(e, a, b, r)
    ensures NamesOpen(a.services, a.rows) ==>
              (NamesOpen(b.services, b.rows) <==> !Harmful(e, a.rows, a.services, a.handles, a.alive))
  {
    hide RowsOwned, QueuesBounded, NamesDistinct, NamesResolve, Resolves, IsFirst, Delivered, Taken, Placed, ForgotFirst, Added, NamesOpen, TwoNames,
         Registrable, Unregistrable, FirstOpen, Shadowed, Deliverable, Waiting, Reached, HandleLeft, RowLeft, Known, Released, Forgotten, Received;
    if NamesOpen(a.services, a.rows) && e.p in a.alive {
      match e
      case Create(p, t, n) => CreateKeeps(a.services, a.rows, b.rows, p, r);
      case Send(p, h, m, t, c) =>
        SendKeeps(a.services, a.rows, b.rows, if Target(a.handles, p, h).Some? then Target(a.handles, p, h).value else (0, 0), m);
      case Receive(p, h, n, t, c) => ReceiveKeeps(a.services, a.rows, b.rows);
      case Close(p, h, t) =>
        if Target(a.handles, p, h).Some? {
          CloseKeeps(a.services, b.services, a.rows, b.rows, p, Target(a.handles, p, h).value.0, Target(a.handles, p, h).value.1);
        }
      case Register(p, name, h) =>
        if Registrable(a.rows, a.services, a.handles, p, name, h) {
          RegisterKeeps(a.services, b.services, a.rows, a.handles, p, name, h);
        }
      case Unregister(p, name, h) => UnregisterKeeps(a.services, b.services, a.rows);
      case Exit(p) => ExitOpen(a.services, a.rows, p);
      case _ =>
    }
  }

  lemma CreateKeeps(svcs: seq<Service>, rows: seq<Row>, rows': seq<Row>, p: int, r: int)
    requires NamesOpen(svcs, rows) ==> rows' == rows || (r >= 0 && exists i :: 0 <= i < |rows'| && Placed(rows, rows', i, Row(true, p, r, false, [])))
    ensures NamesOpen(svcs, rows) ==> NamesOpen(svcs, rows')
  {
    hide NamesOpen, Placed;
    if NamesOpen(svcs, rows) && rows' != rows {
      var i :| 0 <= i < |rows'| && Placed(rows, rows', i, Row(true, p, r, false, []));
      PlacedOpen(svcs, rows, rows', i, p, r);
    }
  }

  lemma SendKeeps(svcs: seq<Service>, rows: seq<Row>, rows': seq<Row>, target: (int, nat), m: M.Message)
    requires rows' == rows || exists i: nat :: Delivered(rows, rows', i, target, m)
    ensures NamesOpen(svcs, rows) ==> NamesOpen(svcs, rows')
  {
    hide NamesOpen, IsFirst;
    if NamesOpen(svcs, rows) && rows' != rows {
      var i: nat :| Delivered(rows, rows', i, target, m);
      InRange(rows, target.0, target.1, i);
      QueueOpen(svcs, rows, i, rows[i].queue + [m]);
    }
  }

  lemma ReceiveKeeps(svcs: seq<Service>, rows: seq<Row>, rows': seq<Row>)
    requires rows' == rows || exists i: nat, target: (int, nat), m: M.Message :: Taken(rows, rows', i, target, m)
    ensures NamesOpen(svcs, rows) ==> NamesOpen(svcs, rows')
  {
    hide NamesOpen, IsFirst;
    if NamesOpen(svcs, rows) && rows' != rows {
      var i: nat, target: (int, nat), m: M.Message :| Taken(rows, rows', i, target, m);
      InRange(rows, target.0, target.1, i);
      QueueOpen(svcs, rows, i, rows[i].queue[1..]);
    }
  }

  lemma CloseKeeps(svcs: seq<Service>, svcs': seq<Service>, rows: seq<Row>, rows': seq<Row>, p: int, pid: int, id: nat)
    requires NamesOpen(svcs, rows) ==>
               if pid == p && Resolves(rows, p, id)
               then ForgotFirst(svcs, svcs', p, id) && exists i: nat :: IsFirst(rows, p, id, i) && rows' == rows[i := rows[i].(closed := true)]
               else svcs' == svcs && rows' == rows
    ensures NamesOpen(svcs, rows) ==> (NamesOpen(svcs', rows') <==> !(pid == p && Resolves(rows, p, id) && TwoNames(svcs, p, id)))
  {
    hide NamesOpen, ForgotFirst, TwoNames, Resolves;
    if NamesOpen(svcs, rows) && pid == p && Resolves(rows, p, id) {
      var i: nat :| IsFirst(rows, p, id, i) && rows' == rows[i := rows[i].(closed := true)];
      ClosedOpen(svcs, svcs', rows, i, p, id);
    }
  }

  lemma RegisterKeeps(svcs: seq<Service>, svcs': seq<Service>, rows: seq<Row>, handles: map<int, seq<Handle>>, p: int, name: string, h: int)
    requires Registrable(rows, svcs, handles, p, name, h)
    requires exists i: nat :: Added(svcs, svcs', i, Service(name, p, Target(handles, p, h).value.1))
    ensures NamesOpen(svcs, rows) ==> (NamesOpen(svcs', rows) <==> FirstOpen(rows, p, Target(handles, p, h).value.1))
  {
    hide NamesOpen, Added, FirstOpen, Resolves;
    if NamesOpen(svcs, rows) {
      var i: nat :| Added(svcs, svcs', i, Service(name, p, Target(handles, p, h).value.1));
      AddedOpen(svcs, svcs', rows, i, Service(name, p, Target(handles, p, h).value.1));
    }
  }

  lemma UnregisterKeeps(svcs: seq<Service>, svcs': seq<Service>, rows: seq<Row>)
    requires svcs' == svcs || exists i :: 0 <= i < |svcs| && svcs' == svcs[i := svcs[i].(name := "")]
    ensures NamesOpen(svcs, rows) ==> NamesOpen(svcs', rows)
  {
    hide NamesOpen;
    if NamesOpen(svcs, rows) {
      ForgetOpen(svcs, svcs', rows);
    }
  }

  /** Call `i` of a run: it does what the call does; aimed at a process dead by then it fails; a name
      found leads to a process alive by then; and all names keep leading to open endpoints exactly
      when it is not harmful. */
  ghost predicate Traced(events: seq<Event>, results: seq<int>, trace: seq<State>, i: nat)
    requires i < |events| && i < |results| && i + 1 < |trace|
  {
    var e, a, b, r := events[i], trace[i], trace[i + 1], results[i];
    && Step(e, a, b, r)
    && (Aim(e, a.handles).Some? && Aim(e, a.handles).value in a.dead ==> r < 0)
    && (e.LookupName? && r >= 0 ==> e.p in b.handles && r < |b.handles[e.p]| && b.handles[e.p][r].pid in b.alive && b.handles[e.p][r].pid !in b.dead)
    && (NamesOpen(a.services, a.rows) ==> (NamesOpen(b.services, b.rows) <==> !HarmfulIn(e, a)))
  }

  ghost predicate HarmfulIn(e: Event, a: State) { Harmful(e, a.rows, a.services, a.handles, a.alive) }

  /** Over any run names stay distinct and lead to living owners.  `trace[i]` is the state before
      call `i`. */
  method Run(k: Ipc, events: seq<Event>) returns (results: seq<int>, ghost trace: seq<State>)
    requires k.Valid()
    modifies k
    ensures k.Valid() && |results| == |events| && |trace| == |events| + 1 && trace[0] == old(k.Now()) && trace[|events|] == k.Now()
    ensures forall i :: 0 <= i < |events| ==> Traced(events, results, trace, i)
  {
    hide Ipc.Valid, Target, NamesOpen, Harmful, Step, Aim;
    results, trace := [], [k.Now()];
    for i := 0 to |events|
      invariant k.Valid() && |results| == i && |trace| == i + 1 && trace[0] == old(k.Now()) && trace[i] == k.Now()
      invariant forall j :: 0 <= j < i ==> Traced(events, results, trace, j)
    {
      var r := Serve(k, events[i]);
      AliveNotDead(k);
      ghost var results', trace' := results + [r], trace + [k.Now()];
      TraceMore(events, results, trace, results', trace', i);
      results, trace := results + [r], trace';
    }
  }

  lemma AliveNotDead(k: Ipc)
    requires k.Valid()
    ensures forall p :: p in k.alive ==> p !in k.dead
  {
  }

  lemma TraceMore(events: seq<Event>, results: seq<int>, trace: seq<State>, results': seq<int>, trace': seq<State>, i: nat)
    requires i < |events| && |results| == i && |trace| == i + 1
    requires |results'| == i + 1 && results'[..i] == results && |trace'| == i + 2 && trace'[..i + 1] == trace
    requires forall j :: 0 <= j < i ==> Traced(events, results, trace, j)
    requires Traced(events, results', trace', i)
    ensures forall j :: 0 <= j < i + 1 ==> Traced(events, results', trace', j)
  {
    hide Step, Aim, NamesOpen, HarmfulIn;
    forall j | 0 <= j < i
      ensures Traced(events, results', trace', j)
    {
      assert Traced(events, results, trace, j);
      assert results'[j] == results'[..i][j] && trace'[j] == trace'[..i + 1][j] && trace'[j + 1] == trace'[..i + 1][j + 1];
    }
  }

  /** Over any run: all names lead to open endpoints up to the first harmful call, and not after it. */
  lemma {:induction false} OpenUntilHarm(events: seq<Event>, results: seq<int>, trace: seq<State>, n: nat)
    requires n <= |events| == |results| && |trace| == |events| + 1 && NamesOpen(trace[0].services, trace[0].rows)
    requires forall i :: 0 <= i < |events| ==> Traced(events, results, trace, i)
    requires forall i {:trigger trace[i]} :: 0 <= i < n ==> !HarmfulIn(events[i], trace[i])
    ensures NamesOpen(trace[n].services, trace[n].rows)
    ensures n < |events| ==> (NamesOpen(trace[n + 1].services, trace[n + 1].rows) <==> !HarmfulIn(events[n], trace[n]))
  {
    hide Step, Aim, NamesOpen, HarmfulIn;
    if n > 0 {
      OpenUntilHarm(events, results, trace, n - 1);
    }
    assert n < |events| ==> Traced(events, results, trace, n);
  }

  // -----------------------------------------------------------------------------
  // Instances

  /** The first endpoint of process 0 on a fresh machine. */
  method FirstEndpoint() returns (k: Ipc)
    ensures fresh(k) && k.Valid() && 0 in k.alive && k.services == []
    ensures k.rows == [Row(true, 0, 0, false, [])] && k.handles == map[0 := EmptyTable()[0 := Handle(true, 0, 0)]]
  {
    hide Ipc.Valid;
    k := new Ipc();
    assert HandleLeft(Tabled(k.handles, 0, true), 0) by {
      assert !Tabled(k.handles, 0, true)[0][0].used;
    }
    var h := k.Create(0, true, true);
    assert !EmptyTable()[0].used;
    assert h == 0;
  }

  /** Create, close, create: the second endpoint gets the same handle, which leads to the closed
      first one, so nothing can be sent to it. */
  method Shadowing() returns (k: Ipc, second: int, sent: int)
    ensures k.Valid() && second == 0 && sent < 0
    ensures k.rows == [Row(true, 0, 0, true, []), Row(true, 0, 0, false, [])]
  {
    hide Ipc.Valid;
    k := FirstEndpoint();
    assert Target(k.handles, 0, 0) == Some((0, 0));
    assert Names(k.rows[0], 0, 0);
    OneFirst(k.rows, 0, 0, 0);
    var _ := k.Close(0, 0, true);
    assert k.rows == [Row(true, 0, 0, true, [])];
    assert !k.handles[0][0].used;
    second := k.Create(0, true, true);
    assert second == 0;
    assert k.rows == [Row(true, 0, 0, true, []), Row(true, 0, 0, false, [])];
    assert Target(k.handles, 0, 0) == Some((0, 0));
    assert IsFirst(k.rows, 0, 0, 0);
    OneFirst(k.rows, 0, 0, 0);
    sent := k.Send(0, second, M.Message(0, 0, []), true, true);
  }

  /** An endpoint registered under one name, with a second handle from looking the name up. */
  method NamedEndpoint() returns (k: Ipc)
    ensures fresh(k) && k.Valid() && 0 in k.alive && k.services == [Service("svc", 0, 0)]
    ensures k.rows == [Row(true, 0, 0, false, [])] && 0 in k.handles && |k.handles[0]| == MAX_HANDLES
    ensures k.handles[0][0] == k.handles[0][1] == Handle(true, 0, 0)
  {
    hide Ipc.Valid;
    k := FirstEndpoint();
    assert Target(k.handles, 0, 0) == Some((0, 0));
    assert Names(k.rows[0], 0, 0);
    assert Registrable(k.rows, k.services, k.handles, 0, "svc", 0);
    var registered := k.Register(0, "svc", 0);
    assert k.services == [Service("svc", 0, 0)];
    assert Known(k.services, "svc") by { assert k.services[0].name == "svc"; }
    ghost var table := k.handles[0];
    assert table[0].used && !table[1].used;
    var h := k.LookupName(0, "svc", true);
    assert !table[h].used && forall j :: 0 <= j < h ==> table[j].used;
    assert h == 1;
  }

  /** One name, registered again after the endpoint was closed through a second handle: the name
      leads to a closed endpoint although the endpoint never had two names. */
  method Reregistering() returns (k: Ipc)
    ensures k.Valid() && k.services == [Service("svc", 0, 0)] && k.rows == [Row(true, 0, 0, true, [])]
    ensures !NamesOpen(k.services, k.rows)
  {
    hide Ipc.Valid;
    k := NamedEndpoint();
    assert Target(k.handles, 0, 1) == Some((0, 0));
    assert Names(k.rows[0], 0, 0);
    OneFirst(k.rows, 0, 0, 0);
    assert Points(k.services[0], 0, 0);
    var closed := k.Close(0, 1, true);
    assert k.rows == [Row(true, 0, 0, true, [])] && k.services == [Service("", 0, 0)];
    assert Target(k.handles, 0, 0) == Some((0, 0));
    assert Names(k.rows[0], 0, 0);
    ghost var svcs := k.services;
    assert svcs[0].name == "" && Registrable(k.rows, svcs, k.handles, 0, "svc", 0);
    var again := k.Register(0, "svc", 0);
    ghost var i: nat :| Added(svcs, k.services, i, Service("svc", 0, 0));
    assert i == 0;
    assert IsFirst(k.rows, k.services[0].owner, k.services[0].id, 0);
  }
}
