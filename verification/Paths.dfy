/** Paths of the read-only file tree: parsing, printing, and the working directory. */
module Paths {
  import opened Common

  const NAME_MAX: nat := 96
  const PATH_MAX: nat := 512
  const TREE_DEPTH: nat := 16

  datatype Kind = Directory | Regular

  /** A node; children in list order. */
  datatype Node = Node(kind: Kind, name: string, parent: Option<nat>, children: seq<nat>)

  type Tree = seq<Node>

  datatype Error = NoEntry | NotDir | NameTooLong | Invalid | Fault

  datatype Result<+T> = Ok(value: T) | Err(error: Error)

  predicate GoodName(name: string) {
    0 < |name| < NAME_MAX && '/' !in name && name != "." && name != ".."
  }

  /** A tree with its root first and every parent before its children; sibling names are proper
      and unique. */
  ghost predicate WellFormed(t: Tree) {
    && 0 < |t| && t[0].parent == None && t[0].kind == Directory
    && (forall i :: 0 < i < |t| ==>
          && t[i].parent.Some? && t[i].parent.value < i && t[t[i].parent.value].kind == Directory
          && i in t[t[i].parent.value].children && GoodName(t[i].name))
    && (forall d, k :: 0 <= d < |t| && 0 <= k < |t[d].children| ==>
          0 < t[d].children[k] < |t| && t[t[d].children[k]].parent == Some(d))
    && (forall i, j :: 0 < i < j < |t| && t[i].parent == t[j].parent ==> t[i].name != t[j].name)
  }

  // -----------------------------------------------------------------------------
  // Components

  /** Length of the component a string starts with. */
  function ComponentLength(s: string): (n: nat)
    ensures n <= |s| && (n < |s| ==> s[n] == '/') && forall i :: 0 <= i < n ==> s[i] != '/'
    ensures s != "" && s[0] != '/' ==> 0 < n
  {
    if s == "" || s[0] == '/' then 0 else 1 + ComponentLength(s[1..])
  }

  /** The components of a path; slashes only separate. */
  function Components(s: string): seq<string>
    decreases |s|
  {
    if s == "" then []
    else if s[0] == '/' then Components(s[1..])
    else [s[..ComponentLength(s)]] + Components(s[ComponentLength(s)..])
  }

  lemma {:induction false} LengthSame(a: string, b: string)
    ensures ComponentLength(a + "/" + b) == ComponentLength(a)
    decreases |a|
  {
    if a == "" {
      assert (a + "/" + b)[0] == '/';
    } else {
      assert (a + "/" + b)[0] == a[0];
      assert (a + "/" + b)[1..] == a[1..] + "/" + b;
      LengthSame(a[1..], b);
    }
  }

  /** Joining paths with a slash joins their components. */
  lemma {:induction false} ComponentsJoin(a: string, b: string)
    ensures Components(a + "/" + b) == Components(a) + Components(b)
    decreases |a|
  {
    var s := a + "/" + b;
    if a == "" {
      assert s[1..] == b;
    } else if a[0] == '/' {
      assert s[1..] == a[1..] + "/" + b;
      ComponentsJoin(a[1..], b);
    } else {
      var n := ComponentLength(a);
      LengthSame(a, b);
      hide ComponentLength;
      assert s[0] == a[0] && s[..n] == a[..n];
      assert s[n..] == a[n..] + "/" + b;
      ComponentsJoin(a[n..], b);
      assert Components(a) == [a[..n]] + Components(a[n..]);
    }
  }

  lemma OneComponent(name: string)
    requires name != "" && '/' !in name
    ensures Components(name) == [name]
  {
    var n := ComponentLength(name);
    assert n == |name| && name[..n] == name && name[n..] == "";
  }

  // -----------------------------------------------------------------------------
  // Walking

  /** The first child with the given name. */
  function ChildNamed(t: Tree, children: seq<nat>, name: string): Option<nat> {
    if children == [] then None
    else if children[0] < |t| && t[children[0]].name == name then Some(children[0])
    else ChildNamed(t, children[1..], name)
  }

  function Step(t: Tree, cur: nat, c: string): Result<nat>
    requires cur < |t|
  {
    if c == "." then Ok(cur)
    else if c == ".." then Ok(if t[cur].parent.Some? then t[cur].parent.value else cur)
    else if t[cur].kind != Directory then Err(NotDir)
    else if |c| >= NAME_MAX then Err(NameTooLong)
    else match ChildNamed(t, t[cur].children, c)
         case None => Err(NoEntry)
         case Some(n) => Ok(n)
  }

  /** Following components one by one; stops at the first error. */
  function Walk(t: Tree, cur: nat, cs: seq<string>): Result<nat>
    decreases |cs|
  {
    if cs == [] then Ok(cur)
    else if cur >= |t| then Err(NoEntry)
    else match Step(t, cur, cs[0])
         case Err(e) => Err(e)
         case Ok(n) => Walk(t, n, cs[1..])
  }

  predicate EndsInSlash(path: string) { path != "" && path[|path| - 1] == '/' }

  /** A path followed from node `start`; a trailing slash asks for a directory. */
  function Resolved(t: Tree, start: nat, path: string): Result<nat> {
    var r := Walk(t, start, Components(path));
    if r.Ok? && EndsInSlash(path) && r.value < |t| && t[r.value].kind != Directory then Err(NotDir) else r
  }

  lemma {:induction false} WalkOn(t: Tree, cur: nat, first: seq<string>, rest: seq<string>)
    ensures Walk(t, cur, first + rest) == match Walk(t, cur, first) case Err(e) => Err(e) case Ok(n) => Walk(t, n, rest)
    decreases |first|
  {
    if first == [] {
      assert first + rest == rest;
    } else if cur < |t| {
      assert (first + rest)[0] == first[0] && (first + rest)[1..] == first[1..] + rest;
      var s := Step(t, cur, first[0]);
      if s.Ok? {
        WalkOn(t, s.value, first[1..], rest);
      }
    }
  }

  lemma {:induction false} ChildIn(t: Tree, children: seq<nat>, name: string)
    ensures match ChildNamed(t, children, name)
            case Some(n) => n in children && n < |t| && t[n].name == name
            case None => forall k :: 0 <= k < |children| && children[k] < |t| ==> t[children[k]].name != name
  {
    if children != [] && !(children[0] < |t| && t[children[0]].name == name) {
      ChildIn(t, children[1..], name);
      assert forall k :: 1 <= k < |children| ==> children[k] == children[1..][k - 1];
    }
  }

  /** Looking up a node's own name in its parent finds that node. */
  lemma ChildFound(t: Tree, i: nat)
    requires WellFormed(t) && 0 < i < |t|
    ensures ChildNamed(t, t[t[i].parent.value].children, t[i].name) == Some(i)
  {
    var d := t[i].parent.value;
    ChildIn(t, t[d].children, t[i].name);
    var k :| 0 <= k < |t[d].children| && t[d].children[k] == i;
    var n := ChildNamed(t, t[d].children, t[i].name);
    if n.Some? {
      var l :| 0 <= l < |t[d].children| && t[d].children[l] == n.value;
      assert t[n.value].parent == Some(d);
    }
  }

  lemma {:induction false} WalkStays(t: Tree, cur: nat, cs: seq<string>)
    requires WellFormed(t) && cur < |t|
    ensures Walk(t, cur, cs).Ok? ==> Walk(t, cur, cs).value < |t|
    decreases |cs|
  {
    if cs != [] {
      var s := Step(t, cur, cs[0]);
      if s.Ok? {
        StepStays(t, cur, cs[0]);
        WalkStays(t, s.value, cs[1..]);
      }
    }
  }

  lemma StepStays(t: Tree, cur: nat, c: string)
    requires WellFormed(t) && cur < |t|
    ensures Step(t, cur, c).Ok? ==> Step(t, cur, c).value < |t|
  {
    ChildIn(t, t[cur].children, c);
  }

  // -----------------------------------------------------------------------------
  // Printing

  /** Names from the root down to a node. */
  ghost function Names(t: Tree, n: nat): seq<string>
    requires WellFormed(t) && n < |t|
    decreases n
  {
    if n == 0 then [] else Names(t, t[n].parent.value) + [t[n].name]
  }

  lemma NamesUp(t: Tree, n: nat)
    requires WellFormed(t) && n < |t|
    ensures t[n].parent.None? <==> Names(t, n) == []
    ensures t[n].parent.Some? ==> t[n].parent.value < n && Names(t, n) == Names(t, t[n].parent.value) + [t[n].name]
  {
  }

  function Join(names: seq<string>): string {
    if names == [] then ""
    else if |names| == 1 then names[0]
    else Join(names[..|names| - 1]) + "/" + names[|names| - 1]
  }

  /** The absolute path of a node. */
  ghost function Printed(t: Tree, n: nat): string
    requires WellFormed(t) && n < |t|
  {
    "/" + Join(Names(t, n))
  }

  ghost predicate AllGood(names: seq<string>) { forall i :: 0 <= i < |names| ==> GoodName(names[i]) }

  lemma {:induction false} NamesGood(t: Tree, n: nat)
    requires WellFormed(t) && n < |t|
    ensures AllGood(Names(t, n))
    decreases n
  {
    if n != 0 {
      NamesGood(t, t[n].parent.value);
    }
  }

  /** The parser takes apart what the printer put together. */
  lemma {:induction false} JoinParts(names: seq<string>)
    requires AllGood(names)
    ensures Components(Join(names)) == names
    decreases |names|
  {
    var k := |names| - 1;
    if |names| == 1 {
      OneComponent(names[0]);
    } else if |names| > 1 {
      JoinParts(names[..k]);
      ComponentsJoin(Join(names[..k]), names[k]);
      OneComponent(names[k]);
      assert names == names[..k] + [names[k]];
    }
  }

  lemma {:induction false} WalkNames(t: Tree, n: nat)
    requires WellFormed(t) && n < |t|
    ensures Walk(t, 0, Names(t, n)) == Ok(n)
    decreases n
  {
    if n != 0 {
      var d := t[n].parent.value;
      WalkNames(t, d);
      WalkOn(t, 0, Names(t, d), [t[n].name]);
      ChildFound(t, n);
      assert Walk(t, n, [t[n].name][1..]) == Ok(n);
    }
  }

  lemma {:induction false} JoinEnds(names: seq<string>)
    requires AllGood(names)
    ensures names != [] ==> Join(names) != "" && Join(names)[|Join(names)| - 1] != '/'
  {
    if names != [] {
      var last := names[|names| - 1];
      assert last[|last| - 1] != '/';
      assert Join(names)[|Join(names)| - |last|..] == last;
    }
  }

  /** Printing a node's path and resolving it gives the node back. */
  lemma RoundTrip(t: Tree, n: nat)
    requires WellFormed(t) && n < |t|
    ensures Resolved(t, 0, Printed(t, n)) == Ok(n)
  {
    var names := Names(t, n);
    NamesGood(t, n);
    JoinParts(names);
    WalkNames(t, n);
    JoinEnds(names);
    assert Printed(t, n)[1..] == Join(names);
  }

  // -----------------------------------------------------------------------------
  // The resolver

  /** `tree_find_child`. */
  method FindChild(t: Tree, children: seq<nat>, name: string) returns (r: Option<nat>)
    requires forall k :: 0 <= k < |children| ==> children[k] < |t|
    ensures r == ChildNamed(t, children, name)
  {
    var k := 0;
    while k < |children|
      invariant k <= |children| && ChildNamed(t, children, name) == ChildNamed(t, children[k..], name)
    {
      if t[children[k]].name == name {
        return Some(children[k]);
      }
      assert children[k..][1..] == children[k + 1..];
      k := k + 1;
    }
    return None;
  }

  /** End of the component that starts at `p`. */
  method ComponentEnd(path: string, p: nat) returns (q: nat)
    requires p <= |path|
    ensures q == p + ComponentLength(path[p..])
  {
    q := p;
    while q < |path| && path[q] != '/'
      invariant p <= q <= |path| && ComponentLength(path[p..]) == q - p + ComponentLength(path[q..])
    {
      assert path[q..][1..] == path[q + 1..];
      q := q + 1;
    }
  }

  /** First position at or after `p` that is not a slash. */
  method SkipSlashes(path: string, p: nat) returns (q: nat)
    requires p <= |path|
    ensures p <= q <= |path| && (q < |path| ==> path[q] != '/') && Components(path[p..]) == Components(path[q..])
  {
    q := p;
    while q < |path| && path[q] == '/'
      invariant p <= q <= |path| && Components(path[p..]) == Components(path[q..])
    {
      assert path[q..][1..] == path[q + 1..];
      q := q + 1;
    }
  }

  /** One component of the loop in `vfs_resolve_abs`. */
  method Follow(t: Tree, cur: nat, c: string) returns (r: Result<nat>)
    requires WellFormed(t) && cur < |t|
    ensures r == Step(t, cur, c) && (r.Ok? ==> r.value < |t|)
  {
    StepStays(t, cur, c);
    if c == "." {
      return Ok(cur);
    }
    if c == ".." {
      return Ok(if t[cur].parent.Some? then t[cur].parent.value else cur);
    }
    if t[cur].kind != Directory {
      return Err(NotDir);
    }
    if |c| >= NAME_MAX {
      return Err(NameTooLong);
    }
    var n := FindChild(t, t[cur].children, c);
    return if n.None? then Err(NoEntry) else Ok(n.value);
  }

  /** `vfs_resolve_abs`: a cursor over the characters, component by component. */
  method ResolveAbs(t: Tree, path: string) returns (r: Result<nat>)
    requires WellFormed(t)
    ensures r == if path == "" || path[0] != '/' then Err(Invalid) else Resolved(t, 0, path)
    ensures r.Ok? ==> r.value < |t|
  {
    hide WellFormed, Step, ChildNamed, ComponentLength;
    if path == "" || path[0] != '/' {
      return Err(Invalid);
    }
    Rooted(t);
    var cur: nat, p: nat := 0, 1;
    while p < |path|
      invariant 1 <= p <= |path| && cur < |t|
      invariant Walk(t, 0, Components(path)) == Walk(t, cur, Components(path[p..]))
    {
      p := SkipSlashes(path, p);
      if p == |path| {
        break;
      }
      var q := ComponentEnd(path, p);
      var c := path[p..q];
      TakeComponent(path, p, q);
      var s := Follow(t, cur, c);
      if s.Err? {
        return s;
      }
      cur := s.value;
      p := q;
    }
    assert path[|path|..] == "";
    if path[|path| - 1] == '/' && t[cur].kind != Directory {
      return Err(NotDir);
    }
    return Ok(cur);
  }

  lemma Rooted(t: Tree)
    requires WellFormed(t)
    ensures 0 < |t|
  {
  }

  lemma TakeComponent(path: string, p: nat, q: nat)
    requires p < |path| && path[p] != '/' && q == p + ComponentLength(path[p..])
    ensures p < q <= |path| && Components(path[p..]) == [path[p..q]] + Components(path[q..])
  {
    assert path[p..][0] == path[p];
    assert path[p..][..q - p] == path[p..q] && path[p..][q - p..] == path[q..];
  }

  // -----------------------------------------------------------------------------
  // Absolute paths

  /** The absolute form of a path: itself, or the working directory with the path after it. */
  function Absolute(cwd: string, path: string): string {
    if path != "" && path[0] == '/' then path else cwd + (if |cwd| > 1 then "/" else "") + path
  }

  /** `vfs_absolutize`: false when the result does not fit. */
  method Absolutize(cwd: string, path: string) returns (r: Option<string>)
    ensures r == if |Absolute(cwd, path)| < PATH_MAX then Some(Absolute(cwd, path)) else None
  {
    if path != "" && path[0] == '/' {
      if |path| >= PATH_MAX {
        return None;
      }
      return Some(path);
    }
    var total := |cwd| + (if |cwd| > 1 then 1 else 0) + |path|;
    if total >= PATH_MAX {
      return None;
    }
    var abs := cwd;
    if |cwd| > 1 {
      abs := abs + "/";
    }
    assert abs == cwd + (if |cwd| > 1 then "/" else "");
    return Some(abs + path);
  }

  lemma AbsoluteEnds(cwd: string, path: string)
    requires cwd != "" && (|cwd| > 1 ==> cwd[|cwd| - 1] != '/')
    ensures path != "" ==> (EndsInSlash(Absolute(cwd, path)) <==> EndsInSlash(path))
  {
    if path != "" {
      var abs := Absolute(cwd, path);
      assert abs[|abs| - 1] == path[|path| - 1];
    }
  }

  /** Resolving the working directory joined with a relative path is walking the path's components
      from the directory. */
  lemma RelativeFromCwd(t: Tree, d: nat, path: string)
    requires WellFormed(t) && d < |t| && t[d].kind == Directory && (path == "" || path[0] != '/')
    ensures Resolved(t, 0, Absolute(Printed(t, d), path)) == Resolved(t, d, path)
  {
    var names := Names(t, d);
    var cwd := Printed(t, d);
    NamesGood(t, d);
    JoinParts(names);
    JoinEnds(names);
    WalkNames(t, d);
    var abs := Absolute(cwd, path);
    if |cwd| > 1 {
      assert cwd[1..] == Join(names);
      ComponentsJoin(cwd, path);
      assert abs == cwd + "/" + path;
    } else {
      EmptyNames(names);
      assert cwd == "/" && abs == "/" + path && abs[1..] == path;
    }
    assert Components(abs) == names + Components(path);
    WalkOn(t, 0, names, Components(path));
    AbsoluteEnds(cwd, path);
  }

  lemma EmptyNames(names: seq<string>)
    requires AllGood(names) && Join(names) == ""
    ensures names == []
  {
    JoinEnds(names);
  }

  /** Any path, made absolute, leads where it leads from the root or from the working directory. */
  lemma AbsoluteResolves(t: Tree, d: nat, path: string)
    requires WellFormed(t) && d < |t| && t[d].kind == Directory
    ensures var abs := Absolute(Printed(t, d), path);
            abs != "" && abs[0] == '/' && Resolved(t, 0, abs) == Resolved(t, if path != "" && path[0] == '/' then 0 else d, path)
  {
    hide Resolved, Names, Join, WellFormed;
    if path == "" || path[0] != '/' {
      RelativeFromCwd(t, d, path);
    }
  }

  /** Repeated slashes change nothing. */
  lemma SlashesCollapse(t: Tree, n: nat, a: string, b: string)
    ensures Resolved(t, n, a + "//" + b) == Resolved(t, n, a + "/" + b)
  {
    ComponentsJoin(a, "/" + b);
    ComponentsJoin(a, b);
    assert a + "/" + ("/" + b) == a + "//" + b;
    assert ("/" + b)[1..] == b;
    LastSame(a + "/", b);
    LastSame(a + "//", b);
  }

  lemma LastSame(a: string, b: string)
    requires EndsInSlash(a)
    ensures EndsInSlash(a + b) <==> b == "" || EndsInSlash(b)
  {
    if b != "" {
      assert (a + b)[|a + b| - 1] == b[|b| - 1];
    } else {
      assert a + b == a;
    }
  }

  /** A "." component changes nothing. */
  lemma DotsVanish(t: Tree, n: nat, a: string, b: string)
    requires WellFormed(t) && n < |t|
    ensures Resolved(t, n, a + "/./" + b) == Resolved(t, n, a + "/" + b)
  {
    hide WellFormed, Components, Walk, EndsInSlash;
    DotComponents(a, b);
    ComponentsJoin(a, b);
    WalkOn(t, n, Components(a), ["."] + Components(b));
    WalkOn(t, n, Components(a), Components(b));
    WalkStays(t, n, Components(a));
    var r := Walk(t, n, Components(a));
    if r.Ok? {
      DotStays(t, r.value, Components(b));
    }
    SameEnding(a, b);
  }

  lemma DotComponents(a: string, b: string)
    ensures Components(a + "/./" + b) == Components(a) + (["."] + Components(b))
  {
    hide Components;
    var dot := "./" + b;
    ComponentsJoin(a, dot);
    ComponentsJoin(".", b);
    OneComponent(".");
    assert a + "/" + dot == a + "/./" + b;
    assert "." + "/" + b == dot;
  }

  lemma SameEnding(a: string, b: string)
    ensures EndsInSlash(a + "/./" + b) <==> EndsInSlash(a + "/" + b)
  {
    LastSame(a + "/./", b);
    LastSame(a + "/", b);
  }

  lemma DotStays(t: Tree, n: nat, cs: seq<string>)
    requires n < |t|
    ensures Walk(t, n, ["."] + cs) == Walk(t, n, cs)
  {
    assert (["."] + cs)[1..] == cs;
  }

  // -----------------------------------------------------------------------------
  // Going up, and where a walk leads by names alone

  /** Down to a child and up again; the root is its own parent. */
  lemma UpAgain(t: Tree, i: nat)
    requires WellFormed(t) && i < |t|
    ensures 0 < i ==> Walk(t, t[i].parent.value, [t[i].name, ".."]) == Ok(t[i].parent.value)
    ensures Walk(t, 0, [".."]) == Ok(0)
  {
    assert Walk(t, 0, [".."][1..]) == Ok(0);
    if 0 < i {
      var d, cs := t[i].parent.value, [t[i].name, ".."];
      ChildFound(t, i);
      assert Step(t, d, cs[0]) == Ok(i);
      assert cs[1..] == [".."] && [".."][1..] == [];
      assert Step(t, i, "..") == Ok(d);
    }
  }

  /** A component and ".." after it change nothing when the component leads to a child. */
  lemma UpVanishes(t: Tree, n: nat, a: string, x: string, b: string, i: nat)
    requires WellFormed(t) && n < |t| && GoodName(x) && 0 < i < |t|
    requires Walk(t, n, Components(a)) == Ok(t[i].parent.value) && t[i].name == x
    ensures Resolved(t, n, a + "/" + x + "/../" + b) == Resolved(t, n, a + "/" + b)
  {
    hide Components, Walk, EndsInSlash, GoodName;
    UpComponents(a, x, b);
    ComponentsJoin(a, b);
    WalkOn(t, n, Components(a), [x, ".."] + Components(b));
    WalkOn(t, n, Components(a), Components(b));
    WalkOn(t, t[i].parent.value, [x, ".."], Components(b));
    UpAgain(t, i);
    UpEnding(a, x, b);
  }

  lemma UpComponents(a: string, x: string, b: string)
    requires GoodName(x)
    ensures Components(a + "/" + x + "/../" + b) == Components(a) + ([x, ".."] + Components(b))
  {
    hide Components;
    var up, rest := "../" + b, x + "/" + ("../" + b);
    ComponentsJoin(a, rest);
    ComponentsJoin(x, up);
    ComponentsJoin("..", b);
    OneComponent(x);
    OneComponent("..");
    assert a + "/" + rest == a + "/" + x + "/../" + b;
    assert ".." + "/" + b == up;
    assert [x] + ([".."] + Components(b)) == [x, ".."] + Components(b);
  }

  lemma UpEnding(a: string, x: string, b: string)
    ensures EndsInSlash(a + "/" + x + "/../" + b) <==> EndsInSlash(a + "/" + b)
  {
    LastSame(a + "/" + x + "/../", b);
    LastSame(a + "/", b);
  }

  /** Components laid on a list of names: "." stays, ".." drops the last name, others are added. */
  function Lexical(names: seq<string>, cs: seq<string>): seq<string>
    decreases |cs|
  {
    if cs == [] then names
    else if cs[0] == "." then Lexical(names, cs[1..])
    else if cs[0] == ".." then Lexical(if names == [] then [] else names[..|names| - 1], cs[1..])
    else Lexical(names + [cs[0]], cs[1..])
  }

  /** Some node of the tree has exactly these names from the root down. */
  ghost predicate Exists(t: Tree, names: seq<string>)
    requires WellFormed(t)
  {
    exists n: nat :: n < |t| && Names(t, n) == names
  }

  /** Two nodes with the same names are one. */
  lemma {:induction false} NamesUnique(t: Tree, i: nat, j: nat)
    requires WellFormed(t) && i < |t| && j < |t| && Names(t, i) == Names(t, j)
    ensures i == j
    decreases i
  {
    NamesUp(t, i);
    NamesUp(t, j);
    if i != 0 && j != 0 {
      var a, b := Names(t, i), Names(t, j);
      assert a[..|a| - 1] == Names(t, t[i].parent.value) && a[|a| - 1] == t[i].name;
      assert b[..|b| - 1] == Names(t, t[j].parent.value) && b[|b| - 1] == t[j].name;
      NamesUnique(t, t[i].parent.value, t[j].parent.value);
    }
  }

  /** What one component does, said with names: it leads to the node whose names are those, and
      the error says why there is none. */
  lemma StepNames(t: Tree, n: nat, c: string)
    requires WellFormed(t) && n < |t| && c != "" && '/' !in c
    ensures match Step(t, n, c)
            case Ok(r) => r < |t| && Names(t, r) == Lexical(Names(t, n), [c])
            case Err(e) =>
              && c != "." && c != ".." && !Exists(t, Lexical(Names(t, n), [c]))
              && e == if t[n].kind != Directory then NotDir else if |c| >= NAME_MAX then NameTooLong else NoEntry
  {
    hide WellFormed;
    assert [c][1..] == [];
    NamesUp(t, n);
    StepStays(t, n, c);
    if c != "." && c != ".." {
      ChildStep(t, n, c);
    }
  }

  lemma ChildStep(t: Tree, n: nat, c: string)
    requires WellFormed(t) && n < |t| && c != "." && c != ".."
    ensures match Step(t, n, c)
            case Ok(r) => r < |t| && Names(t, r) == Names(t, n) + [c]
            case Err(e) => !Exists(t, Names(t, n) + [c])
  {
    var names := Names(t, n) + [c];
    StepStays(t, n, c);
    ChildIn(t, t[n].children, c);
    if Step(t, n, c).Ok? {
      NamesUp(t, Step(t, n, c).value);
    } else {
      forall i: nat | i < |t|
        ensures Names(t, i) != names
      {
        NotNamed(t, n, c, i);
      }
    }
  }

  /** A node with the names of `n` and then `c` would be a child of `n` called `c`. */
  lemma NotNamed(t: Tree, n: nat, c: string, i: nat)
    requires WellFormed(t) && n < |t| && i < |t| && c != "." && c != ".." && Step(t, n, c).Err?
    ensures Names(t, i) != Names(t, n) + [c]
  {
    NamesUp(t, i);
    if Names(t, i) == Names(t, n) + [c] {
      var a := Names(t, i);
      assert a[..|a| - 1] == Names(t, t[i].parent.value) == Names(t, n) && a[|a| - 1] == t[i].name == c;
      NamesUnique(t, t[i].parent.value, n);
      ChildFound(t, i);
      assert false;
    }
  }

  ghost predicate Plain(cs: seq<string>) {
    forall k :: 0 <= k < |cs| ==> cs[k] != "" && '/' !in cs[k]
  }

  lemma {:induction false} ComponentsPlain(s: string)
    ensures Plain(Components(s))
    decreases |s|
  {
    if s != "" {
      if s[0] == '/' {
        ComponentsPlain(s[1..]);
      } else {
        ComponentsPlain(s[ComponentLength(s)..]);
      }
    }
  }

  lemma {:induction false} LexicalSplit(names: seq<string>, cs: seq<string>, k: nat)
    requires k <= |cs|
    ensures Lexical(names, cs) == Lexical(Lexical(names, cs[..k]), cs[k..])
    decreases k
  {
    if k == 0 {
      assert cs[..0] == [] && cs[0..] == cs;
    } else {
      var next := if cs[0] == "." then names else if cs[0] == ".." then (if names == [] then [] else names[..|names| - 1]) else names + [cs[0]];
      LexicalSplit(next, cs[1..], k - 1);
      assert cs[..k][0] == cs[0] && cs[..k][1..] == cs[1..][..k - 1] && cs[1..][k - 1..] == cs[k..];
    }
  }

  /** Every prefix of the components names a node. */
  ghost predicate AllExist(t: Tree, names: seq<string>, cs: seq<string>)
    requires WellFormed(t)
  {
    forall k :: 0 <= k <= |cs| ==> Exists(t, Lexical(names, cs[..k]))
  }

  /** A walk succeeds exactly when every prefix of the components names a node, and then it leads to
      the node with the names they spell. */
  lemma {:induction false} WalkLexical(t: Tree, n: nat, cs: seq<string>)
    requires WellFormed(t) && n < |t| && Plain(cs)
    ensures Walk(t, n, cs).Ok? <==> AllExist(t, Names(t, n), cs)
    ensures Walk(t, n, cs).Ok? ==> Walk(t, n, cs).value < |t| && Names(t, Walk(t, n, cs).value) == Lexical(Names(t, n), cs)
    decreases |cs|
  {
    hide WellFormed, Step, Names;
    var names := Names(t, n);
    assert cs[..0] == [] && Lexical(names, []) == names;
    if cs != [] {
      var c := cs[0];
      StepNames(t, n, c);
      var s := Step(t, n, c);
      assert cs[..1] == [c] && [c][1..] == [];
      if s.Ok? {
        WalkLexical(t, s.value, cs[1..]);
        AllExistNext(t, names, cs);
      } else {
        assert !Exists(t, Lexical(names, cs[..1]));
      }
    }
  }

  lemma AllExistNext(t: Tree, names: seq<string>, cs: seq<string>)
    requires WellFormed(t) && cs != [] && Exists(t, names)
    ensures AllExist(t, names, cs) <==> AllExist(t, Lexical(names, [cs[0]]), cs[1..])
    ensures Lexical(names, cs) == Lexical(Lexical(names, [cs[0]]), cs[1..])
  {
    hide WellFormed, Exists;
    assert cs[..1] == [cs[0]];
    LexicalSplit(names, cs, 1);
    var next := Lexical(names, [cs[0]]);
    forall k | 0 <= k <= |cs| - 1
      ensures Lexical(names, cs[..k + 1]) == Lexical(next, cs[1..][..k])
    {
      LexicalSplit(names, cs[..k + 1], 1);
      assert cs[..k + 1][..1] == [cs[0]] && cs[..k + 1][1..] == cs[1..][..k];
    }
    assert cs[..0] == [] && Lexical(names, []) == names;
    if AllExist(t, next, cs[1..]) {
      forall k | 0 <= k <= |cs|
        ensures Exists(t, Lexical(names, cs[..k]))
      {
        assert 0 < k ==> Exists(t, Lexical(next, cs[1..][..k - 1]));
      }
    }
    if AllExist(t, names, cs) {
      forall k | 0 <= k <= |cs| - 1
        ensures Exists(t, Lexical(next, cs[1..][..k]))
      {
        assert Exists(t, Lexical(names, cs[..k + 1]));
      }
    }
  }

  /** Why node `d` has no child called `c`. */
  function Reason(t: Tree, d: nat, c: string): Error
    requires d < |t|
  {
    if t[d].kind != Directory then NotDir else if |c| >= NAME_MAX then NameTooLong else NoEntry
  }

  /** A walk that fails does so at the first component that names no node, for the reason its
      directory gives. */
  lemma {:induction false} WalkError(t: Tree, n: nat, cs: seq<string>) returns (k: nat, d: nat)
    requires WellFormed(t) && n < |t| && Plain(cs) && Walk(t, n, cs).Err?
    ensures k < |cs| && d < |t| && AllExist(t, Names(t, n), cs[..k]) && Names(t, d) == Lexical(Names(t, n), cs[..k])
    ensures !Exists(t, Lexical(Names(t, n), cs[..k + 1])) && Walk(t, n, cs) == Err(Reason(t, d, cs[k]))
    decreases |cs|
  {
    hide WellFormed, Step, Names;
    var names, c := Names(t, n), cs[0];
    StepNames(t, n, c);
    var s := Step(t, n, c);
    assert cs[..1] == [c] && cs[..0] == [] && Lexical(names, []) == names;
    if s.Err? {
      return 0, n;
    }
    k, d := WalkError(t, s.value, cs[1..]);
    var front := cs[..k + 1];
    assert front[0] == c && front[1..] == cs[1..][..k] && cs[..k + 2][0] == c && cs[..k + 2][1..] == cs[1..][..k + 1];
    AllExistNext(t, names, front);
    AllExistNext(t, names, cs[..k + 2]);
    k := k + 1;
  }

  /** Where a path leads from node `n`, by names alone: the node its components spell, and a
      directory if the path ends in a slash. */
  lemma ResolvedIff(t: Tree, n: nat, path: string, r: nat)
    requires WellFormed(t) && n < |t|
    ensures Resolved(t, n, path) == Ok(r) <==>
              && r < |t| && AllExist(t, Names(t, n), Components(path)) && Names(t, r) == Lexical(Names(t, n), Components(path))
              && (EndsInSlash(path) ==> t[r].kind == Directory)
  {
    hide WellFormed, Walk, Names, Components, Lexical, AllExist;
    var cs := Components(path);
    ComponentsPlain(path);
    WalkLexical(t, n, cs);
    if r < |t| && AllExist(t, Names(t, n), cs) && Names(t, r) == Lexical(Names(t, n), cs) {
      NamesUnique(t, r, Walk(t, n, cs).value);
    }
  }

  // -----------------------------------------------------------------------------
  // The working directory

  /** The path `cwd` is the printed path of directory `d`. */
  ghost predicate Stands(t: Tree, cwd: string, d: nat) {
    WellFormed(t) && d < |t| && t[d].kind == Directory && cwd == Printed(t, d) && |cwd| < PATH_MAX
  }

  /** The path fits, leads from `start` to a directory, and that directory is neither too deep nor
      its own path too long. */
  ghost predicate Enterable(t: Tree, cwd: string, path: string, start: nat)
    requires WellFormed(t)
  {
    && |Absolute(cwd, path)| < PATH_MAX
    && Resolved(t, start, path).Ok? && Resolved(t, start, path).value < |t|
    && var n := Resolved(t, start, path).value;
       t[n].kind == Directory && |Names(t, n)| <= TREE_DEPTH && |Printed(t, n)| < PATH_MAX
  }

  /** Why a path is not entered. */
  function Refusal(t: Tree, cwd: string, path: string, start: nat): Error {
    if |Absolute(cwd, path)| >= PATH_MAX then Fault
    else if Resolved(t, start, path).Err? then Resolved(t, start, path).error
    else if Resolved(t, start, path).value < |t| && t[Resolved(t, start, path).value].kind != Directory then NotDir
    else NameTooLong
  }

  class Process {
    var cwd: string

    constructor ()
      ensures cwd == "/"
    {
      cwd := "/";
    }

    /** The names from a node up to the root, last one first; none when there are too many. */
    method Climb(t: Tree, node: nat) returns (r: Option<seq<string>>)
      requires WellFormed(t) && node < |t|
      ensures r.Some? <==> |Names(t, node)| <= TREE_DEPTH
      ensures r.Some? ==> |r.value| == |Names(t, node)| && forall k :: 0 <= k < |r.value| ==> r.value[k] == Names(t, node)[|r.value| - 1 - k]
    {
      hide WellFormed, Names;
      ghost var all := Names(t, node);
      var comps: seq<string> := [];
      var n: nat := node;
      NamesUp(t, n);
      while t[n].parent.Some?
        invariant n < |t| && |comps| <= TREE_DEPTH && Names(t, n) <= all && |all| == |Names(t, n)| + |comps|
        invariant forall k :: 0 <= k < |comps| ==> comps[k] == all[|all| - 1 - k]
        invariant t[n].parent.None? <==> Names(t, n) == []
        decreases n
      {
        NamesUp(t, n);
        if |comps| >= TREE_DEPTH {
          return None;
        }
        comps := comps + [t[n].name];
        n := t[n].parent.value;
        NamesUp(t, n);
      }
      return Some(comps);
    }

    /** Writes the names root-down; none when the path would not fit. */
    method Print(comps: seq<string>, ghost names: seq<string>) returns (r: Option<string>)
      requires |comps| == |names| && forall k :: 0 <= k < |comps| ==> comps[k] == names[|names| - 1 - k]
      ensures r.Some? ==> r.value == "/" + Join(names) && |r.value| < PATH_MAX
      ensures r.None? ==> |"/" + Join(names)| >= PATH_MAX
    {
      var tmp := "/";
      var k: nat := |comps|;
      while k > 0
        invariant k <= |comps| && |tmp| < PATH_MAX
        invariant tmp == "/" + Join(names[..|names| - k]) + (if 0 < k < |names| then "/" else "")
      {
        var nm := comps[k - 1];
        var done := |names| - k;
        assert names[..done + 1][..done] == names[..done] && names[..done + 1][done] == nm;
        if |tmp| + |nm| + (if k > 1 then 1 else 0) >= PATH_MAX {
          JoinGrows(names, done + 1);
          return None;
        }
        tmp := tmp + nm;
        if k > 1 {
          tmp := tmp + "/";
        }
        k := k - 1;
      }
      assert names[..|names|] == names;
      return Some(tmp);
    }

    /** `sys_vfs_chdir` on an argument in user memory: it must end within the buffer, and lead to a
        directory whose path fits. */
    method Chdir(t: Tree, at: nat -> Option<char>, ghost d: nat) returns (r: Option<Error>, ghost n: nat)
      requires Stands(t, cwd, d)
      modifies this
      ensures r.Some? ==> cwd == old(cwd) && n == d
      ensures Stands(t, cwd, n)
      ensures r.None? <==> exists path :: UserString(at, path) && Enterable(t, old(cwd), path, From(path, d))
      ensures r.None? ==> forall path :: UserString(at, path) ==> Resolved(t, From(path, d), path) == Ok(n)
      ensures r.Some? ==> forall path :: UserString(at, path) ==> r.value == Refusal(t, old(cwd), path, From(path, d))
      ensures (forall path :: !UserString(at, path)) ==> r == Some(Fault) || r == Some(NameTooLong)
      ensures r == Some(NameTooLong) <== forall i :: 0 <= i < PATH_MAX - 1 ==> at(i).Some? && at(i) != Some('\0')
    {
      hide Resolved, Enterable, Stands, UserString, Refusal;
      n := d;
      var path, e := CopyUserPath(at);
      if e.Some? {
        return e, n;
      }
      OneString(at, path);
      r, n := Enter(t, path, d);
    }

    /** `vfs_copy_user_path`: the string up to its NUL, which must be among the first 511 bytes. */
    method CopyUserPath(at: nat -> Option<char>) returns (path: string, e: Option<Error>)
      ensures e.None? ==> UserString(at, path)
      ensures e.Some? ==> forall s :: !UserString(at, s)
      ensures e == Some(NameTooLong) <==> forall i :: 0 <= i < PATH_MAX - 1 ==> at(i).Some? && at(i) != Some('\0')
      ensures e.Some? ==> e == Some(Fault) || e == Some(NameTooLong)
    {
      path := "";
      var i: nat := 0;
      while i < PATH_MAX - 1
        invariant i == |path| <= PATH_MAX - 1 && forall j :: 0 <= j < i ==> at(j) == Some(path[j]) && path[j] != '\0'
      {
        if at(i).None? {
          NoString(at, i);
          return path, Some(Fault);
        }
        if at(i).value == '\0' {
          return path, None;
        }
        path := path + [at(i).value];
        i := i + 1;
      }
      TooLong(at);
      return path, Some(NameTooLong);
    }

    /** The rest of `sys_vfs_chdir`: after success the working directory is the printed path of the
        directory the argument led to; after failure it is unchanged. */
    method Enter(t: Tree, path: string, ghost d: nat) returns (r: Option<Error>, ghost n: nat)
      requires Stands(t, cwd, d)
      modifies this
      ensures r.Some? ==> cwd == old(cwd) && n == d
      ensures Stands(t, cwd, n)
      ensures r.None? ==> Resolved(t, From(path, d), path) == Ok(n)
      ensures r.None? <==> Enterable(t, old(cwd), path, From(path, d))
      ensures r.Some? ==> r.value == Refusal(t, old(cwd), path, From(path, d))
    {
      hide Resolved, Names, Join, Absolute, WellFormed;
      n := d;
      AbsoluteResolves(t, d, path);
      var abs := Absolutize(cwd, path);
      if abs.None? {
        return Some(Fault), n;
      }
      var node := ResolveAbs(t, abs.value);
      if node.Err? {
        return Some(node.error), n;
      }
      if t[node.value].kind != Directory {
        return Some(NotDir), n;
      }
      var comps := Climb(t, node.value);
      if comps.None? {
        return Some(NameTooLong), n;
      }
      var text := Print(comps.value, Names(t, node.value));
      if text.None? {
        return Some(NameTooLong), n;
      }
      cwd := text.value;
      return None, node.value;
    }
  }

  /** The node a path starts from: the root or the working directory. */
  function From(path: string, d: nat): nat { if path != "" && path[0] == '/' then 0 else d }

  /** User memory holds the NUL-terminated string `s`, and it fits the kernel's buffer. */
  ghost predicate UserString(at: nat -> Option<char>, s: string) {
    |s| + 1 < PATH_MAX && at(|s|) == Some('\0') && forall i :: 0 <= i < |s| ==> at(i) == Some(s[i]) && s[i] != '\0'
  }

  lemma OneString(at: nat -> Option<char>, s: string)
    requires UserString(at, s)
    ensures forall u :: UserString(at, u) ==> u == s
  {
    forall u | UserString(at, u)
      ensures u == s
    {
      assert forall i :: 0 <= i < |s| ==> at(i) != Some('\0');
      assert forall i :: 0 <= i < |u| ==> at(i) != Some('\0');
      assert forall i :: 0 <= i < |s| && i < |u| ==> at(i) == Some(u[i]) && at(i) == Some(s[i]);
    }
  }

  lemma NoString(at: nat -> Option<char>, i: nat)
    requires at(i).None? && forall j :: 0 <= j < i ==> at(j) != Some('\0')
    ensures forall s :: !UserString(at, s)
  {
    forall s
      ensures !UserString(at, s)
    {
      if |s| < i {
        assert at(|s|) != Some('\0');
      } else if i < |s| {
        assert at(i) != Some(s[i]);
      }
    }
  }

  lemma TooLong(at: nat -> Option<char>)
    requires forall j :: 0 <= j < PATH_MAX - 1 ==> at(j) != Some('\0')
    ensures forall s :: !UserString(at, s)
  {
    forall s
      ensures !UserString(at, s)
    {
      if |s| + 1 < PATH_MAX {
        assert at(|s|) != Some('\0');
      }
    }
  }

  lemma {:induction false} JoinGrows(names: seq<string>, k: nat)
    requires 0 < k <= |names|
    ensures |Join(names)| >= |Join(names[..k])| + (if k < |names| then 1 else 0)
    decreases |names| - k
  {
    if k == |names| {
      assert names[..k] == names;
    } else {
      JoinGrows(names, k + 1);
      assert names[..k + 1][..k] == names[..k];
    }
  }

  /** Change `i` of a run: it is made exactly when the argument is a path that can be entered from
      where the process stands, and then the process stands where the path leads. */
  ghost predicate Traced(t: Tree, paths: seq<nat -> Option<char>>, results: seq<Option<Error>>, ds: seq<nat>, i: nat)
    requires WellFormed(t) && i < |paths| && i < |results| && i + 1 < |ds| && ds[i] < |t|
  {
    var at, d, cwd := paths[i], ds[i], Printed(t, ds[i]);
    && (results[i].None? <==> exists path :: UserString(at, path) && Enterable(t, cwd, path, From(path, d)))
    && (results[i].None? ==> forall path :: UserString(at, path) ==> Resolved(t, From(path, d), path) == Ok(ds[i + 1]))
    && (results[i].Some? ==> ds[i + 1] == d && forall path :: UserString(at, path) ==> results[i].value == Refusal(t, cwd, path, From(path, d)))
  }

  /** Over any run of directory changes the working directory names a directory of the tree and
      resolves to it.  `ds[i]` is where the process stands before change `i`. */
  method Run(p: Process, t: Tree, paths: seq<nat -> Option<char>>) returns (results: seq<Option<Error>>, ghost ds: seq<nat>)
    requires WellFormed(t) && p.cwd == "/"
    modifies p
    ensures |results| == |paths| && |ds| == |paths| + 1 && ds[0] == 0
    ensures Stands(t, p.cwd, ds[|paths|]) && Resolved(t, 0, p.cwd) == Ok(ds[|paths|])
    ensures forall i :: 0 <= i < |paths| ==> ds[i] < |t| && Traced(t, paths, results, ds, i)
  {
    hide UserString, Enterable, Resolved, Refusal, Names, WellFormed, Join;
    results, ds := [], [0];
    assert Stands(t, "/", 0) by { StandsAtRoot(t); }
    for i := 0 to |paths|
      invariant |results| == i && |ds| == i + 1 && ds[0] == 0 && Stands(t, p.cwd, ds[i])
      invariant forall j :: 0 <= j < i ==> ds[j] < |t| && Traced(t, paths, results, ds, j)
    {
      var failed;
      ghost var d;
      failed, d := p.Chdir(t, paths[i], ds[i]);
      ghost var results', ds' := results + [failed], ds + [d];
      assert Traced(t, paths, results', ds', i);
      TraceMore(t, paths, results, ds, results', ds', i);
      results, ds := results + [failed], ds';
    }
    RoundTrip(t, ds[|paths|]);
  }

  lemma StandsAtRoot(t: Tree)
    requires WellFormed(t)
    ensures Stands(t, "/", 0)
  {
  }

  lemma TraceMore(t: Tree, paths: seq<nat -> Option<char>>, results: seq<Option<Error>>, ds: seq<nat>, results': seq<Option<Error>>, ds': seq<nat>, i: nat)
    requires WellFormed(t) && i < |paths| && |results| == i && |ds| == i + 1
    requires |results'| == i + 1 && results'[..i] == results && |ds'| == i + 2 && ds'[..i + 1] == ds
    requires forall j :: 0 <= j < i ==> ds[j] < |t| && Traced(t, paths, results, ds, j)
    requires ds'[i] < |t| && Traced(t, paths, results', ds', i)
    ensures forall j :: 0 <= j < i + 1 ==> ds'[j] < |t| && Traced(t, paths, results', ds', j)
  {
    hide UserString, Enterable, Resolved, Refusal, Names, WellFormed;
    forall j | 0 <= j < i
      ensures ds'[j] < |t| && Traced(t, paths, results', ds', j)
    {
      assert Traced(t, paths, results, ds, j);
      assert results'[j] == results'[..i][j] && ds'[j] == ds'[..i + 1][j] && ds'[j + 1] == ds'[..i + 1][j + 1];
    }
  }
}
