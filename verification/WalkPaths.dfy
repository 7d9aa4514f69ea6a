/**
  What a fingerprint is about, path by path.

  The graph is described without the walk: a path leads through listed entries from
  directory to directory, and what it ends at is a file with its bytes, a link to one,
  a directory, and so on. `TreeExact` says that the tree the walk sees has a path
  exactly when the graph does, no directory repeats before its end, and no part of the
  path is excluded. `FailsExactly` says when there is no tree.
 */
module WalkPaths {
  import opened Basics
  import opened Unicode
  import opened NameOrder
  import opened Transcript
  import opened DirectoryTree
  import opened DirectoryWalk

  /** What a path ends at; `link` tells whether through a symbolic link. */
  datatype Shape = FileShape(link: bool, bytes: Bytes) | OtherShape(link: bool) | CycleShape(link: bool) | DirShape(link: bool)

  // ---- the tree, path by path --------------------------------------------

  function NodeShape(n: Node): Shape
  {
    match n
    case FileNode(link, bytes) => FileShape(link, bytes)
    case OtherNode(link) => OtherShape(link)
    case CycleNode(link) => CycleShape(link)
    case DirNode(link, _) => DirShape(link)
  }

  ghost predicate InTree(cs: seq<Child>, names: seq<JsString>, shape: Shape)
    decreases |names|
  {
    names != [] && exists c :: c in cs && InChild(c, names, shape)
  }

  ghost predicate InChild(c: Child, names: seq<JsString>, shape: Shape)
    requires names != []
    decreases |names|, 0
  {
    c.name == names[0]
    && (if |names| == 1 then NodeShape(c.node) == shape
        else c.node.DirNode? && InTree(c.node.children, names[1..], shape))
  }

  // ---- the graph, path by path -------------------------------------------

  /** What an entry is, with a link followed. */
  function TargetOf(e: Entry): Option<Target>
  {
    match e
    case Plain(target) => Some(target)
    case Link(resolved) => resolved
  }

  ghost predicate Lists(g: Graph, id: nat, name: JsString, e: Entry)
  {
    id in g && g[id].Some? && Named(name, e) in g[id].value
  }

  /** From `route[0]`, each name leads to the next directory. */
  ghost predicate Route(g: Graph, names: seq<JsString>, route: seq<nat>)
  {
    |route| == |names| + 1 && forall i :: 0 <= i < |names| ==> LeadsTo(g, route[i], names[i], route[i + 1])
  }

  ghost predicate LeadsTo(g: Graph, id: nat, name: JsString, to: nat)
  {
    exists e :: Lists(g, id, name, e) && TargetOf(e) == Some(Folder(to))
  }

  predicate Once(route: seq<nat>)
  {
    forall i, j :: 0 <= i < j < |route| ==> route[i] != route[j]
  }

  /** What an entry is at the end of a route; nothing if it cannot be read. */
  function EntryShape(e: Entry, active: set<nat>): Option<Shape>
  {
    match TargetOf(e)
    case None => None
    case Some(Regular(None)) => None
    case Some(Regular(Some(bytes))) => Some(FileShape(e.Link?, bytes))
    case Some(Special) => Some(OtherShape(e.Link?))
    case Some(Folder(id)) => Some(if id in active then CycleShape(e.Link?) else DirShape(e.Link?))
  }

  /** "a/b/c", below `dir`. */
  function PathFrom(dir: JsString, names: seq<JsString>): JsString
  {
    if names == [] then dir else Join(PathFrom(dir, names[..|names| - 1]), names[|names| - 1])
  }

  /** Neither the path nor a directory above it is listed as excluded. */
  predicate Shown(names: seq<JsString>, exclusions: seq<JsString>)
  {
    forall i :: 0 < i <= |names| ==> PathFrom([], names[..i]) !in exclusions
  }

  function Members(route: seq<nat>): set<nat>
  {
    set x | x in route
  }

  /** The graph has this path from `root`, ending at this. */
  ghost predicate InGraph(g: Graph, root: nat, exclusions: seq<JsString>, names: seq<JsString>, shape: Shape)
  {
    names != [] && Shown(names, exclusions)
    && exists route: seq<nat>, e: Entry :: route != [] && route[0] == root && Ends(g, names, route, e)
                                          && EntryShape(e, Members(route)) == Some(shape)
  }

  /** A route without repetition to a directory that lists `e` under the last name. */
  ghost predicate Ends(g: Graph, names: seq<JsString>, route: seq<nat>, e: Entry)
  {
    names != [] && Route(g, names[..|names| - 1], route) && Once(route)
    && Lists(g, route[|route| - 1], names[|names| - 1], e)
  }

  // ---- step 1: the tree follows the walk ---------------------------------

  /** The same as `InGraph`, from the top down and with the directories above given. */
  ghost predicate Down(g: Graph, id: nat, active: set<nat>, dir: JsString, exclusions: seq<JsString>,
                       names: seq<JsString>, shape: Shape)
    decreases |names|
  {
    names != [] && exists e :: DownBy(g, id, active, dir, exclusions, names, shape, e)
  }

  ghost predicate DownBy(g: Graph, id: nat, active: set<nat>, dir: JsString, exclusions: seq<JsString>,
                         names: seq<JsString>, shape: Shape, e: Entry)
    requires names != []
    decreases |names|, 0
  {
    var here := active + {id};
    && Lists(g, id, names[0], e) && !Excluded(Join(dir, names[0]), exclusions)
    && if |names| == 1 then EntryShape(e, here) == Some(shape)
       else match TargetOf(e)
         case Some(Folder(to)) => to !in here && Down(g, to, here, Join(dir, names[0]), exclusions, names[1..], shape)
         case _ => false
  }

  /** The children are the entries that are not excluded, each with its node. */
  lemma {:induction false} ChildrenAre(g: Graph, items: Listing, active: set<nat>, dir: JsString,
                                       exclusions: seq<JsString>, c: Child)
    requires UnfoldItems(g, items, active, dir, exclusions).Some?
    ensures c in UnfoldItems(g, items, active, dir, exclusions).value
            <==> exists e :: Named(c.name, e) in items && ChildOf(g, e, active, dir, exclusions, c)
  {
    hide NodeOf, Excluded, Join;
    if items != [] {
      var item, rest := items[0], items[1..];
      ChildrenAre(g, rest, active, dir, exclusions, c);
      assert items == [item] + rest;
      var cs := UnfoldItems(g, items, active, dir, exclusions).value;
      if c in cs && c !in UnfoldItems(g, rest, active, dir, exclusions).value {
        assert Named(c.name, item.value) in items && ChildOf(g, item.value, active, dir, exclusions, c);
      }
      if e :| Named(c.name, e) in items && ChildOf(g, e, active, dir, exclusions, c) {
        if Named(c.name, e) in rest {
          assert c in UnfoldItems(g, rest, active, dir, exclusions).value;
        } else {
          assert item == Named(c.name, e);
        }
      }
    }
  }

  ghost predicate ChildOf(g: Graph, e: Entry, active: set<nat>, dir: JsString, exclusions: seq<JsString>, c: Child)
  {
    !Excluded(Join(dir, c.name), exclusions) && NodeOf(g, e, active, Join(dir, c.name), exclusions) == Some(c.node)
  }

  /** Every entry of a walked directory that is not excluded has a node. */
  lemma {:induction false} AllRead(g: Graph, items: Listing, active: set<nat>, dir: JsString,
                                   exclusions: seq<JsString>, item: Named<Entry>)
    requires UnfoldItems(g, items, active, dir, exclusions).Some?
    requires item in items && !Excluded(Join(dir, item.name), exclusions)
    ensures NodeOf(g, item.value, active, Join(dir, item.name), exclusions).Some?
  {
    hide NodeOf, Excluded, Join;
    if items[0] != item {
      assert items == [items[0]] + items[1..];
      AllRead(g, items[1..], active, dir, exclusions, item);
    }
  }

  /** A node by what its entry is. */
  lemma {:induction false} NodeShapes(g: Graph, e: Entry, active: set<nat>, path: JsString, exclusions: seq<JsString>)
    requires NodeOf(g, e, active, path, exclusions).Some?
    ensures var n := NodeOf(g, e, active, path, exclusions).value;
            && EntryShape(e, active) == Some(NodeShape(n))
            && (n.DirNode? <==> exists to :: TargetOf(e) == Some(Folder(to)) && to !in active)
            && (n.DirNode? ==> var to := TargetOf(e).value.id;
                               to !in active && Unfold(g, to, active, path, exclusions) == Some(n.children))
  {
    hide Unfold;
  }

  lemma {:induction false} TreeDown(g: Graph, id: nat, active: set<nat>, dir: JsString, exclusions: seq<JsString>,
                                    names: seq<JsString>, shape: Shape)
    requires id !in active && Unfold(g, id, active, dir, exclusions).Some?
    ensures InTree(Unfold(g, id, active, dir, exclusions).value, names, shape)
            <==> Down(g, id, active, dir, exclusions, names, shape)
    decreases |names|
  {
    if names != [] {
      var items, here, cs := Sort(g[id].value), active + {id}, Unfold(g, id, active, dir, exclusions).value;
      forall x: Named<Entry>
        ensures x in items <==> x in g[id].value
      {
        SortMembers(g[id].value, x);
      }
      hide Sort, UnfoldItems, NodeOf, Unfold, Excluded, Join;
      assert UnfoldItems(g, items, here, dir, exclusions) == Some(cs) by {
        UnfoldIs(g, id, active, dir, exclusions);
      }
      if c :| c in cs && InChild(c, names, shape) {
        ChildrenAre(g, items, here, dir, exclusions, c);
        var e :| Named(c.name, e) in items && ChildOf(g, e, here, dir, exclusions, c);
        ChildDown(g, id, active, dir, exclusions, names, shape, c, e);
        assert DownBy(g, id, active, dir, exclusions, names, shape, e);
      }
      if e :| DownBy(g, id, active, dir, exclusions, names, shape, e) {
        AllRead(g, items, here, dir, exclusions, Named(names[0], e));
        var c := Child(names[0], NodeOf(g, e, here, Join(dir, names[0]), exclusions).value);
        assert ChildOf(g, e, here, dir, exclusions, c);
        ChildrenAre(g, items, here, dir, exclusions, c);
        ChildDown(g, id, active, dir, exclusions, names, shape, c, e);
        assert InChild(c, names, shape);
      }
    }
  }

  lemma {:induction false} UnfoldIs(g: Graph, id: nat, active: set<nat>, dir: JsString, exclusions: seq<JsString>)
    requires id !in active && Unfold(g, id, active, dir, exclusions).Some?
    ensures id in g && g[id].Some?
    ensures UnfoldItems(g, Sort(g[id].value), active + {id}, dir, exclusions) == Unfold(g, id, active, dir, exclusions)
  {
  }

  lemma {:induction false} ChildDown(g: Graph, id: nat, active: set<nat>, dir: JsString, exclusions: seq<JsString>,
                                     names: seq<JsString>, shape: Shape, c: Child, e: Entry)
    requires id !in active && names != [] && c.name == names[0] && Lists(g, id, names[0], e)
    requires ChildOf(g, e, active + {id}, dir, exclusions, c)
    ensures InChild(c, names, shape) <==> DownBy(g, id, active, dir, exclusions, names, shape, e)
    decreases |names|, 0
  {
    var here, path := active + {id}, Join(dir, names[0]);
    NodeShapes(g, e, here, path, exclusions);
    hide NodeOf, Unfold, Excluded, Join;
    if |names| > 1 && c.node.DirNode? {
      var to := TargetOf(e).value.id;
      TreeDown(g, to, here, path, exclusions, names[1..], shape);
    }
  }

  // ---- step 2: from the top down to whole routes --------------------------

  /** Nothing on the way from `dir` is excluded. */
  predicate Open(dir: JsString, names: seq<JsString>, exclusions: seq<JsString>)
  {
    forall i :: 0 < i <= |names| ==> !Excluded(PathFrom(dir, names[..i]), exclusions)
  }

  /** A route from `id` that avoids `active` and itself. */
  ghost predicate Clear(g: Graph, id: nat, active: set<nat>, names: seq<JsString>, route: seq<nat>)
  {
    && route != [] && route[0] == id && Route(g, names, route) && Once(route)
    && (forall i :: 0 <= i < |route| ==> route[i] !in active)
  }

  /** A clear route, and what the path ends at. */
  ghost predicate Along(g: Graph, id: nat, active: set<nat>, names: seq<JsString>, shape: Shape, route: seq<nat>, e: Entry)
  {
    && names != [] && Clear(g, id, active, names[..|names| - 1], route)
    && Lists(g, route[|route| - 1], names[|names| - 1], e)
    && EntryShape(e, active + Members(route)) == Some(shape)
  }

  lemma {:induction false} PathFromCons(dir: JsString, name: JsString, rest: seq<JsString>)
    ensures PathFrom(dir, [name] + rest) == PathFrom(Join(dir, name), rest)
    decreases |rest|
  {
    hide Join;
    var names := [name] + rest;
    if rest == [] {
      assert names == [name] && names[..0] == [];
    } else {
      assert names[..|names| - 1] == [name] + rest[..|rest| - 1];
      PathFromCons(dir, name, rest[..|rest| - 1]);
    }
  }

  lemma {:induction false} OpenCons(dir: JsString, names: seq<JsString>, exclusions: seq<JsString>)
    requires names != []
    ensures Open(dir, names, exclusions)
            <==> !Excluded(Join(dir, names[0]), exclusions) && Open(Join(dir, names[0]), names[1..], exclusions)
  {
    hide Excluded, Join;
    var n0, rest := names[0], names[1..];
    assert names == [n0] + rest && names[..1] == [n0] + [];
    PathFromCons(dir, n0, []);
    assert PathFrom(Join(dir, n0), []) == Join(dir, n0);
    forall i | 0 < i <= |rest|
      ensures PathFrom(dir, names[..i + 1]) == PathFrom(Join(dir, n0), rest[..i])
    {
      assert names[..i + 1] == [n0] + rest[..i];
      PathFromCons(dir, n0, rest[..i]);
    }
    if Open(dir, names, exclusions) {
      forall i | 0 < i <= |rest|
        ensures !Excluded(PathFrom(Join(dir, n0), rest[..i]), exclusions)
      {
        assert !Excluded(PathFrom(dir, names[..i + 1]), exclusions);
      }
    }
    if !Excluded(Join(dir, n0), exclusions) && Open(Join(dir, n0), rest, exclusions) {
      forall i | 0 < i <= |names|
        ensures !Excluded(PathFrom(dir, names[..i]), exclusions)
      {
        if i > 1 {
          assert PathFrom(dir, names[..i - 1 + 1]) == PathFrom(Join(dir, n0), rest[..i - 1]);
        }
      }
    }
  }

  lemma {:induction false} RouteCons(g: Graph, id: nat, names: seq<JsString>, route: seq<nat>)
    requires names != [] && route != []
    ensures Route(g, names, [id] + route) <==> LeadsTo(g, id, names[0], route[0]) && Route(g, names[1..], route)
  {
    hide LeadsTo;
    var whole, rest := [id] + route, names[1..];
    if Route(g, names, whole) {
      assert LeadsTo(g, whole[0], names[0], whole[1]);
      forall i | 0 <= i < |rest|
        ensures LeadsTo(g, route[i], rest[i], route[i + 1])
      {
        assert LeadsTo(g, whole[i + 1], names[i + 1], whole[i + 2]);
      }
    }
    if LeadsTo(g, id, names[0], route[0]) && Route(g, rest, route) {
      forall i | 0 <= i < |names|
        ensures LeadsTo(g, whole[i], names[i], whole[i + 1])
      {
        if i > 0 {
          assert LeadsTo(g, route[i - 1], rest[i - 1], route[i]);
        }
      }
    }
  }

  lemma {:induction false} OnceCons(id: nat, route: seq<nat>)
    ensures Once([id] + route) <==> Once(route) && id !in route
  {
    var whole := [id] + route;
    if Once(whole) {
      forall i, j | 0 <= i < j < |route|
        ensures route[i] != route[j]
      {
        assert whole[i + 1] != whole[j + 1];
      }
      forall i | 0 <= i < |route|
        ensures route[i] != id
      {
        assert whole[0] != whole[i + 1];
      }
    }
  }

  lemma {:induction false} MembersCons(id: nat, route: seq<nat>)
    ensures Members([id] + route) == {id} + Members(route)
  {
    assert id in [id] + route;
    assert forall x :: x in route ==> x in [id] + route;
  }

  lemma {:induction false} ClearCons(g: Graph, id: nat, active: set<nat>, names: seq<JsString>, route: seq<nat>)
    requires names != [] && id !in active && route != []
    ensures Clear(g, id, active, names, [id] + route)
            <==> && LeadsTo(g, id, names[0], route[0]) && route[0] !in active + {id}
                 && Clear(g, route[0], active + {id}, names[1..], route)
  {
    hide LeadsTo, Route, Once;
    var whole := [id] + route;
    RouteCons(g, id, names, route);
    OnceCons(id, route);
    assert forall i :: 0 <= i < |route| ==> whole[i + 1] == route[i];
    if Clear(g, id, active, names, whole) {
      assert forall i :: 0 <= i < |route| ==> route[i] in route;
    }
  }

  /** One step down a longer path. */
  lemma {:induction false} AlongCons(g: Graph, id: nat, active: set<nat>, names: seq<JsString>, shape: Shape,
                                     route: seq<nat>, e: Entry)
    requires |names| > 1 && id !in active && route != []
    ensures Along(g, id, active, names, shape, [id] + route, e)
            <==> && LeadsTo(g, id, names[0], route[0]) && route[0] !in active + {id}
                 && Along(g, route[0], active + {id}, names[1..], shape, route, e)
  {
    hide LeadsTo, EntryShape, Lists, Clear;
    var whole, rest := [id] + route, names[1..];
    assert names[..|names| - 1][1..] == rest[..|rest| - 1] && rest[|rest| - 1] == names[|names| - 1];
    ClearCons(g, id, active, names[..|names| - 1], route);
    MembersCons(id, route);
    assert active + Members(whole) == active + {id} + Members(route);
    assert whole[|whole| - 1] == route[|route| - 1];
  }

  lemma {:induction false} AlongOne(g: Graph, id: nat, active: set<nat>, names: seq<JsString>, shape: Shape,
                                    route: seq<nat>, e: Entry)
    requires |names| == 1 && id !in active
    ensures Along(g, id, active, names, shape, route, e)
            <==> route == [id] && Lists(g, id, names[0], e) && EntryShape(e, active + {id}) == Some(shape)
  {
    hide EntryShape, Lists;
    assert names[..0] == [];
    if |route| == 1 && route[0] == id {
      assert route == [id] && Members(route) == {id};
    }
  }

  lemma {:induction false} DownIsAlong(g: Graph, id: nat, active: set<nat>, dir: JsString, exclusions: seq<JsString>,
                                       names: seq<JsString>, shape: Shape)
    requires id !in active && names != []
    ensures Down(g, id, active, dir, exclusions, names, shape)
            <==> Open(dir, names, exclusions) && exists route, e :: Along(g, id, active, names, shape, route, e)
    decreases |names|
  {
    hide Excluded, Along, Open, Lists, EntryShape, Join;
    OpenCons(dir, names, exclusions);
    var path, rest := Join(dir, names[0]), names[1..];
    if |names| == 1 {
      OpenNothing(path, rest, exclusions);
      if e :| DownBy(g, id, active, dir, exclusions, names, shape, e) {
        AlongOne(g, id, active, names, shape, [id], e);
      }
      if route, e :| Along(g, id, active, names, shape, route, e) {
        AlongOne(g, id, active, names, shape, route, e);
        assert Open(dir, names, exclusions) ==> DownBy(g, id, active, dir, exclusions, names, shape, e);
      }
    } else {
      if e :| DownBy(g, id, active, dir, exclusions, names, shape, e) {
        var to := TargetOf(e).value.id;
        assert LeadsTo(g, id, names[0], to);
        DownIsAlong(g, to, active + {id}, path, exclusions, rest, shape);
        var route, last :| Along(g, to, active + {id}, rest, shape, route, last);
        RouteStart(g, to, active + {id}, rest, shape, route, last);
        AlongCons(g, id, active, names, shape, route, last);
      }
      if route, last :| Along(g, id, active, names, shape, route, last) {
        LongRoute(g, id, active, names, shape, route, last);
        var more := route[1..];
        assert route == [id] + more;
        AlongCons(g, id, active, names, shape, more, last);
        DownIsAlong(g, more[0], active + {id}, path, exclusions, rest, shape);
        if Open(dir, names, exclusions) {
          var e :| Lists(g, id, names[0], e) && TargetOf(e) == Some(Folder(more[0]));
          assert DownBy(g, id, active, dir, exclusions, names, shape, e);
        }
      }
    }
  }

  lemma {:induction false} OpenNothing(dir: JsString, names: seq<JsString>, exclusions: seq<JsString>)
    requires names == []
    ensures Open(dir, names, exclusions)
  {
  }

  lemma {:induction false} RouteStart(g: Graph, id: nat, active: set<nat>, names: seq<JsString>, shape: Shape,
                                      route: seq<nat>, e: Entry)
    requires Along(g, id, active, names, shape, route, e)
    ensures route != [] && route[0] == id
  {
  }

  lemma {:induction false} LongRoute(g: Graph, id: nat, active: set<nat>, names: seq<JsString>, shape: Shape,
                                     route: seq<nat>, e: Entry)
    requires Along(g, id, active, names, shape, route, e) && |names| > 1
    ensures |route| > 1 && route[0] == id
  {
  }

  // ---- step 3: what is excluded ------------------------------------------

  predicate ValidNames(names: seq<JsString>)
  {
    forall i :: 0 <= i < |names| ==> ValidName(names[i])
  }

  /**
    An entry is left out exactly when its path or that of a directory above it is
    listed. Names hold no slash, so a listed path only cuts at a whole name.
   */
  lemma {:induction false} ExcludedExactly(names: seq<JsString>, exclusions: seq<JsString>)
    requires names != [] && ValidNames(names)
    ensures Excluded(PathFrom([], names), exclusions) <==> !Shown(names, exclusions)
  {
    var path := PathFrom([], names);
    hide PathFrom;
    if k :| 0 <= k < |exclusions| && (path == exclusions[k] || exclusions[k] + [47] <= path) {
      assert names[..|names|] == names;
      if path != exclusions[k] {
        var i := CutAtName(names, exclusions[k]);
        assert PathFrom([], names[..i]) in exclusions;
      }
    }
    if !Shown(names, exclusions) {
      var i :| 0 < i <= |names| && PathFrom([], names[..i]) in exclusions;
      var k :| 0 <= k < |exclusions| && exclusions[k] == PathFrom([], names[..i]);
      if i == |names| {
        assert names[..i] == names;
      } else {
        PrefixPath(names, i);
      }
    }
  }

  /** A directory's path and a slash begin every path below it. */
  lemma {:induction false} PrefixPath(names: seq<JsString>, i: nat)
    requires 0 < i < |names| && ValidNames(names)
    ensures PathFrom([], names[..i]) + [47] <= PathFrom([], names)
    decreases |names|
  {
    var n := |names| - 1;
    var up := names[..n];
    NonEmptyPath(up);
    if i == n {
      assert names[..i] == up;
    } else {
      assert up[..i] == names[..i];
      PrefixPath(up, i);
      hide PathFrom;
      assert PathFrom([], up) <= Join(PathFrom([], up), names[n]);
      assert PathFrom([], names) == Join(PathFrom([], up), names[n]) by {
        PathStep(names);
      }
    }
  }

  lemma {:induction false} PathStep(names: seq<JsString>)
    requires names != []
    ensures PathFrom([], names) == Join(PathFrom([], names[..|names| - 1]), names[|names| - 1])
  {
  }

  lemma {:induction false} NonEmptyPath(names: seq<JsString>)
    requires ValidNames(names) && names != []
    ensures PathFrom([], names) != []
  {
  }

  /** What precedes a slash in a path is the path of a directory above. */
  lemma {:induction false} CutAtName(names: seq<JsString>, x: JsString) returns (i: nat)
    requires names != [] && ValidNames(names) && x + [47] <= PathFrom([], names)
    ensures 0 < i < |names| && PathFrom([], names[..i]) == x
    decreases |names|
  {
    var n := |names| - 1;
    var up, last, path := names[..n], names[n], PathFrom([], names);
    PathStep(names);
    hide PathFrom;
    assert path[|x|] == 47 by {
      assert (x + [47])[|x|] == 47;
    }
    if n == 0 {
      OneNameNoSlash(names);
      assert false;
    } else {
      NonEmptyPath(up);
      var p := PathFrom([], up);
      assert path == p + [47] + last;
      if |x| < |p| {
        assert x + [47] <= p;
        i := CutAtName(up, x);
        assert up[..i] == names[..i];
      } else {
        SlashAt(p, last, |x|);
        assert x == path[..|x|] == p;
        i := n;
      }
    }
  }

  lemma {:induction false} OneNameNoSlash(names: seq<JsString>)
    requires |names| == 1 && ValidNames(names)
    ensures 47 !in PathFrom([], names)
  {
    assert names[..0] == [];
  }

  lemma {:induction false} SlashAt(p: JsString, last: JsString, k: nat)
    requires ValidName(last) && |p| <= k < |p + [47] + last|
    ensures (p + [47] + last)[k] == 47 ==> k == |p|
  {
    if k > |p| {
      assert (p + [47] + last)[k] == last[k - |p| - 1];
    }
  }

  lemma {:induction false} OpenIsShown(names: seq<JsString>, exclusions: seq<JsString>)
    requires ValidNames(names)
    ensures Open([], names, exclusions) <==> Shown(names, exclusions)
  {
    hide Excluded, PathFrom;
    if Open([], names, exclusions) && names != [] {
      assert names[..|names|] == names;
      ExcludedExactly(names, exclusions);
    }
    if Shown(names, exclusions) {
      forall i | 0 < i <= |names|
        ensures !Excluded(PathFrom([], names[..i]), exclusions)
      {
        assert forall j :: 0 < j <= i ==> names[..i][..j] == names[..j];
        ExcludedExactly(names[..i], exclusions);
      }
    }
  }

  // ---- the theorem -------------------------------------------------------

  lemma {:induction false} RouteNames(g: Graph, root: nat, names: seq<JsString>, shape: Shape, route: seq<nat>, e: Entry)
    requires Proper(g) && Along(g, root, {}, names, shape, route, e)
    ensures ValidNames(names)
  {
    forall i | 0 <= i < |names|
      ensures ValidName(names[i])
    {
      if i < |names| - 1 {
        assert LeadsTo(g, route[i], names[..|names| - 1][i], route[i + 1]);
      }
    }
  }

  /**
    The tree has a path, with these bytes at its end, if and only if the graph has it:
    a route of listed entries and links that visits no directory twice, with nothing on
    it excluded. A directory already on the route is a cycle mark.
   */
  lemma {:induction false} TreeExact(g: Graph, root: nat, exclusions: seq<JsString>, names: seq<JsString>, shape: Shape)
    requires Proper(g) && Unfold(g, root, {}, [], exclusions).Some?
    ensures InTree(Unfold(g, root, {}, [], exclusions).value, names, shape)
            <==> InGraph(g, root, exclusions, names, shape)
  {
    if names != [] {
      TreeDown(g, root, {}, [], exclusions, names, shape);
      DownIsAlong(g, root, {}, [], exclusions, names, shape);
      hide Unfold, Down, Proper, Open, Shown, EntryShape, Ends;
      if route, e :| Along(g, root, {}, names, shape, route, e) {
        RouteNames(g, root, names, shape, route, e);
        OpenIsShown(names, exclusions);
        assert {} + Members(route) == Members(route);
      }
      if InGraph(g, root, exclusions, names, shape) {
        var route: seq<nat>, e: Entry :| route != [] && route[0] == root && Ends(g, names, route, e)
                                         && EntryShape(e, Members(route)) == Some(shape);
        assert {} + Members(route) == Members(route);
        assert Along(g, root, {}, names, shape, route, e);
      }
    }
  }

  // ---- when there is no tree ---------------------------------------------

  /** A link that leads nowhere, or a file that cannot be read. */
  predicate Broken(e: Entry)
  {
    match TargetOf(e)
    case None => true
    case Some(Regular(content)) => content.None?
    case _ => false
  }

  /** The directory cannot be listed, or lists something broken that is not excluded. */
  ghost predicate Blocks(g: Graph, id: nat, path: JsString, exclusions: seq<JsString>)
  {
    id !in g || g[id].None?
    || exists name, e :: Lists(g, id, name, e) && Broken(e) && !Excluded(Join(path, name), exclusions)
  }

  ghost predicate StuckAt(g: Graph, id: nat, active: set<nat>, dir: JsString, exclusions: seq<JsString>,
                          names: seq<JsString>)
    decreases |names|
  {
    if names == [] then Blocks(g, id, dir, exclusions)
    else
      !Excluded(Join(dir, names[0]), exclusions)
      && exists to :: LeadsTo(g, id, names[0], to) && to !in active + {id}
                      && StuckAt(g, to, active + {id}, Join(dir, names[0]), exclusions, names[1..])
  }

  lemma {:induction false} ItemsFail(g: Graph, items: Listing, active: set<nat>, dir: JsString, exclusions: seq<JsString>)
    ensures UnfoldItems(g, items, active, dir, exclusions).None?
            <==> exists item :: item in items && !Excluded(Join(dir, item.name), exclusions)
                                && NodeOf(g, item.value, active, Join(dir, item.name), exclusions).None?
  {
    hide NodeOf, Excluded, Join;
    if items != [] {
      ItemsFail(g, items[1..], active, dir, exclusions);
      assert items == [items[0]] + items[1..];
    }
  }

  lemma {:induction false} UnfoldNone(g: Graph, id: nat, active: set<nat>, dir: JsString, exclusions: seq<JsString>)
    requires id !in active
    ensures Unfold(g, id, active, dir, exclusions).None?
            <==> id !in g || g[id].None?
                 || exists item :: item in g[id].value && !Excluded(Join(dir, item.name), exclusions)
                                   && NodeOf(g, item.value, active + {id}, Join(dir, item.name), exclusions).None?
  {
    if id in g && g[id].Some? {
      var items := Sort(g[id].value);
      ItemsFail(g, items, active + {id}, dir, exclusions);
      hide NodeOf, Excluded, Join, UnfoldItems;
      forall x: Named<Entry>
        ensures x in items <==> x in g[id].value
      {
        SortMembers(g[id].value, x);
      }
    }
  }

  lemma {:induction false} NodeNone(g: Graph, e: Entry, active: set<nat>, path: JsString, exclusions: seq<JsString>)
    ensures NodeOf(g, e, active, path, exclusions).None?
            <==> Broken(e) || (TargetOf(e).Some? && TargetOf(e).value.Folder? && TargetOf(e).value.id !in active
                               && Unfold(g, TargetOf(e).value.id, active, path, exclusions).None?)
  {
    hide Unfold;
  }

  lemma {:induction false} StuckNone(g: Graph, id: nat, active: set<nat>, dir: JsString, exclusions: seq<JsString>,
                                     names: seq<JsString>)
    requires id !in active && StuckAt(g, id, active, dir, exclusions, names)
    ensures Unfold(g, id, active, dir, exclusions).None?
    decreases |names|
  {
    UnfoldNone(g, id, active, dir, exclusions);
    hide Unfold, NodeOf, Excluded, Join;
    var here := active + {id};
    if id in g && g[id].Some? {
      if names == [] {
        var name, e :| Lists(g, id, name, e) && Broken(e) && !Excluded(Join(dir, name), exclusions);
        NodeNone(g, e, here, Join(dir, name), exclusions);
        assert Named(name, e).name == name && Named(name, e).value == e;
      } else {
        var path := Join(dir, names[0]);
        var to :| LeadsTo(g, id, names[0], to) && to !in here && StuckAt(g, to, here, path, exclusions, names[1..]);
        var e :| Lists(g, id, names[0], e) && TargetOf(e) == Some(Folder(to));
        StuckNone(g, to, here, path, exclusions, names[1..]);
        NodeNone(g, e, here, path, exclusions);
        assert Named(names[0], e).name == names[0] && Named(names[0], e).value == e;
      }
    }
  }

  lemma {:induction false} NoneStuck(g: Graph, id: nat, active: set<nat>, dir: JsString, exclusions: seq<JsString>)
    returns (names: seq<JsString>)
    requires id !in active && Unfold(g, id, active, dir, exclusions).None?
    ensures StuckAt(g, id, active, dir, exclusions, names)
    decreases g.Keys - active
  {
    UnfoldNone(g, id, active, dir, exclusions);
    hide Unfold, NodeOf, Excluded, Join;
    var here := active + {id};
    names := [];
    if id in g && g[id].Some? {
      var item :| item in g[id].value && !Excluded(Join(dir, item.name), exclusions)
                  && NodeOf(g, item.value, here, Join(dir, item.name), exclusions).None?;
      var path, e := Join(dir, item.name), item.value;
      NodeNone(g, e, here, path, exclusions);
      assert Named(item.name, e) == item && Lists(g, id, item.name, e);
      if !Broken(e) {
        var to := TargetOf(e).value.id;
        assert LeadsTo(g, id, item.name, to);
        var rest := NoneStuck(g, to, here, path, exclusions);
        names := [item.name] + rest;
        assert names[1..] == rest;
      }
    }
  }

  /** A clear route to a directory that blocks. */
  ghost predicate Stuck(g: Graph, id: nat, active: set<nat>, dir: JsString, exclusions: seq<JsString>,
                        names: seq<JsString>, route: seq<nat>)
  {
    Clear(g, id, active, names, route) && Blocks(g, route[|route| - 1], PathFrom(dir, names), exclusions)
  }

  lemma {:induction false} StuckCons(g: Graph, id: nat, active: set<nat>, dir: JsString, exclusions: seq<JsString>,
                                     names: seq<JsString>, route: seq<nat>)
    requires names != [] && id !in active && route != []
    ensures Stuck(g, id, active, dir, exclusions, names, [id] + route)
            <==> && LeadsTo(g, id, names[0], route[0]) && route[0] !in active + {id}
                 && Stuck(g, route[0], active + {id}, Join(dir, names[0]), exclusions, names[1..], route)
  {
    hide LeadsTo, Blocks, Join, Clear, PathFrom;
    var whole, rest := [id] + route, names[1..];
    ClearCons(g, id, active, names, route);
    assert names == [names[0]] + rest;
    PathFromCons(dir, names[0], rest);
    ClearEnds(g, id, active, names, whole);
    ClearEnds(g, route[0], active + {id}, rest, route);
    assert whole[|whole| - 1] == route[|route| - 1];
  }

  lemma {:induction false} ClearEnds(g: Graph, id: nat, active: set<nat>, names: seq<JsString>, route: seq<nat>)
    ensures Clear(g, id, active, names, route) ==> route != []
  {
  }

  lemma {:induction false} StuckIsRoute(g: Graph, id: nat, active: set<nat>, dir: JsString, exclusions: seq<JsString>,
                                        names: seq<JsString>)
    requires id !in active
    ensures StuckAt(g, id, active, dir, exclusions, names)
            <==> Open(dir, names, exclusions) && exists route :: Stuck(g, id, active, dir, exclusions, names, route)
    decreases |names|
  {
    if names == [] {
      if Blocks(g, id, dir, exclusions) {
        assert Stuck(g, id, active, dir, exclusions, names, [id]);
      }
    } else {
      hide Excluded, Stuck, Open, LeadsTo, Join;
      OpenCons(dir, names, exclusions);
      var path, rest := Join(dir, names[0]), names[1..];
      if StuckAt(g, id, active, dir, exclusions, names) {
        var to :| LeadsTo(g, id, names[0], to) && to !in active + {id} && StuckAt(g, to, active + {id}, path, exclusions, rest);
        StuckIsRoute(g, to, active + {id}, path, exclusions, rest);
        var route :| Stuck(g, to, active + {id}, path, exclusions, rest, route);
        StuckStart(g, to, active + {id}, path, exclusions, rest, route);
        StuckCons(g, id, active, dir, exclusions, names, route);
      }
      if route :| Stuck(g, id, active, dir, exclusions, names, route) {
        StuckStart(g, id, active, dir, exclusions, names, route);
        var more := route[1..];
        assert route == [id] + more;
        StuckCons(g, id, active, dir, exclusions, names, more);
        StuckIsRoute(g, more[0], active + {id}, path, exclusions, rest);
        assert Open(dir, names, exclusions) ==> StuckAt(g, more[0], active + {id}, path, exclusions, rest);
      }
    }
  }

  lemma {:induction false} StuckStart(g: Graph, id: nat, active: set<nat>, dir: JsString, exclusions: seq<JsString>,
                                      names: seq<JsString>, route: seq<nat>)
    requires Stuck(g, id, active, dir, exclusions, names, route)
    ensures |route| == |names| + 1 && route[0] == id
  {
  }

  /** Something on a shown path cannot be read: the directory at its end, or an entry there. */
  ghost predicate Unreadable(g: Graph, root: nat, exclusions: seq<JsString>, names: seq<JsString>, route: seq<nat>)
  {
    && route != [] && route[0] == root && Route(g, names, route) && Once(route) && Shown(names, exclusions)
    && var last := route[|route| - 1];
       last !in g || g[last].None?
       || exists name, e :: Lists(g, last, name, e) && Broken(e) && Shown(names + [name], exclusions)
  }

  lemma {:induction false} BlocksShown(g: Graph, id: nat, exclusions: seq<JsString>, names: seq<JsString>)
    requires Proper(g) && ValidNames(names)
    ensures Blocks(g, id, PathFrom([], names), exclusions)
            <==> id !in g || g[id].None? || exists name, e :: Lists(g, id, name, e) && Broken(e) && Shown(names + [name], exclusions)
  {
    hide Broken, Shown, Excluded;
    forall name, e | Lists(g, id, name, e)
      ensures Excluded(Join(PathFrom([], names), name), exclusions) <==> !Shown(names + [name], exclusions)
    {
      var all := names + [name];
      assert all[..|all| - 1] == names && ValidName(name);
      PathStep(all);
      ExcludedExactly(all, exclusions);
    }
  }

  lemma {:induction false} StuckNames(g: Graph, names: seq<JsString>, route: seq<nat>)
    requires Proper(g) && Route(g, names, route)
    ensures ValidNames(names)
  {
    forall i | 0 <= i < |names|
      ensures ValidName(names[i])
    {
      assert LeadsTo(g, route[i], names[i], route[i + 1]);
    }
  }

  /**
    The walk fails if and only if some path that is not excluded, and visits no
    directory twice, ends at a directory that cannot be listed, a file that cannot be
    read, or a link that leads nowhere.
   */
  lemma {:induction false} FailsExactly(g: Graph, root: nat, exclusions: seq<JsString>)
    requires Proper(g)
    ensures Unfold(g, root, {}, [], exclusions).None?
            <==> exists names, route :: Unreadable(g, root, exclusions, names, route)
  {
    hide Proper, Blocks, Open, Shown, Route, Once;
    if Unfold(g, root, {}, [], exclusions).None? {
      var names := NoneStuck(g, root, {}, [], exclusions);
      hide Unfold;
      StuckIsRoute(g, root, {}, [], exclusions, names);
      var route :| Stuck(g, root, {}, [], exclusions, names, route);
      StuckNames(g, names, route);
      OpenIsShown(names, exclusions);
      BlocksShown(g, route[|route| - 1], exclusions, names);
      assert Unreadable(g, root, exclusions, names, route);
    }
    if names, route :| Unreadable(g, root, exclusions, names, route) {
      hide Unfold;
      StuckNames(g, names, route);
      OpenIsShown(names, exclusions);
      BlocksShown(g, route[|route| - 1], exclusions, names);
      assert Stuck(g, root, {}, [], exclusions, names, route);
      StuckIsRoute(g, root, {}, [], exclusions, names);
      StuckNone(g, root, {}, [], exclusions, names);
    }
  }

  // ---- what is hashed ----------------------------------------------------

  function KindOfShape(s: Shape): Kind
  {
    match s
    case FileShape(link, _) => if link then SymlinkFile else File
    case OtherShape(link) => if link then SymlinkOther else Other
    case CycleShape(link) => if link then SymlinkDirectory else Directory
    case DirShape(link) => if link then SymlinkDirectory else Directory
  }

  /** The record of a path, or the cycle mark behind it. */
  predicate RecordFor(path: JsString, s: Shape, r: Record)
  {
    || r == Record(KindOfShape(s), path, if s.FileShape? then s.bytes else [])
    || (s.CycleShape? && r == Record(Cycle, path, []))
  }

  ghost predicate Recorded(cs: seq<Child>, dir: JsString, r: Record)
  {
    exists names, s :: InTree(cs, names, s) && RecordFor(PathFrom(dir, names), s, r)
  }

  ghost predicate ChildRecorded(c: Child, dir: JsString, r: Record)
  {
    exists names, s :: names != [] && InChild(c, names, s) && RecordFor(PathFrom(dir, names), s, r)
  }

  /** The records are those of the tree's paths, no more and no fewer. */
  lemma {:induction false} RecordsExact(cs: seq<Child>, dir: JsString, r: Record)
    ensures r in Records(cs, dir) <==> Recorded(cs, dir, r)
    decreases cs, 1
  {
    hide HeadRecord, BodyRecords, RecordFor, InChild;
    if cs != [] {
      var c, rest := cs[0], cs[1..];
      assert cs == [c] + rest;
      RecordsExact(rest, dir, r);
      ChildRecords(c, dir, r);
      if Recorded(cs, dir, r) {
        var names, s :| InTree(cs, names, s) && RecordFor(PathFrom(dir, names), s, r);
        var d :| d in cs && InChild(d, names, s);
        assert d == c ==> ChildRecorded(c, dir, r);
        assert d in rest ==> InTree(rest, names, s);
      }
      if Recorded(rest, dir, r) {
        var names, s :| InTree(rest, names, s) && RecordFor(PathFrom(dir, names), s, r);
        assert InTree(cs, names, s);
      }
      if ChildRecorded(c, dir, r) {
        var names, s :| names != [] && InChild(c, names, s) && RecordFor(PathFrom(dir, names), s, r);
        assert InTree(cs, names, s);
      }
    }
  }

  lemma {:induction false} ChildRecords(c: Child, dir: JsString, r: Record)
    ensures r == HeadRecord(c, dir) || r in BodyRecords(c.node, Join(dir, c.name)) <==> ChildRecorded(c, dir, r)
    decreases c.node, 0
  {
    var path, one, s := Join(dir, c.name), [c.name], NodeShape(c.node);
    assert one[..0] == [] && PathFrom(dir, one) == path && InChild(c, one, s);
    if c.node.DirNode? {
      RecordsExact(c.node.children, path, r);
      if Recorded(c.node.children, path, r) {
        var rest, t :| InTree(c.node.children, rest, t) && RecordFor(PathFrom(path, rest), t, r);
        var names := [c.name] + rest;
        assert names[1..] == rest;
        PathFromCons(dir, c.name, rest);
        assert InChild(c, names, t);
      }
    }
    if ChildRecorded(c, dir, r) {
      var names, t :| names != [] && InChild(c, names, t) && RecordFor(PathFrom(dir, names), t, r);
      if |names| == 1 {
        assert names == one;
      } else {
        assert names == [c.name] + names[1..];
        PathFromCons(dir, c.name, names[1..]);
      }
    }
  }

  // ---- equal hashes, path by path ----------------------------------------

  ghost predicate SamePaths(a: seq<Child>, b: seq<Child>)
  {
    forall names, s :: InTree(a, names, s) <==> InTree(b, names, s)
  }

  lemma {:induction false} OneOfName(cs: seq<Child>, c: Child, d: Child)
    requires Tidy(cs) && c in cs && d in cs && c.name == d.name
    ensures c == d
  {
    hide Less;
    var i :| 0 <= i < |cs| && cs[i] == c;
    var j :| 0 <= j < |cs| && cs[j] == d;
    LessIrreflexive(c.name);
  }

  lemma {:induction false} ChildPaths(cs: seq<Child>, c: Child, rest: seq<JsString>, s: Shape)
    requires Tidy(cs) && c in cs && c.node.DirNode? && rest != []
    ensures InTree(cs, [c.name] + rest, s) <==> InTree(c.node.children, rest, s)
  {
    hide Tidy;
    var names := [c.name] + rest;
    assert names[1..] == rest;
    if InTree(cs, names, s) {
      var d :| d in cs && InChild(d, names, s);
      OneOfName(cs, c, d);
    }
    if InTree(c.node.children, rest, s) {
      assert InChild(c, names, s);
    }
  }

  lemma {:induction false} Counterpart(a: seq<Child>, b: seq<Child>, c: Child) returns (d: Child)
    requires Tidy(a) && Tidy(b) && SamePaths(a, b) && c in a
    ensures d in b && d.name == c.name && NodeShape(d.node) == NodeShape(c.node)
    ensures c.node.DirNode? ==> SamePaths(c.node.children, d.node.children)
  {
    hide Tidy;
    var one, shape := [c.name], NodeShape(c.node);
    assert InChild(c, one, shape);
    assert InTree(a, one, shape);
    d :| d in b && InChild(d, one, shape);
    if c.node.DirNode? {
      forall rest, s
        ensures InTree(c.node.children, rest, s) <==> InTree(d.node.children, rest, s)
      {
        if rest != [] {
          ChildPaths(a, c, rest, s);
          ChildPaths(b, d, rest, s);
        }
      }
    }
  }

  function AsNamed(cs: seq<Child>): (r: seq<Named<Node>>)
    ensures |r| == |cs| && forall i :: 0 <= i < |cs| ==> r[i] == Named(cs[i].name, cs[i].node)
  {
    seq(|cs|, i requires 0 <= i < |cs| => Named(cs[i].name, cs[i].node))
  }

  lemma {:induction false} SameChildren(a: seq<Child>, b: seq<Child>)
    requires Tidy(a) && Tidy(b) && forall c :: c in a <==> c in b
    ensures a == b
  {
    hide Less;
    var x, y := AsNamed(a), AsNamed(b);
    forall n: Named<Node>
      ensures n in x <==> n in y
    {
      NamedMember(a, n);
      NamedMember(b, n);
      assert Child(n.name, n.value) in a <==> Child(n.name, n.value) in b;
    }
    AscendingUnique(x, y);
  }

  lemma {:induction false} NamedMember(cs: seq<Child>, n: Named<Node>)
    ensures n in AsNamed(cs) <==> Child(n.name, n.value) in cs
  {
    var c := Child(n.name, n.value);
    if c in cs {
      var i :| 0 <= i < |cs| && cs[i] == c;
      assert AsNamed(cs)[i] == n;
    }
  }

  /** A tidy tree is determined by its paths and what they end at. */
  lemma {:induction false} PathsDetermineTree(a: seq<Child>, b: seq<Child>)
    requires Tidy(a) && Tidy(b) && SamePaths(a, b)
    ensures a == b
    decreases a
  {
    forall c
      ensures c in a <==> c in b
    {
      if c in a {
        var d := Counterpart(a, b, c);
        TidyChild(a, c);
        TidyChild(b, d);
        if c.node.DirNode? {
          PathsDetermineTree(c.node.children, d.node.children);
        }
        assert c == d;
      }
      if c in b {
        var d := Counterpart(b, a, c);
        TidyChild(b, c);
        TidyChild(a, d);
        if c.node.DirNode? {
          PathsDetermineTree(d.node.children, c.node.children);
        }
        assert c == d;
      }
    }
    SameChildren(a, b);
  }

  lemma {:induction false} TidyChild(cs: seq<Child>, c: Child)
    requires Tidy(cs) && c in cs
    ensures c.node.DirNode? ==> Tidy(c.node.children)
  {
  }

  /**
    Two fingerprints are equal if and only if the two filesystems show the same paths,
    ending at the same things, with the same bytes in every file.
   */
  lemma {:induction false} EqualHashesEqualPaths(g: Graph, root: nat, gx: seq<JsString>, h: Graph, top: nat,
                                                 hx: seq<JsString>)
    requires Proper(g) && Proper(h)
    requires Unfold(g, root, {}, [], gx).Some? && Unfold(h, top, {}, [], hx).Some?
    ensures Hashed(Unfold(g, root, {}, [], gx).value) == Hashed(Unfold(h, top, {}, [], hx).value)
            <==> forall names, s :: InGraph(g, root, gx, names, s) <==> InGraph(h, top, hx, names, s)
  {
    hide Unfold, Hashed, Tidy, InGraph, InTree, Proper;
    EqualHashesEqualTrees(g, root, gx, h, top, hx);
    UnfoldTidy(g, root, {}, [], gx);
    UnfoldTidy(h, top, {}, [], hx);
    var a, b := Unfold(g, root, {}, [], gx).value, Unfold(h, top, {}, [], hx).value;
    forall names, s
      ensures InTree(a, names, s) <==> InGraph(g, root, gx, names, s)
      ensures InTree(b, names, s) <==> InGraph(h, top, hx, names, s)
    {
      TreeExact(g, root, gx, names, s);
      TreeExact(h, top, hx, names, s);
    }
    if forall names, s :: InGraph(g, root, gx, names, s) <==> InGraph(h, top, hx, names, s) {
      PathsDetermineTree(a, b);
    }
  }
}
