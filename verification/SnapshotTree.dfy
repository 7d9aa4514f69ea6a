/**
  A persistence snapshot lists exactly the tree.

  `Inv` follows the breadth-first walk with a ghost map from each directory taken
  off the queue to the children visited so far. From it come the two directions of
  `SnapshotExact`, and that equal snapshots mean equal trees.
 */
module SnapshotTree {
  import opened Basics
  import opened Unicode
  import opened NameOrder
  import opened DirectoryTree
  import opened Snapshot
  import opened SnapshotTheorems

  // ---- the tree, without a walk ------------------------------------------

  function PathOf(names: seq<JsString>): (p: JsString)
    ensures |p| >= |Root()|
  {
    if names == [] then Root() else Join(PathOf(names[..|names| - 1]), names[|names| - 1])
  }

  /** Going down from the root by these names leads to an entry with this stat. */
  ghost predicate At(host: Host, names: seq<JsString>, stat: Stat)
  {
    if names == [] then host.root == Some(stat)
    else
      var up := names[..|names| - 1];
      && PathOf(up) in host.dirs && Named(names[|names| - 1], stat) in host.dirs[PathOf(up)]
      && exists s :: At(host, up, s) && IsDirectory(s.mode)
  }

  // ---- splitting a path --------------------------------------------------

  function Parent(p: JsString): JsString
  {
    if p == [] then [] else if p[|p| - 1] == 47 then p[..|p| - 1] else Parent(p[..|p| - 1])
  }

  function Base(p: JsString): JsString
  {
    if p == [] || p[|p| - 1] == 47 then [] else Base(p[..|p| - 1]) + [p[|p| - 1]]
  }

  lemma {:induction false} SplitJoin(d: JsString, n: JsString)
    requires d != [] && 47 !in n
    ensures Parent(Join(d, n)) == d && Base(Join(d, n)) == n
    decreases n
  {
    var p := Join(d, n);
    if n == [] {
      assert p[..|p| - 1] == d;
    } else {
      var m := n[..|n| - 1];
      assert p[..|p| - 1] == Join(d, m);
      assert n == m + [n[|n| - 1]];
      SplitJoin(d, m);
    }
  }

  // ---- the invariant -----------------------------------------------------

  predicate Has(result: seq<FixtureEntry>, path: JsString, stat: Stat)
  {
    exists i :: 0 <= i < |result| && result[i].name == path && result[i].value.stat == stat
  }

  type Seen = map<JsString, seq<Named<Stat>>>

  /** An entry is the root's, or a visited child of a visited directory. */
  predicate Explained(root: Stat, seen: Seen, e: FixtureEntry)
  {
    if |e.name| <= |Root()| then e.name == Root() && e.value.stat == root
    else Parent(e.name) in seen && Named(Base(e.name), e.value.stat) in seen[Parent(e.name)]
  }

  ghost predicate Sound(root: Stat, seen: Seen, st: State)
  {
    forall i :: 0 <= i < |st.result| ==> Explained(root, seen, st.result[i])
  }

  /** Every visited child is recorded, under a good name. */
  ghost predicate Recorded(seen: Seen, st: State)
  {
    forall d, c :: d in seen && c in seen[d] ==> !BadName(c.name) && Has(st.result, Join(d, c.name), c.value)
  }

  /** The queue and the visited directories are distinct directory entries of the result. */
  ghost predicate Queued(seen: Seen, st: State)
  {
    && (forall i, j :: 0 <= i < j < |st.queue| ==> st.queue[i] != st.queue[j])
    && (forall i :: 0 <= i < |st.queue| ==> st.queue[i] !in seen && IsDir(st.result, st.queue[i]))
    && (forall d :: d in seen ==> IsDir(st.result, d))
  }

  predicate IsDir(result: seq<FixtureEntry>, path: JsString)
  {
    |path| >= |Root()|
    && exists i :: 0 <= i < |result| && result[i].name == path && IsDirectory(result[i].value.stat.mode)
  }

  /** No directory entry is forgotten. */
  ghost predicate Covered(seen: Seen, st: State)
  {
    forall i :: 0 <= i < |st.result| && IsDirectory(st.result[i].value.stat.mode)
                ==> st.result[i].name in seen || st.result[i].name in st.queue
  }

  ghost predicate Inv(root: Stat, seen: Seen, st: State)
  {
    && Distinct(st.result) && Has(st.result, Root(), root)
    && Sound(root, seen, st) && Recorded(seen, st) && Queued(seen, st) && Covered(seen, st)
  }

  lemma {:induction false} HasGrows(result: seq<FixtureEntry>, e: FixtureEntry, path: JsString, stat: Stat)
    requires Has(result, path, stat)
    ensures Has(result + [e], path, stat)
  {
    var i :| 0 <= i < |result| && result[i].name == path && result[i].value.stat == stat;
    assert (result + [e])[i] == result[i];
  }

  lemma {:induction false} IsDirGrows(result: seq<FixtureEntry>, e: FixtureEntry, path: JsString)
    requires IsDir(result, path)
    ensures IsDir(result + [e], path)
  {
    var i :| 0 <= i < |result| && result[i].name == path && IsDirectory(result[i].value.stat.mode);
    assert (result + [e])[i] == result[i];
  }

  // ---- one child ---------------------------------------------------------

  lemma {:induction false} DescribeStat(files: Files, path: JsString, stat: Stat, b: Budgets)
    ensures Describe(files, path, stat, b).Some? ==> Describe(files, path, stat, b).value.meta.stat == stat
  {
  }

  lemma {:induction false} PathFresh(root: Stat, seen: Seen, cur: JsString, c: Named<Stat>, st: State)
    requires Sound(root, seen, st) && cur in seen && |cur| >= |Root()| && 47 !in c.name
    requires forall x :: x in seen[cur] ==> x.name != c.name
    ensures forall i :: 0 <= i < |st.result| ==> st.result[i].name != Join(cur, c.name)
  {
    SplitJoin(cur, c.name);
    forall i | 0 <= i < |st.result| ensures st.result[i].name != Join(cur, c.name) {
      assert Explained(root, seen, st.result[i]);
    }
  }

  /** What the walk adds for a child, when it succeeds. */
  lemma {:induction false} ChildAdds(files: Files, dir: JsString, c: Named<Stat>, st: State) returns (e: FixtureEntry)
    requires VisitChild(files, dir, c, st).Some?
    ensures var r := VisitChild(files, dir, c, st).value;
            && !BadName(c.name) && e.name == Join(dir, c.name) && e.value.stat == c.value
            && r.result == st.result + [e]
            && r.queue == if IsDirectory(c.value.mode) then st.queue + [e.name] else st.queue
  {
    hide Describe, BadName, Join;
    var path := Join(dir, c.name);
    DescribeStat(files, path, c.value, st.left);
    e := Named(path, Describe(files, path, c.value, st.left).value.meta);
    assert st.queue + [] == st.queue;
  }

  lemma {:induction false} SoundGrows(root: Stat, seen: Seen, cur: JsString, c: Named<Stat>, st: State,
                                      e: FixtureEntry, st': State)
    requires Sound(root, seen, st) && cur in seen && |cur| >= |Root()| && 47 !in c.name
    requires e.name == Join(cur, c.name) && e.value.stat == c.value && st'.result == st.result + [e]
    ensures Sound(root, seen[cur := seen[cur] + [c]], st')
  {
    SplitJoin(cur, c.name);
    assert Named(c.name, c.value) == c;
    forall i | 0 <= i < |st.result| ensures Explained(root, seen[cur := seen[cur] + [c]], st.result[i]) {
      assert Explained(root, seen, st.result[i]);
    }
  }

  lemma {:induction false} RecordedGrows(seen: Seen, cur: JsString, c: Named<Stat>, st: State, e: FixtureEntry,
                                         st': State)
    requires Recorded(seen, st) && cur in seen && !BadName(c.name)
    requires e.name == Join(cur, c.name) && e.value.stat == c.value && st'.result == st.result + [e]
    ensures Recorded(seen[cur := seen[cur] + [c]], st')
  {
    hide BadName, Join;
    var seen': Seen := seen[cur := seen[cur] + [c]];
    forall d: JsString, x: Named<Stat> | d in seen' && x in seen'[d]
      ensures !BadName(x.name) && Has(st'.result, Join(d, x.name), x.value)
    {
      if x in seen[d] {
        HasGrows(st.result, e, Join(d, x.name), x.value);
      } else {
        assert st'.result[|st.result|] == e;
      }
    }
  }

  lemma {:induction false} QueuedGrows(seen: Seen, cur: JsString, c: Named<Stat>, st: State, e: FixtureEntry,
                                       st': State)
    requires Queued(seen, st) && cur in seen && e.value.stat == c.value && |e.name| >= |Root()|
    requires forall i :: 0 <= i < |st.result| ==> st.result[i].name != e.name
    requires st'.result == st.result + [e]
    requires st'.queue == if IsDirectory(c.value.mode) then st.queue + [e.name] else st.queue
    ensures Queued(seen[cur := seen[cur] + [c]], st')
  {
    hide IsDirectory, Root;
    var seen': Seen := seen[cur := seen[cur] + [c]];
    assert !IsDir(st.result, e.name);
    assert IsDirectory(c.value.mode) ==> IsDir(st'.result, e.name) by {
      assert st'.result[|st.result|] == e;
    }
    forall d | IsDir(st.result, d) ensures IsDir(st'.result, d) {
      IsDirGrows(st.result, e, d);
    }
    hide IsDir;
    forall i | 0 <= i < |st'.queue| ensures st'.queue[i] !in seen' && IsDir(st'.result, st'.queue[i]) {
      assert i < |st.queue| ==> st'.queue[i] == st.queue[i];
    }
  }

  lemma {:induction false} CoveredGrows(seen: Seen, cur: JsString, c: Named<Stat>, st: State, e: FixtureEntry,
                                        st': State)
    requires Covered(seen, st) && cur in seen && e.value.stat == c.value
    requires st'.result == st.result + [e]
    requires st'.queue == if IsDirectory(c.value.mode) then st.queue + [e.name] else st.queue
    ensures Covered(seen[cur := seen[cur] + [c]], st')
  {
  }

  lemma {:induction false} VisitedLong(seen: Seen, st: State, cur: JsString, name: JsString)
    requires Queued(seen, st) && cur in seen && !BadName(name)
    ensures |cur| >= |Root()| && |Join(cur, name)| >= |Root()| && 47 !in name
  {
  }

  lemma {:induction false} ChildKeepsInv(files: Files, root: Stat, seen: Seen, cur: JsString, c: Named<Stat>, st: State)
    requires Inv(root, seen, st) && cur in seen && VisitChild(files, cur, c, st).Some?
    requires forall x :: x in seen[cur] ==> x.name != c.name
    ensures Inv(root, seen[cur := seen[cur] + [c]], VisitChild(files, cur, c, st).value)
  {
    hide Join, VisitChild, Sound, Recorded, Queued, Covered, Root, BadName;
    var e := ChildAdds(files, cur, c, st);
    var st' := VisitChild(files, cur, c, st).value;
    VisitedLong(seen, st, cur, c.name);
    PathFresh(root, seen, cur, c, st);
    SoundGrows(root, seen, cur, c, st, e, st');
    RecordedGrows(seen, cur, c, st, e, st');
    QueuedGrows(seen, cur, c, st, e, st');
    CoveredGrows(seen, cur, c, st, e, st');
    HasGrows(st.result, e, Root(), root);
  }

  // ---- whole runs --------------------------------------------------------

  lemma {:induction false} AllKeepInv(files: Files, root: Stat, seen: Seen, cur: JsString, items: seq<Named<Stat>>,
                                      st: State)
    requires Inv(root, seen, st) && cur in seen && Distinct(seen[cur] + items)
    requires |st.result| <= MAX_ENTRIES && VisitAll(files, cur, items, st).Some?
    ensures Inv(root, seen[cur := seen[cur] + items], VisitAll(files, cur, items, st).value)
    decreases items
  {
    hide Inv, VisitChild;
    if items == [] {
      assert seen[cur] + items == seen[cur];
      assert seen[cur := seen[cur]] == seen;
    } else {
      var all, c := seen[cur] + items, items[0];
      forall x | x in seen[cur] ensures x.name != c.name {
        var i :| 0 <= i < |seen[cur]| && seen[cur][i] == x;
        assert all[i] == x && all[|seen[cur]|] == c;
      }
      ChildKeepsInv(files, root, seen, cur, c, st);
      var seen': Seen := seen[cur := seen[cur] + [c]];
      assert seen'[cur] + items[1..] == all;
      AllKeepInv(files, root, seen', cur, items[1..], VisitChild(files, cur, c, st).value);
      assert seen'[cur := all] == seen[cur := all];
    }
  }

  lemma {:induction false} PopKeepsInv(root: Stat, seen: Seen, st: State)
    requires Inv(root, seen, st) && st.queue != []
    ensures Inv(root, seen[st.queue[0] := []], st.(queue := st.queue[1..]))
  {
    hide Root, BadName, Join, Has, IsDir;
    var cur, popped := st.queue[0], st.(queue := st.queue[1..]);
    var seen' := seen[cur := []];
    assert cur !in seen && st.queue == [cur] + popped.queue;
    forall i | 0 <= i < |st.result| ensures Explained(root, seen', st.result[i]) {
      assert Explained(root, seen, st.result[i]);
    }
  }

  /** Every visited directory's children were all visited. */
  ghost predicate Complete(host: Host, seen: Seen)
  {
    forall d :: d in seen ==> d in host.dirs && SameEntries(seen[d], host.dirs[d])
  }

  /** Visited directories exist, and their visited children are listed there. */
  ghost predicate Within(host: Host, seen: Seen)
  {
    forall d :: d in seen ==> d in host.dirs && forall c :: c in seen[d] ==> c in host.dirs[d]
  }

  lemma {:induction false} CompleteWithin(host: Host, seen: Seen)
    requires Complete(host, seen)
    ensures Within(host, seen)
  {
  }

  lemma {:induction false} AscendingDistinct(s: seq<Named<Stat>>)
    requires Ascending(s)
    ensures Distinct(s)
  {
    forall i, j | 0 <= i < j < |s| ensures s[i].name != s[j].name {
      LessIrreflexive(s[i].name);
    }
  }

  /** One round of the walk: the first queued directory is visited completely. */
  lemma {:induction false} RoundKeepsInv(host: Host, root: Stat, seen: Seen, st: State)
    requires Proper(host) && Inv(root, seen, st) && Complete(host, seen) && st.queue != [] && st.queue[0] in host.dirs
    requires |st.result| <= MAX_ENTRIES
    requires VisitAll(host.files, st.queue[0], Sort(host.dirs[st.queue[0]]), st.(queue := st.queue[1..])).Some?
    ensures var cur := st.queue[0]; var items := Sort(host.dirs[cur]);
            && Inv(root, seen[cur := items], VisitAll(host.files, cur, items, st.(queue := st.queue[1..])).value)
            && Complete(host, seen[cur := items])
  {
    hide Inv, VisitAll, Sort, SameEntries, Distinct;
    var cur, popped := st.queue[0], st.(queue := st.queue[1..]);
    var items := Sort(host.dirs[cur]);
    PopKeepsInv(root, seen, st);
    SortCorrect(host.dirs[cur]);
    AscendingDistinct(items);
    assert [] + items == items;
    AllKeepInv(host.files, root, seen[cur := []], cur, items, popped);
    assert seen[cur := []][cur := items] == seen[cur := items];
  }

  lemma {:induction false} VisitKeepsInv(host: Host, root: Stat, seen: Seen, st: State) returns (all: Seen)
    requires Proper(host) && Inv(root, seen, st) && Complete(host, seen)
    requires |st.result| <= MAX_ENTRIES && Visit(host, st).Some?
    ensures Inv(root, all, Visit(host, st).value) && Complete(host, all)
    decreases MAX_ENTRIES - |st.result| + |st.queue|
  {
    hide Inv, VisitAll, Sort, Proper, Complete;
    if st.queue == [] {
      all := seen;
    } else {
      var cur, popped := st.queue[0], st.(queue := st.queue[1..]);
      var items := Sort(host.dirs[cur]);
      RoundKeepsInv(host, root, seen, st);
      all := VisitKeepsInv(host, root, seen[cur := items], VisitAll(host.files, cur, items, popped).value);
    }
  }

  lemma {:induction false} StartInv(root: Stat)
    requires IsDirectory(root.mode)
    ensures Inv(root, map[], Start(root))
  {
    hide Root;
    var st := Start(root);
    assert st.result[0].name == Root() && st.result[0].value.stat == root;
  }

  // ---- both directions ---------------------------------------------------

  ghost predicate GoodNames(names: seq<JsString>)
  {
    forall i :: 0 <= i < |names| ==> !BadName(names[i])
  }

  lemma {:induction false} AtIsRecorded(host: Host, root: Stat, all: Seen, end: State, names: seq<JsString>, stat: Stat)
    requires Inv(root, all, end) && Complete(host, all) && end.queue == [] && host.root == Some(root)
    requires At(host, names, stat)
    ensures Has(end.result, PathOf(names), stat) && GoodNames(names)
  {
    hide BadName, Join, Root, Distinct, Sound, Queued;
    if names != [] {
      var up, last := names[..|names| - 1], names[|names| - 1];
      var s :| At(host, up, s) && IsDirectory(s.mode);
      AtIsRecorded(host, root, all, end, up, s);
      assert PathOf(up) in all;
      assert Named(last, stat) in all[PathOf(up)];
      assert names == up + [last];
    }
  }

  lemma {:induction false} JoinSplit(p: JsString)
    ensures |Parent(p)| <= |p| && (Parent(p) != [] ==> Join(Parent(p), Base(p)) == p && |Parent(p)| < |p|)
  {
    if p != [] && p[|p| - 1] != 47 {
      var q := p[..|p| - 1];
      JoinSplit(q);
      assert p == q + [p[|p| - 1]];
    } else if p != [] {
      assert p == p[..|p| - 1] + [47];
    }
  }

  lemma {:induction false} RecordedIsAt(host: Host, root: Stat, all: Seen, end: State, path: JsString, stat: Stat)
    returns (names: seq<JsString>)
    requires Inv(root, all, end) && Within(host, all) && host.root == Some(root)
    requires Has(end.result, path, stat)
    ensures PathOf(names) == path && At(host, names, stat) && GoodNames(names)
    decreases |path|
  {
    hide BadName, Join, Root, Inv, Complete, Has, At;
    if |path| <= |Root()| {
      RootRecorded(root, all, end, path, stat);
      names := [];
      assert At(host, names, stat) by {
        RootAt(host, stat);
      }
    } else {
      var s := ParentRecorded(host, root, all, end, path, stat);
      var up := RecordedIsAt(host, root, all, end, Parent(path), s);
      names := up + [Base(path)];
      ChildAt(host, up, s, Base(path), stat);
    }
  }

  lemma {:induction false} RootRecorded(root: Stat, all: Seen, end: State, path: JsString, stat: Stat)
    requires Inv(root, all, end) && Has(end.result, path, stat) && |path| <= |Root()|
    ensures path == Root() && stat == root
  {
    hide Root, Distinct, Recorded, Queued, Covered;
    var i :| 0 <= i < |end.result| && end.result[i].name == path && end.result[i].value.stat == stat;
    assert Explained(root, all, end.result[i]);
  }

  lemma {:induction false} RootAt(host: Host, stat: Stat)
    requires host.root == Some(stat)
    ensures At(host, [], stat)
  {
  }

  lemma {:induction false} ChildAt(host: Host, up: seq<JsString>, s: Stat, last: JsString, stat: Stat)
    requires At(host, up, s) && IsDirectory(s.mode) && GoodNames(up) && !BadName(last)
    requires PathOf(up) in host.dirs && Named(last, stat) in host.dirs[PathOf(up)]
    ensures At(host, up + [last], stat) && PathOf(up + [last]) == Join(PathOf(up), last) && GoodNames(up + [last])
  {
    hide BadName, Join, Root;
    var names := up + [last];
    assert names[..|names| - 1] == up && names[|names| - 1] == last;
  }

  /** The directory of a recorded path is recorded, and lists it. */
  lemma {:induction false} ParentRecorded(host: Host, root: Stat, all: Seen, end: State, path: JsString, stat: Stat)
    returns (s: Stat)
    requires Inv(root, all, end) && Within(host, all) && Has(end.result, path, stat) && |path| > |Root()|
    ensures Has(end.result, Parent(path), s) && IsDirectory(s.mode) && !BadName(Base(path))
    ensures Join(Parent(path), Base(path)) == path && |Parent(path)| < |path|
    ensures Parent(path) in host.dirs && Named(Base(path), stat) in host.dirs[Parent(path)]
  {
    hide BadName, Join, Root, Distinct, Covered;
    var i :| 0 <= i < |end.result| && end.result[i].name == path && end.result[i].value.stat == stat;
    assert Explained(root, all, end.result[i]);
    var d, child := Parent(path), Named(Base(path), stat);
    JoinSplit(path);
    assert IsDir(end.result, d);
    var j :| 0 <= j < |end.result| && end.result[j].name == d && IsDirectory(end.result[j].value.stat.mode);
    s := end.result[j].value.stat;
    assert child in all[d] && child in host.dirs[d];
  }

  lemma {:induction false} HasSorted(a: seq<FixtureEntry>, b: seq<FixtureEntry>, path: JsString, stat: Stat)
    requires SameEntries(a, b)
    ensures Has(a, path, stat) <==> Has(b, path, stat)
  {
    if i :| 0 <= i < |a| && a[i].name == path && a[i].value.stat == stat {
      var e := a[i];
      assert e in a && e in b;
    }
    if i :| 0 <= i < |b| && b[i].name == path && b[i].value.stat == stat {
      var e := b[i];
      assert e in b && e in a;
    }
  }

  /** How a successful inspection ended. */
  lemma {:induction false} Ended(host: Host) returns (all: Seen, end: State)
    requires Proper(host) && Inspect(host).Some?
    ensures host.root.Some? && Inv(host.root.value, all, end) && Complete(host, all) && end.queue == []
    ensures Visit(host, Start(host.root.value)) == Some(end) && Inspect(host) == Some(Sort(end.result))
    ensures Ascending(Sort(end.result)) && SameEntries(Sort(end.result), end.result) && |Sort(end.result)| <= MAX_ENTRIES
  {
    hide Visit, Sort, Ascending, SameEntries;
    var root := host.root.value;
    StartInv(root);
    all := VisitKeepsInv(host, root, map[], Start(root));
    end := Visit(host, Start(root)).value;
    SortCorrect(end.result);
    SortLength(end.result);
  }

  /**
    The snapshot is strictly ascending by path, so it has no duplicates, and a path
    is in it with a stat exactly when the tree has that path with that stat.
   */
  lemma {:induction false} SnapshotExact(host: Host, path: JsString, stat: Stat)
    requires Proper(host) && Inspect(host).Some?
    ensures Ascending(Inspect(host).value) && |Inspect(host).value| <= MAX_ENTRIES
    ensures Has(Inspect(host).value, path, stat) <==> exists names :: PathOf(names) == path && At(host, names, stat)
  {
    hide Inspect, Inv, Complete, At, PathOf, Has, SameEntries, Ascending, Sort;
    var all, end := Ended(host);
    HasSorted(Sort(end.result), end.result, path, stat);
    if Has(end.result, path, stat) {
      CompleteWithin(host, all);
      var names := RecordedIsAt(host, host.root.value, all, end, path, stat);
      assert PathOf(names) == path && At(host, names, stat);
    }
    if names :| PathOf(names) == path && At(host, names, stat) {
      AtIsRecorded(host, host.root.value, all, end, names, stat);
    }
  }

  // ---- equal snapshots ---------------------------------------------------

  lemma {:induction false} PathInjective(a: seq<JsString>, b: seq<JsString>)
    requires GoodNames(a) && GoodNames(b) && PathOf(a) == PathOf(b)
    ensures a == b
  {
    hide Root;
    if a != [] && b != [] {
      var x, y := a[..|a| - 1], b[..|b| - 1];
      assert 47 !in a[|a| - 1] && 47 !in b[|b| - 1];
      SplitJoin(PathOf(x), a[|a| - 1]);
      SplitJoin(PathOf(y), b[|b| - 1]);
      PathInjective(x, y);
      assert a == x + [a[|a| - 1]] && b == y + [b[|b| - 1]];
    }
  }

  lemma {:induction false} EqualSnapshotsOneWay(h: Host, k: Host, names: seq<JsString>, stat: Stat)
    requires Proper(h) && Proper(k) && Inspect(h).Some? && Inspect(h) == Inspect(k)
    requires At(h, names, stat)
    ensures At(k, names, stat)
  {
    hide Inspect, Inv, Complete, At, PathOf, Has, SameEntries, Sort;
    var hs, hend := Ended(h);
    var ks, kend := Ended(k);
    AtIsRecorded(h, h.root.value, hs, hend, names, stat);
    HasSorted(Sort(hend.result), hend.result, PathOf(names), stat);
    HasSorted(Sort(kend.result), kend.result, PathOf(names), stat);
    CompleteWithin(k, ks);
    var same := RecordedIsAt(k, k.root.value, ks, kend, PathOf(names), stat);
    PathInjective(names, same);
  }

  // ---- contents ----------------------------------------------------------

  /** A digest that was made was fed this file's bytes. */
  predicate Faithful(files: Files, e: FixtureEntry)
  {
    && (e.value.sha.Some? ==> e.value.sha == Whole(files, e.name, e.value.stat.size))
    && (e.value.sample.Some? ==>
          e.value.sample == Samples(files, e.name, Offsets(e.value.stat.size), SampleLength(e.value.stat.size)))
  }

  predicate AllFaithful(files: Files, s: seq<FixtureEntry>)
  {
    forall i :: 0 <= i < |s| ==> Faithful(files, s[i])
  }

  lemma {:induction false} VisitAllFaithful(files: Files, dir: JsString, items: seq<Named<Stat>>, st: State)
    requires AllFaithful(files, st.result) && |st.result| <= MAX_ENTRIES && VisitAll(files, dir, items, st).Some?
    ensures AllFaithful(files, VisitAll(files, dir, items, st).value.result)
    decreases items
  {
    hide Whole, Samples, Offsets, SampleLength, BadName, Join;
    if items != [] {
      VisitAllFaithful(files, dir, items[1..], VisitChild(files, dir, items[0], st).value);
    }
  }

  lemma {:induction false} VisitFaithful(host: Host, st: State)
    requires AllFaithful(host.files, st.result) && |st.result| <= MAX_ENTRIES && Visit(host, st).Some?
    ensures AllFaithful(host.files, Visit(host, st).value.result)
    decreases MAX_ENTRIES - |st.result| + |st.queue|
  {
    hide VisitAll, Sort, AllFaithful;
    if st.queue != [] {
      var d, popped := st.queue[0], st.(queue := st.queue[1..]);
      VisitAllFaithful(host.files, d, Sort(host.dirs[d]), popped);
      VisitFaithful(host, VisitAll(host.files, d, Sort(host.dirs[d]), popped).value);
    }
  }

  /** The digests in a snapshot are those of the machine's files. */
  lemma {:induction false} DigestsFaithful(host: Host, e: FixtureEntry)
    requires Proper(host) && Inspect(host).Some? && e in Inspect(host).value
    ensures Faithful(host.files, e)
  {
    hide Visit, Sort, Inspect, Inv, Complete;
    var all, end := Ended(host);
    VisitFaithful(host, Start(host.root.value));
    assert e in end.result;
  }

  /**
    If a snapshot taken later is equal, the tree has the same paths with the same
    stats, and every file hashed whole or sampled has the same bytes there.
   */
  lemma {:induction false} EqualSnapshotsEqualTrees(h: Host, k: Host, names: seq<JsString>, stat: Stat, e: FixtureEntry)
    requires Proper(h) && Proper(k) && Inspect(h).Some? && Inspect(h) == Inspect(k)
    requires e in Inspect(h).value
    ensures At(h, names, stat) <==> At(k, names, stat)
    ensures e.value.sha.Some? ==> Whole(h.files, e.name, e.value.stat.size) == Whole(k.files, e.name, e.value.stat.size)
    ensures e.value.sample.Some? ==>
              var o, n := Offsets(e.value.stat.size), SampleLength(e.value.stat.size);
              Samples(h.files, e.name, o, n) == Samples(k.files, e.name, o, n)
  {
    hide Inspect, At, Whole, Samples, Offsets, SampleLength;
    if At(h, names, stat) {
      EqualSnapshotsOneWay(h, k, names, stat);
    }
    if At(k, names, stat) {
      EqualSnapshotsOneWay(k, h, names, stat);
    }
    DigestsFaithful(h, e);
    DigestsFaithful(k, e);
  }

  // ---- and back: equal trees give equal snapshots ------------------------

  ghost predicate SameTree(h: Host, k: Host)
  {
    forall names, stat :: At(h, names, stat) <==> At(k, names, stat)
  }

  /** Every directory of the tree can be listed. */
  ghost predicate Listable(host: Host)
  {
    forall names, stat :: At(host, names, stat) && IsDirectory(stat.mode) ==> PathOf(names) in host.dirs
  }

  lemma {:induction false} InspectedListable(host: Host)
    requires Proper(host) && Inspect(host).Some?
    ensures Listable(host)
  {
    var all, end := Ended(host);
    hide At, Inspect, Visit, Sort, Sound, Recorded;
    forall names, stat | At(host, names, stat) && IsDirectory(stat.mode)
      ensures PathOf(names) in host.dirs
    {
      AtIsRecorded(host, host.root.value, all, end, names, stat);
      assert IsDir(end.result, PathOf(names));
    }
  }

  lemma {:induction false} AllGrows(files: Files, dir: JsString, items: seq<Named<Stat>>, st: State)
    requires |st.result| <= MAX_ENTRIES && VisitAll(files, dir, items, st).Some?
    ensures st.result <= VisitAll(files, dir, items, st).value.result
    decreases items
  {
    if items != [] {
      AllGrows(files, dir, items[1..], VisitChild(files, dir, items[0], st).value);
    }
  }

  lemma {:induction false} VisitGrows(host: Host, st: State)
    requires |st.result| <= MAX_ENTRIES && Visit(host, st).Some?
    ensures st.result <= Visit(host, st).value.result
    decreases MAX_ENTRIES - |st.result| + |st.queue|
  {
    hide VisitAll, Sort;
    if st.queue != [] {
      var d, popped := st.queue[0], st.(queue := st.queue[1..]);
      var next := VisitAll(host.files, d, Sort(host.dirs[d]), popped).value;
      AllGrows(host.files, d, Sort(host.dirs[d]), popped);
      VisitGrows(host, next);
    }
  }

  /** Files that give an entry's digests give the same entry and the same budgets. */
  lemma {:induction false} DescribeAgrees(f: Files, g: Files, path: JsString, stat: Stat, b: Budgets)
    requires Describe(f, path, stat, b).Some? && Faithful(g, Named(path, Describe(f, path, stat, b).value.meta))
    ensures Describe(g, path, stat, b) == Describe(f, path, stat, b)
  {
    hide Whole, Samples, Offsets;
  }

  lemma {:induction false} AllAgree(f: Files, g: Files, dir: JsString, items: seq<Named<Stat>>, st: State)
    requires |st.result| <= MAX_ENTRIES && VisitAll(f, dir, items, st).Some?
    requires AllFaithful(g, VisitAll(f, dir, items, st).value.result)
    ensures VisitAll(g, dir, items, st) == VisitAll(f, dir, items, st)
    decreases items
  {
    hide Describe, Faithful, BadName, Join;
    if items != [] {
      var next := VisitChild(f, dir, items[0], st).value;
      AllGrows(f, dir, items[1..], next);
      var n, path := |st.result|, Join(dir, items[0].name);
      assert next.result[n] == VisitAll(f, dir, items, st).value.result[n];
      assert Faithful(g, next.result[n]);
      DescribeAgrees(f, g, path, items[0].value, st.left);
      AllAgree(f, g, dir, items[1..], next);
    }
  }

  lemma {:induction false} ListedIsAt(host: Host, names: seq<JsString>, s: Stat, child: Named<Stat>)
    requires At(host, names, s) && IsDirectory(s.mode) && PathOf(names) in host.dirs
    ensures child in host.dirs[PathOf(names)] <==> At(host, names + [child.name], child.value)
  {
    var down := names + [child.name];
    assert down[..|down| - 1] == names && Named(child.name, child.value) == child;
  }

  lemma {:induction false} SameListing(h: Host, k: Host, names: seq<JsString>, s: Stat)
    requires SameTree(h, k) && At(h, names, s) && IsDirectory(s.mode) && PathOf(names) in h.dirs && PathOf(names) in k.dirs
    ensures SameEntries(h.dirs[PathOf(names)], k.dirs[PathOf(names)])
  {
    hide At;
    assert At(k, names, s);
    forall x: Named<Stat>
      ensures x in h.dirs[PathOf(names)] <==> x in k.dirs[PathOf(names)]
    {
      ListedIsAt(h, names, s, x);
      ListedIsAt(k, names, s, x);
      assert At(h, names + [x.name], x.value) <==> At(k, names + [x.name], x.value);
    }
  }

  /** The first queued directory lists the same entries on both machines. */
  lemma {:induction false} FrontAgrees(h: Host, k: Host, root: Stat, seen: Seen, st: State)
    requires SameTree(h, k) && h.root == Some(root) && Inv(root, seen, st) && Complete(h, seen)
    requires st.queue != [] && st.queue[0] in h.dirs && Listable(k)
    ensures st.queue[0] in k.dirs && SameEntries(h.dirs[st.queue[0]], k.dirs[st.queue[0]])
  {
    hide At, PathOf, Complete, SameEntries, Root, Explained;
    var cur := st.queue[0];
    assert IsDir(st.result, cur);
    var i :| 0 <= i < |st.result| && st.result[i].name == cur && IsDirectory(st.result[i].value.stat.mode);
    var s := st.result[i].value.stat;
    CompleteWithin(h, seen);
    var names := RecordedIsAt(h, root, seen, st, cur, s);
    assert At(k, names, s);
    hide SameTree;
    SameListing(h, k, names, s);
  }

  lemma {:induction false} VisitAgrees(h: Host, k: Host, root: Stat, seen: Seen, st: State)
    requires Proper(h) && Proper(k) && SameTree(h, k) && h.root == Some(root)
    requires Inv(root, seen, st) && Complete(h, seen)
    requires |st.result| <= MAX_ENTRIES && Visit(h, st).Some? && Listable(k)
    requires AllFaithful(k.files, Visit(h, st).value.result)
    ensures Visit(h, st) == Visit(k, st)
    decreases MAX_ENTRIES - |st.result| + |st.queue|
  {
    hide Inv, VisitAll, Sort, Complete, SameTree, SameEntries, Distinct, Faithful, Listable;
    if st.queue != [] {
      var cur, popped := st.queue[0], st.(queue := st.queue[1..]);
      var items := Sort(h.dirs[cur]);
      FrontAgrees(h, k, root, seen, st);
      SortIgnoresOrder(h.dirs[cur], k.dirs[cur]);
      var next := VisitAll(h.files, cur, items, popped).value;
      VisitGrows(h, next);
      FaithfulPrefix(k.files, next.result, Visit(h, st).value.result);
      AllAgree(h.files, k.files, cur, items, popped);
      RoundKeepsInv(h, root, seen, st);
      VisitAgrees(h, k, root, seen[cur := items], next);
    }
  }

  lemma {:induction false} FaithfulPrefix(files: Files, a: seq<FixtureEntry>, b: seq<FixtureEntry>)
    requires a <= b && AllFaithful(files, b)
    ensures AllFaithful(files, a)
  {
  }

  lemma {:induction false} SortedFaithful(files: Files, s: seq<FixtureEntry>)
    requires Distinct(s) && AllFaithful(files, Sort(s))
    ensures AllFaithful(files, s)
  {
    hide Sort, Faithful;
    SortCorrect(s);
    forall i | 0 <= i < |s|
      ensures Faithful(files, s[i])
    {
      var e := s[i];
      assert e in s && e in Sort(s);
    }
  }

  /**
    A later inspection gives the same snapshot if and only if the trees have the same
    paths with the same stats, every directory can still be listed, and the files have
    the bytes that were digested.
   */
  lemma {:induction false} EqualSnapshotsIff(h: Host, k: Host)
    requires Proper(h) && Proper(k) && Inspect(h).Some?
    ensures Inspect(k) == Inspect(h) <==> SameTree(h, k) && Listable(k) && AllFaithful(k.files, Inspect(h).value)
  {
    hide Visit, Sort, Inv, Complete, At, Faithful, Listable;
    if Inspect(h) == Inspect(k) {
      SameSnapshots(h, k);
      InspectedListable(k);
    }
    if SameTree(h, k) && Listable(k) && AllFaithful(k.files, Inspect(h).value) {
      var all, end := Ended(h);
      var root := h.root.value;
      RootsAgree(h, k);
      InvDistinct(root, all, end);
      SortedFaithful(k.files, end.result);
      StartInv(root);
      NoneVisited(h);
      VisitAgrees(h, k, root, map[], Start(root));
    }
  }

  lemma {:induction false} NoneVisited(host: Host)
    ensures Complete(host, map[])
  {
  }

  lemma {:induction false} InvDistinct(root: Stat, seen: Seen, st: State)
    requires Inv(root, seen, st)
    ensures Distinct(st.result)
  {
  }

  lemma {:induction false} RootsAgree(h: Host, k: Host)
    requires SameTree(h, k) && h.root.Some?
    ensures k.root == h.root
  {
    assert At(h, [], h.root.value);
  }

  lemma {:induction false} SameSnapshots(h: Host, k: Host)
    requires Proper(h) && Proper(k) && Inspect(h).Some? && Inspect(h) == Inspect(k)
    ensures SameTree(h, k) && AllFaithful(k.files, Inspect(h).value)
  {
    hide Inspect, At, Faithful;
    forall names, stat
      ensures At(h, names, stat) <==> At(k, names, stat)
    {
      if At(h, names, stat) {
        EqualSnapshotsOneWay(h, k, names, stat);
      }
      if At(k, names, stat) {
        EqualSnapshotsOneWay(k, h, names, stat);
      }
    }
    var r := Inspect(h).value;
    forall i | 0 <= i < |r|
      ensures Faithful(k.files, r[i])
    {
      var e := r[i];
      assert e in r;
      DigestsFaithful(k, e);
    }
  }
}
