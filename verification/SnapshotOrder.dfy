/**
  The order of a snapshot's walk, and when it succeeds.

  Entries are visited breadth first: directory by directory in the order in which the
  directories were met, and by name within each (`BreadthFirst`). That order decides
  which files the budgets reach. `SucceedsExactly` says when there is a snapshot at all.
 */
module SnapshotOrder {
  import opened Basics
  import opened Unicode
  import opened NameOrder
  import opened DirectoryTree
  import opened Snapshot
  import opened SnapshotTheorems
  import opened SnapshotTree
  import opened SnapshotDigests

  // ---- breadth first -----------------------------------------------------

  /** Entry `a` is the directory of entry `i`. */
  predicate ParentAt(result: seq<FixtureEntry>, i: nat, a: nat)
  {
    i < |result| && a < |result| && result[a].name == Parent(result[i].name)
  }

  /** The directory of `i` comes before that of `j`, or they share it and `i` has the lesser name. */
  ghost predicate InOrder(result: seq<FixtureEntry>, i: nat, j: nat)
    requires i < |result| && j < |result|
  {
    forall a: nat, b: nat :: ParentAt(result, i, a) && ParentAt(result, j, b) ==>
      a < b || (a == b && Less(Base(result[i].name), Base(result[j].name)))
  }

  /** Every entry but the root stands behind its directory, which is at most the `c`-th entry. */
  ghost predicate Rooted(result: seq<FixtureEntry>, c: int)
  {
    forall i: nat :: 0 < i < |result| ==> Behind(result, i, c)
  }

  ghost predicate Behind(result: seq<FixtureEntry>, i: nat, c: int)
  {
    exists a: nat :: ParentAt(result, i, a) && a < i && a <= c
  }

  ghost predicate Sorted(result: seq<FixtureEntry>)
  {
    forall i: nat, j: nat :: 0 < i < j < |result| ==> InOrder(result, i, j)
  }

  /** The queue holds entries behind the `c`-th, in their order. */
  ghost predicate Waiting(result: seq<FixtureEntry>, queue: seq<JsString>, c: int)
  {
    && (forall q :: 0 <= q < |queue| ==> StandsBehind(result, queue[q], c))
    && (forall q, r, x: nat, y: nat ::
          0 <= q < r < |queue| && x < |result| && y < |result| && result[x].name == queue[q] && result[y].name == queue[r]
          ==> x < y)
  }

  ghost predicate StandsBehind(result: seq<FixtureEntry>, name: JsString, c: int)
  {
    exists x: nat :: x < |result| && c < x && result[x].name == name
  }

  ghost predicate Walked(st: State, c: int)
  {
    Distinct(st.result) && Rooted(st.result, c) && Sorted(st.result) && Waiting(st.result, st.queue, c)
  }

  /** What was visited in the `c`-th entry so far has lesser names than what is to come. */
  ghost predicate Ahead(result: seq<FixtureEntry>, c: nat, items: seq<Named<Stat>>)
  {
    && Ascending(items)
    && forall i: nat, x :: 0 < i < |result| && ParentAt(result, i, c) && x in items ==> Less(Base(result[i].name), x.name)
  }

  lemma {:induction false} RootedGrows(result: seq<FixtureEntry>, c: nat, e: FixtureEntry)
    requires Rooted(result, c) && c < |result| && Parent(e.name) == result[c].name
    ensures Rooted(result + [e], c)
  {
    hide Parent;
    var all := result + [e];
    forall i: nat | 0 < i < |all|
      ensures Behind(all, i, c)
    {
      if i < |result| {
        assert Behind(result, i, c);
        var a: nat :| ParentAt(result, i, a) && a < i && a <= c;
        assert ParentAt(all, i, a);
      } else {
        assert ParentAt(all, i, c);
      }
    }
  }

  lemma {:induction false} SortedGrows(result: seq<FixtureEntry>, c: nat, items: seq<Named<Stat>>, e: FixtureEntry)
    requires Distinct(result + [e]) && Sorted(result) && Rooted(result, c) && c < |result|
    requires items != [] && Ahead(result, c, items) && Parent(e.name) == result[c].name && Base(e.name) == items[0].name
    requires Parent(e.name) != e.name
    ensures Sorted(result + [e])
  {
    hide Parent, Base, Less;
    var all := result + [e];
    forall i: nat, j: nat | 0 < i < j < |all|
      ensures InOrder(all, i, j)
    {
      if j < |result| {
        assert InOrder(result, i, j) && Behind(result, i, c) && Behind(result, j, c);
        OrderKept(result, e, i, j);
      } else {
        LastInOrder(result, c, items, e, i);
      }
    }
  }

  lemma {:induction false} OrderKept(result: seq<FixtureEntry>, e: FixtureEntry, i: nat, j: nat)
    requires 0 < i < j < |result| && InOrder(result, i, j) && Distinct(result + [e])
    requires exists a: nat :: ParentAt(result, i, a)
    requires exists b: nat :: ParentAt(result, j, b)
    ensures InOrder(result + [e], i, j)
  {
    hide Parent, Base, Less;
    var all := result + [e];
    var a: nat :| ParentAt(result, i, a);
    var b: nat :| ParentAt(result, j, b);
    forall x: nat, y: nat | ParentAt(all, i, x) && ParentAt(all, j, y)
      ensures x < y || (x == y && Less(Base(all[i].name), Base(all[j].name)))
    {
      SameIndex(all, a, x);
      SameIndex(all, b, y);
    }
  }

  lemma {:induction false} SameIndex(s: seq<FixtureEntry>, a: nat, b: nat)
    requires Distinct(s) && a < |s| && b < |s| && s[a].name == s[b].name
    ensures a == b
  {
  }

  lemma {:induction false} LastInOrder(result: seq<FixtureEntry>, c: nat, items: seq<Named<Stat>>, e: FixtureEntry, i: nat)
    requires Distinct(result + [e]) && Rooted(result, c) && c < |result| && 0 < i < |result|
    requires items != [] && Ahead(result, c, items) && Parent(e.name) == result[c].name && Base(e.name) == items[0].name
    ensures InOrder(result + [e], i, |result|)
  {
    hide Parent, Base, Less;
    var all := result + [e];
    assert Behind(result, i, c);
    var a: nat :| ParentAt(result, i, a) && a < i && a <= c;
    forall x: nat, y: nat | ParentAt(all, i, x) && ParentAt(all, |result|, y)
      ensures x < y || (x == y && Less(Base(all[i].name), Base(all[|result|].name)))
    {
      SameIndex(all, a, x);
      SameIndex(all, c, y);
      assert items[0] in items;
    }
  }

  lemma {:induction false} WaitingGrows(result: seq<FixtureEntry>, queue: seq<JsString>, c: nat, e: FixtureEntry,
                                        queue': seq<JsString>)
    requires Waiting(result, queue, c) && Distinct(result + [e]) && c < |result|
    requires queue' == queue || queue' == queue + [e.name]
    ensures Waiting(result + [e], queue', c)
  {
    var all := result + [e];
    forall q | 0 <= q < |queue'|
      ensures StandsBehind(all, queue'[q], c)
    {
      if q < |queue| {
        assert StandsBehind(result, queue[q], c);
        var x: nat :| x < |result| && c < x && result[x].name == queue[q];
        assert all[x].name == queue'[q];
      } else {
        assert all[|result|].name == queue'[q];
      }
    }
    forall q, r, x: nat, y: nat | 0 <= q < r < |queue'| && x < |all| && y < |all| && all[x].name == queue'[q] && all[y].name == queue'[r]
      ensures x < y
    {
      assert StandsBehind(result, queue[q], c);
      var z: nat :| z < |result| && c < z && result[z].name == queue[q];
      SameIndex(all, z, x);
      if r < |queue| {
        assert StandsBehind(result, queue[r], c);
        var w: nat :| w < |result| && c < w && result[w].name == queue[r];
        SameIndex(all, w, y);
      } else {
        SameIndex(all, |result|, y);
      }
    }
  }

  lemma {:induction false} AheadGrows(result: seq<FixtureEntry>, c: nat, items: seq<Named<Stat>>, e: FixtureEntry)
    requires items != [] && Ahead(result, c, items) && Base(e.name) == items[0].name && c < |result|
    ensures Ahead(result + [e], c, items[1..])
  {
    hide Parent, Base, Less;
    var all := result + [e];
    forall i: nat, x | 0 < i < |all| && ParentAt(all, i, c) && x in items[1..]
      ensures Less(Base(all[i].name), x.name)
    {
      var k :| 0 <= k < |items[1..]| && items[1..][k] == x;
      assert items[k + 1] == x && x in items && Less(items[0].name, items[k + 1].name);
      assert i < |result| ==> ParentAt(result, i, c);
    }
  }

  lemma {:induction false} ChildWalked(files: Files, c: nat, items: seq<Named<Stat>>, st: State)
    requires Walked(st, c) && c < |st.result| && items != [] && Ahead(st.result, c, items) && st.result[c].name != []
    requires VisitChild(files, st.result[c].name, items[0], st).Some?
    requires Distinct(VisitChild(files, st.result[c].name, items[0], st).value.result)
    ensures var st' := VisitChild(files, st.result[c].name, items[0], st).value;
            Walked(st', c) && Ahead(st'.result, c, items[1..]) && c < |st'.result| && st'.result[c] == st.result[c]
  {
    var dir := st.result[c].name;
    var e := ChildAdds(files, dir, items[0], st);
    GoodBase(items[0].name);
    SplitJoin(dir, items[0].name);
    assert Parent(e.name) != e.name;
    hide VisitChild, Parent, Base, Rooted, Sorted, Waiting, Ahead, Join, BadName, Distinct;
    var st' := VisitChild(files, dir, items[0], st).value;
    RootedGrows(st.result, c, e);
    SortedGrows(st.result, c, items, e);
    WaitingGrows(st.result, st.queue, c, e, st'.queue);
    AheadGrows(st.result, c, items, e);
  }

  lemma {:induction false} GoodBase(name: JsString)
    requires !BadName(name)
    ensures 47 !in name
  {
  }

  lemma {:induction false} ItemsWalked(files: Files, root: Stat, seen: Seen, c: nat, items: seq<Named<Stat>>, st: State)
    requires Inv(root, seen, st) && c < |st.result| && st.result[c].name != [] && st.result[c].name in seen
    requires Distinct(seen[st.result[c].name] + items)
    requires Walked(st, c) && Ahead(st.result, c, items)
    requires |st.result| <= MAX_ENTRIES && VisitAll(files, st.result[c].name, items, st).Some?
    ensures Walked(VisitAll(files, st.result[c].name, items, st).value, c)
    decreases items
  {
    hide Inv, VisitChild, Walked, Ahead;
    if items != [] {
      var cur, x := st.result[c].name, items[0];
      var all := seen[cur] + items;
      forall y | y in seen[cur]
        ensures y.name != x.name
      {
        var i :| 0 <= i < |seen[cur]| && seen[cur][i] == y;
        assert all[i] == y && all[|seen[cur]|] == x;
      }
      ChildKeepsInv(files, root, seen, cur, x, st);
      var seen': Seen, next := seen[cur := seen[cur] + [x]], VisitChild(files, cur, x, st).value;
      assert seen'[cur] + items[1..] == all;
      InvDistinct(root, seen', next);
      ChildWalked(files, c, items, st);
      ItemsWalked(files, root, seen', c, items[1..], next);
    }
  }

  /** The first of the queue becomes the directory in hand. */
  lemma {:induction false} PopWalked(st: State, c: int, items: seq<Named<Stat>>) returns (x: nat)
    requires Walked(st, c) && st.queue != [] && Ascending(items)
    ensures x < |st.result| && st.result[x].name == st.queue[0]
    ensures Walked(st.(queue := st.queue[1..]), x) && Ahead(st.result, x, items)
  {
    hide Parent, Base, Less;
    assert StandsBehind(st.result, st.queue[0], c);
    x :| x < |st.result| && c < x && st.result[x].name == st.queue[0];
    forall i: nat | 0 < i < |st.result|
      ensures Behind(st.result, i, x) && !ParentAt(st.result, i, x)
    {
      assert Behind(st.result, i, c);
      var a: nat :| ParentAt(st.result, i, a) && a < i && a <= c;
      if ParentAt(st.result, i, x) {
        SameIndex(st.result, a, x);
      }
    }
    var rest := st.queue[1..];
    forall q | 0 <= q < |rest|
      ensures StandsBehind(st.result, rest[q], x)
    {
      assert StandsBehind(st.result, st.queue[q + 1], c);
      var y: nat :| y < |st.result| && c < y && st.result[y].name == st.queue[q + 1];
      assert x < y;
    }
    forall q, r, y: nat, z: nat | 0 <= q < r < |rest| && y < |st.result| && z < |st.result|
                                  && st.result[y].name == rest[q] && st.result[z].name == rest[r]
      ensures y < z
    {
      assert rest[q] == st.queue[q + 1] && rest[r] == st.queue[r + 1];
    }
  }

  lemma {:induction false} VisitWalked(host: Host, root: Stat, seen: Seen, st: State, c: int) returns (last: int)
    requires Proper(host) && Inv(root, seen, st) && Complete(host, seen) && Walked(st, c)
    requires |st.result| <= MAX_ENTRIES && Visit(host, st).Some?
    ensures Walked(Visit(host, st).value, last)
    decreases MAX_ENTRIES - |st.result| + |st.queue|
  {
    hide Inv, VisitAll, Sort, Proper, Complete, Walked, Ahead;
    last := c;
    if st.queue != [] {
      var cur, popped := st.queue[0], st.(queue := st.queue[1..]);
      var items := Sort(host.dirs[cur]);
      ListingSorted(host, cur);
      var x := PopWalked(st, c, items);
      QueuedNonEmpty(root, seen, st);
      RoundKeepsInv(host, root, seen, st);
      PopKeepsInv(root, seen, st);
      assert [] + items == items;
      ItemsWalked(host.files, root, seen[cur := []], x, items, popped);
      last := VisitWalked(host, root, seen[cur := items], VisitAll(host.files, cur, items, popped).value, x);
    }
  }

  lemma {:induction false} ListingSorted(host: Host, d: JsString)
    requires Proper(host) && d in host.dirs
    ensures Ascending(Sort(host.dirs[d])) && Distinct(Sort(host.dirs[d]))
  {
    hide Sort;
    SortCorrect(host.dirs[d]);
    AscendingDistinct(Sort(host.dirs[d]));
  }

  lemma {:induction false} QueuedNonEmpty(root: Stat, seen: Seen, st: State)
    requires Inv(root, seen, st) && st.queue != []
    ensures st.queue[0] != []
  {
    hide Root;
    assert IsDir(st.result, st.queue[0]);
  }

  lemma {:induction false} StartWalked(root: Stat)
    ensures Walked(Start(root), -1)
  {
    hide Root;
    var st := Start(root);
    assert st.result[0].name == st.queue[0];
    assert StandsBehind(st.result, st.queue[0], -1);
  }

  /**
    The walk is breadth first: every entry comes behind its directory, and two entries
    come in the order of their directories, or of their names within one.
   */
  lemma {:induction false} BreadthFirst(host: Host, i: nat, j: nat)
    requires Proper(host) && Inspect(host).Some? && 0 < i < j < |Visited(host)|
    ensures Behind(Visited(host), j, j) && InOrder(Visited(host), i, j)
  {
    var root := host.root.value;
    StartInv(root);
    NoneVisited(host);
    StartWalked(root);
    hide Start, Inv, Complete, Walked, Visit;
    var last := VisitWalked(host, root, map[], Start(root), -1);
    WalkedOrder(Visit(host, Start(root)).value, last, i, j);
  }

  lemma {:induction false} WalkedOrder(st: State, c: int, i: nat, j: nat)
    requires Walked(st, c) && 0 < i < j < |st.result|
    ensures Behind(st.result, j, j) && InOrder(st.result, i, j)
  {
    assert Behind(st.result, j, c);
  }

  // ---- when there is a snapshot ------------------------------------------

  ghost predicate HasPath(host: Host, p: JsString)
  {
    exists names, stat :: At(host, names, stat) && PathOf(names) == p
  }

  ghost predicate TooMany(host: Host)
  {
    exists paths: set<JsString> :: |paths| > MAX_ENTRIES && AllPaths(host, paths)
  }

  ghost predicate AllPaths(host: Host, paths: set<JsString>)
  {
    forall p :: p in paths ==> HasPath(host, p)
  }

  ghost predicate WellNamed(host: Host)
  {
    forall names, stat :: At(host, names, stat) ==> GoodNames(names)
  }

  /** Every regular file has the bytes its size announces. */
  ghost predicate Consistent(host: Host)
  {
    forall names, stat :: At(host, names, stat) && IsRegular(stat.mode) && stat.size > 0 ==>
      PathOf(names) in host.files && stat.size <= |host.files[PathOf(names)]|
  }

  ghost predicate Inspectable(host: Host)
  {
    host.root.Some? && IsDirectory(host.root.value.mode) && Listable(host) && WellNamed(host) && !TooMany(host)
  }

  function NamesOf(result: seq<FixtureEntry>): set<JsString>
  {
    set e | e in result :: e.name
  }

  lemma {:induction false} NamesCount(result: seq<FixtureEntry>)
    ensures |NamesOf(result)| <= |result|
    ensures Distinct(result) ==> |NamesOf(result)| == |result|
  {
    if result != [] {
      var n := |result| - 1;
      var front, e := result[..n], result[n];
      NamesCount(front);
      assert result == front + [e];
      assert NamesOf(result) == NamesOf(front) + {e.name} by {
        NamesSnoc(front, e);
      }
      if Distinct(result) {
        assert Distinct(front) && e.name !in NamesOf(front);
      }
    }
  }

  lemma {:induction false} NamesSnoc(result: seq<FixtureEntry>, e: FixtureEntry)
    ensures NamesOf(result + [e]) == NamesOf(result) + {e.name}
  {
    assert e in result + [e];
    forall p | p in NamesOf(result)
      ensures p in NamesOf(result + [e])
    {
      var x :| x in result && x.name == p;
      assert x in result + [e];
    }
  }

  lemma {:induction false} SubsetSize(a: set<JsString>, b: set<JsString>)
    requires a <= b
    ensures |a| <= |b|
  {
    assert b == a + (b - a);
  }

  lemma {:induction false} InspectedIsInspectable(host: Host)
    requires Proper(host) && Inspect(host).Some?
    ensures Inspectable(host)
  {
    InspectedListable(host);
    var all, end := Ended(host);
    assert |end.result| <= MAX_ENTRIES by {
      SortLength(end.result);
    }
    hide Inspect, Visit, Sort, Inv, Complete, At, PathOf, Listable;
    forall names, stat | At(host, names, stat)
      ensures GoodNames(names) && PathOf(names) in NamesOf(end.result)
    {
      AtIsRecorded(host, host.root.value, all, end, names, stat);
      var i :| 0 <= i < |end.result| && end.result[i].name == PathOf(names) && end.result[i].value.stat == stat;
      assert end.result[i] in end.result;
    }
    if TooMany(host) {
      var paths: set<JsString> :| |paths| > MAX_ENTRIES && AllPaths(host, paths);
      forall p | p in paths
        ensures p in NamesOf(end.result)
      {
        assert HasPath(host, p);
      }
      SubsetSize(paths, NamesOf(end.result));
      NamesCount(end.result);
    }
    InspectedRoot(host);
  }

  lemma {:induction false} InspectedRoot(host: Host)
    requires Inspect(host).Some?
    ensures host.root.Some? && IsDirectory(host.root.value.mode)
  {
  }

  /** Every recorded entry is a path of the tree. */
  lemma {:induction false} RecordedHasPath(host: Host, root: Stat, seen: Seen, st: State, p: JsString)
    requires Inv(root, seen, st) && Within(host, seen) && host.root == Some(root) && p in NamesOf(st.result)
    ensures HasPath(host, p)
  {
    hide Inv, Within, At, PathOf;
    var e :| e in st.result && e.name == p;
    var i :| 0 <= i < |st.result| && st.result[i] == e;
    assert Has(st.result, p, e.value.stat);
    var names := RecordedIsAt(host, root, seen, st, p, e.value.stat);
  }

  /** A child of a directory in hand is a path of the tree, under a good name. */
  lemma {:induction false} ListedChild(host: Host, root: Stat, seen: Seen, st: State, cur: JsString, c: Named<Stat>)
    returns (names: seq<JsString>)
    requires Inv(root, seen, st) && Within(host, seen) && host.root == Some(root) && WellNamed(host)
    requires cur in seen && c in host.dirs[cur]
    ensures At(host, names, c.value) && PathOf(names) == Join(cur, c.name) && !BadName(c.name)
  {
    hide Inv, At, BadName, Join, PathOf, Has;
    var s := DirRecorded(root, seen, st, cur);
    var up := RecordedIsAt(host, root, seen, st, cur, s);
    hide Within;
    ListedIsAt(host, up, s, c);
    names := up + [c.name];
    assert names[|up|] == c.name;
    assert PathOf(names) == Join(cur, c.name) by {
      PathSnoc(up, c.name);
    }
    assert At(host, names, c.value);
  }

  lemma {:induction false} PathSnoc(names: seq<JsString>, name: JsString)
    ensures PathOf(names + [name]) == Join(PathOf(names), name)
  {
    assert (names + [name])[..|names|] == names;
  }

  /** A directory visited or queued is recorded as one. */
  lemma {:induction false} DirRecorded(root: Stat, seen: Seen, st: State, d: JsString) returns (s: Stat)
    requires Inv(root, seen, st) && (d in seen || d in st.queue)
    ensures Has(st.result, d, s) && IsDirectory(s.mode) && |d| >= |Root()|
  {
    hide Root, Sound, Recorded, Covered, Distinct;
    assert IsDir(st.result, d);
    var i :| 0 <= i < |st.result| && st.result[i].name == d && IsDirectory(st.result[i].value.stat.mode);
    s := st.result[i].value.stat;
  }

  lemma {:induction false} DescribeSucceeds(files: Files, path: JsString, stat: Stat, b: Budgets)
    requires IsRegular(stat.mode) && stat.size > 0 ==> path in files && stat.size <= |files[path]|
    ensures Describe(files, path, stat, b).Some?
  {
    OffsetsSound(stat.size);
    hide Offsets, SampleLength, IsRegular;
    SamplesAre(files, path, Offsets(stat.size), SampleLength(stat.size));
    hide Samples;
  }

  lemma {:induction false} ChildSucceeds(host: Host, root: Stat, seen: Seen, st: State, cur: JsString, c: Named<Stat>)
    requires Inv(root, seen, st) && Within(host, seen) && host.root == Some(root)
    requires WellNamed(host) && !TooMany(host) && Consistent(host)
    requires cur in seen && c in host.dirs[cur] && forall x :: x in seen[cur] ==> x.name != c.name
    ensures |st.result| < MAX_ENTRIES && VisitChild(host.files, cur, c, st).Some?
  {
    hide Inv, Within, At, PathOf, BadName, Join, WellNamed, TooMany, Describe;
    var names := ListedChild(host, root, seen, st, cur, c);
    var path := Join(cur, c.name);
    DescribeSucceeds(host.files, path, c.value, st.left);
    assert HasPath(host, path);
    hide Consistent;
    RoomLeft(host, root, seen, st, cur, c);
  }

  lemma {:induction false} RoomLeft(host: Host, root: Stat, seen: Seen, st: State, cur: JsString, c: Named<Stat>)
    requires Inv(root, seen, st) && Within(host, seen) && host.root == Some(root) && !TooMany(host)
    requires cur in seen && !BadName(c.name) && (forall x :: x in seen[cur] ==> x.name != c.name)
    requires HasPath(host, Join(cur, c.name))
    ensures |st.result| < MAX_ENTRIES
  {
    hide At, PathOf, Within, HasPath, Inv, Join, BadName, NamesOf, Distinct, AllPaths;
    var path, known := Join(cur, c.name), NamesOf(st.result);
    FreshName(root, seen, st, cur, c);
    InvDistinct(root, seen, st);
    NamesCount(st.result);
    RecordedPaths(host, root, seen, st);
    OneMorePath(host, known, path);
    assert |known + {path}| == |st.result| + 1;
  }

  lemma {:induction false} RecordedPaths(host: Host, root: Stat, seen: Seen, st: State)
    requires Inv(root, seen, st) && Within(host, seen) && host.root == Some(root)
    ensures AllPaths(host, NamesOf(st.result))
  {
    hide At, PathOf, Within, HasPath, Inv, NamesOf;
    var known := NamesOf(st.result);
    forall p | p in known
      ensures HasPath(host, p)
    {
      RecordedHasPath(host, root, seen, st, p);
    }
  }

  lemma {:induction false} FreshName(root: Stat, seen: Seen, st: State, cur: JsString, c: Named<Stat>)
    requires Inv(root, seen, st) && cur in seen && !BadName(c.name) && (forall x :: x in seen[cur] ==> x.name != c.name)
    ensures Join(cur, c.name) !in NamesOf(st.result)
  {
    hide Root, Recorded, Covered, Join, Distinct;
    VisitedLong(seen, st, cur, c.name);
    PathFresh(root, seen, cur, c, st);
  }

  lemma {:induction false} OneMorePath(host: Host, paths: set<JsString>, p: JsString)
    requires AllPaths(host, paths) && HasPath(host, p)
    ensures AllPaths(host, paths + {p})
  {
  }

  lemma {:induction false} ItemsSucceed(host: Host, root: Stat, seen: Seen, st: State, cur: JsString,
                                        items: seq<Named<Stat>>)
    requires Inv(root, seen, st) && Within(host, seen) && host.root == Some(root)
    requires WellNamed(host) && !TooMany(host) && Consistent(host)
    requires cur in seen && (forall x :: x in items ==> x in host.dirs[cur]) && Distinct(seen[cur] + items)
    requires |st.result| <= MAX_ENTRIES
    ensures VisitAll(host.files, cur, items, st).Some?
    decreases items
  {
    hide Inv, VisitChild, TooMany, Consistent, WellNamed;
    if items != [] {
      var all, c := seen[cur] + items, items[0];
      forall x | x in seen[cur]
        ensures x.name != c.name
      {
        var i :| 0 <= i < |seen[cur]| && seen[cur][i] == x;
        assert all[i] == x && all[|seen[cur]|] == c;
      }
      ChildSucceeds(host, root, seen, st, cur, c);
      ChildKeepsInv(host.files, root, seen, cur, c, st);
      var seen': Seen := seen[cur := seen[cur] + [c]];
      assert seen'[cur] + items[1..] == all;
      ItemsSucceed(host, root, seen', VisitChild(host.files, cur, c, st).value, cur, items[1..]);
    }
  }

  lemma {:induction false} VisitSucceeds(host: Host, root: Stat, seen: Seen, st: State)
    requires Proper(host) && Inv(root, seen, st) && Complete(host, seen) && host.root == Some(root)
    requires Listable(host) && WellNamed(host) && !TooMany(host) && Consistent(host) && |st.result| <= MAX_ENTRIES
    ensures Visit(host, st).Some?
    decreases MAX_ENTRIES - |st.result| + |st.queue|
  {
    hide Inv, VisitAll, Sort, Proper, TooMany, Consistent, WellNamed, Within, Complete, Listable;
    if st.queue != [] {
      var cur, popped := st.queue[0], st.(queue := st.queue[1..]);
      QueuedListed(host, root, seen, st);
      var items := Sort(host.dirs[cur]);
      ListingSorted(host, cur);
      PopKeepsInv(root, seen, st);
      PopWithin(host, seen, cur);
      forall x | x in items
        ensures x in host.dirs[cur]
      {
        SortMembers(host.dirs[cur], x);
      }
      assert [] + items == items;
      ItemsSucceed(host, root, seen[cur := []], popped, cur, items);
      RoundKeepsInv(host, root, seen, st);
      VisitSucceeds(host, root, seen[cur := items], VisitAll(host.files, cur, items, popped).value);
    }
  }

  lemma {:induction false} PopWithin(host: Host, seen: Seen, cur: JsString)
    requires Complete(host, seen) && cur in host.dirs
    ensures Within(host, seen[cur := []])
  {
  }

  lemma {:induction false} QueuedListed(host: Host, root: Stat, seen: Seen, st: State)
    requires Inv(root, seen, st) && Complete(host, seen) && host.root == Some(root) && Listable(host) && st.queue != []
    ensures st.queue[0] in host.dirs
  {
    hide Inv, At, Within, PathOf, Has;
    CompleteWithin(host, seen);
    var s := DirRecorded(root, seen, st, st.queue[0]);
    var names := RecordedIsAt(host, root, seen, st, st.queue[0], s);
  }

  /**
    On a machine whose files have the bytes their sizes announce, there is a snapshot
    if and only if the root is a directory, every directory of the tree can be listed,
    every name in it is good, and it has at most 10000 paths.
   */
  lemma {:induction false} SucceedsExactly(host: Host)
    requires Proper(host) && Consistent(host)
    ensures Inspect(host).Some? <==> Inspectable(host)
  {
    if Inspect(host).Some? {
      InspectedIsInspectable(host);
    }
    if Inspectable(host) {
      var root := host.root.value;
      StartInv(root);
      NoneVisited(host);
      hide Inv, Complete, Visit, TooMany, Consistent, WellNamed, Listable, Sort, Root;
      VisitSucceeds(host, root, map[], Start(root));
    }
  }
}
