/**
  The tree that `fingerprintDirectory` sees in a filesystem.

  The filesystem is a finite map from real directories to their listings. Plain
  entries and symbolic links join directories into a graph that may hold cycles.
  `Unfold` follows it with the set of directories being walked, so it ends on every
  graph. None stands for an exception: an unreadable directory or file, or a
  dangling link.
 */
module DirectoryWalk {
  import opened Basics
  import opened Unicode
  import opened NameOrder
  import opened Transcript
  import opened DirectoryTree

  datatype Target =
    | Regular(content: Option<Bytes>)
    | Folder(id: nat)
    | Special

  datatype Entry = Plain(target: Target) | Link(resolved: Option<Target>)

  type Listing = seq<Named<Entry>>

  /** Keyed by real path; None is a directory that cannot be listed. */
  type Graph = map<nat, Option<Listing>>

  predicate Excluded(path: JsString, exclusions: seq<JsString>)
  {
    exists i :: 0 <= i < |exclusions| && (path == exclusions[i] || exclusions[i] + [47] <= path)
  }

  /** Walks the real directory `id`, with `active` the directories being walked. */
  function Unfold(g: Graph, id: nat, active: set<nat>, dir: JsString, exclusions: seq<JsString>): Option<seq<Child>>
    requires id !in active
    decreases g.Keys - active, 0, 0
  {
    if id !in g || g[id].None? then None
    else UnfoldItems(g, Sort(g[id].value), active + {id}, dir, exclusions)
  }

  function UnfoldItems(g: Graph, items: Listing, active: set<nat>, dir: JsString, exclusions: seq<JsString>)
    : Option<seq<Child>>
    decreases g.Keys - active, |items|, 0
  {
    if items == [] then Some([])
    else
      var path := Join(dir, items[0].name);
      if Excluded(path, exclusions) then UnfoldItems(g, items[1..], active, dir, exclusions)
      else
        var node := NodeOf(g, items[0].value, active, path, exclusions);
        var rest := UnfoldItems(g, items[1..], active, dir, exclusions);
        if node.None? || rest.None? then None
        else Some([Child(items[0].name, node.value)] + rest.value)
  }

  function NodeOf(g: Graph, e: Entry, active: set<nat>, path: JsString, exclusions: seq<JsString>): Option<Node>
    decreases g.Keys - active, 0, 2
  {
    match e
    case Plain(target) => NodeAt(g, false, target, active, path, exclusions)
    case Link(None) => None
    case Link(Some(target)) => NodeAt(g, true, target, active, path, exclusions)
  }

  function NodeAt(g: Graph, link: bool, target: Target, active: set<nat>, path: JsString, exclusions: seq<JsString>)
    : Option<Node>
    decreases g.Keys - active, 0, 1
  {
    match target
    case Regular(None) => None
    case Regular(Some(bytes)) => Some(FileNode(link, bytes))
    case Special => Some(OtherNode(link))
    case Folder(id) =>
      if id in active then Some(CycleNode(link))
      else
        var children := Unfold(g, id, active, path, exclusions);
        if children.None? then None else Some(DirNode(link, children.value))
  }

  // ---- what a listing can be --------------------------------------------

  /** Every listing names its entries validly and once. */
  ghost predicate Proper(g: Graph)
  {
    forall id :: id in g && g[id].Some? ==> ProperListing(g[id].value)
  }

  predicate ProperListing(items: Listing)
  {
    Distinct(items) && forall i :: 0 <= i < |items| ==> ValidName(items[i].name)
  }

  predicate Ready(items: Listing)
  {
    Ascending(items) && forall i :: 0 <= i < |items| ==> ValidName(items[i].name)
  }

  lemma {:induction false} SortReady(items: Listing)
    requires ProperListing(items)
    ensures Ready(Sort(items))
  {
    SortCorrect(items);
    var r := Sort(items);
    forall i | 0 <= i < |r| ensures ValidName(r[i].name) {
      var x := r[i];
      assert x in r;
    }
  }

  lemma {:induction false} ReadyTail(items: Listing)
    requires Ready(items) && items != []
    ensures Ready(items[1..]) && forall i :: 0 <= i < |items| - 1 ==> Less(items[0].name, items[1..][i].name)
  {
  }

  // ---- the tree is tidy --------------------------------------------------

  lemma {:induction false} UnfoldAbove(g: Graph, items: Listing, active: set<nat>, dir: JsString,
                                       exclusions: seq<JsString>, bound: JsString)
    requires forall i :: 0 <= i < |items| ==> Less(bound, items[i].name)
    requires UnfoldItems(g, items, active, dir, exclusions).Some?
    ensures var cs := UnfoldItems(g, items, active, dir, exclusions).value;
            forall i :: 0 <= i < |cs| ==> Less(bound, cs[i].name)
  {
    hide NodeOf, Excluded, Less;
    if items != [] {
      UnfoldAbove(g, items[1..], active, dir, exclusions, bound);
    }
  }

  lemma {:induction false} TidyCons(c: Child, cs: seq<Child>)
    requires Tidy(cs) && ValidName(c.name) && (c.node.DirNode? ==> Tidy(c.node.children))
    requires forall i :: 0 <= i < |cs| ==> Less(c.name, cs[i].name)
    ensures Tidy([c] + cs)
  {
  }

  lemma {:induction false} UnfoldTidy(g: Graph, id: nat, active: set<nat>, dir: JsString, exclusions: seq<JsString>)
    requires Proper(g) && id !in active && Unfold(g, id, active, dir, exclusions).Some?
    ensures Tidy(Unfold(g, id, active, dir, exclusions).value)
    decreases g.Keys - active, 0, 0
  {
    hide Sort, Tidy, UnfoldItems, Ready;
    SortReady(g[id].value);
    ItemsTidy(g, Sort(g[id].value), active + {id}, dir, exclusions);
  }

  lemma {:induction false} ItemsTidy(g: Graph, items: Listing, active: set<nat>, dir: JsString,
                                     exclusions: seq<JsString>)
    requires Proper(g) && Ready(items) && UnfoldItems(g, items, active, dir, exclusions).Some?
    ensures Tidy(UnfoldItems(g, items, active, dir, exclusions).value)
    decreases g.Keys - active, |items|, 0
  {
    hide NodeOf, Excluded, Tidy, ValidName, Less;
    if items == [] {
      EmptyTidy();
    } else {
      ReadyTail(items);
      ItemsTidy(g, items[1..], active, dir, exclusions);
      var path := Join(dir, items[0].name);
      if !Excluded(path, exclusions) {
        var cs := UnfoldItems(g, items[1..], active, dir, exclusions).value;
        UnfoldAbove(g, items[1..], active, dir, exclusions, items[0].name);
        NodeTidy(g, items[0].value, active, path, exclusions);
        TidyCons(Child(items[0].name, NodeOf(g, items[0].value, active, path, exclusions).value), cs);
      }
    }
  }

  lemma {:induction false} EmptyTidy()
    ensures Tidy([])
  {
  }

  lemma {:induction false} NodeTidy(g: Graph, e: Entry, active: set<nat>, path: JsString, exclusions: seq<JsString>)
    requires Proper(g) && NodeOf(g, e, active, path, exclusions).Some?
    ensures var n := NodeOf(g, e, active, path, exclusions).value; n.DirNode? ==> Tidy(n.children)
    decreases g.Keys - active, 0, 1
  {
    hide Unfold, Tidy;
    if e.Plain? && e.target.Folder? && e.target.id !in active {
      UnfoldTidy(g, e.target.id, active, path, exclusions);
    } else if e.Link? && e.resolved.Some? && e.resolved.value.Folder? && e.resolved.value.id !in active {
      UnfoldTidy(g, e.resolved.value.id, active, path, exclusions);
    }
  }

  // ---- exactly the entries that are not excluded -------------------------

  /** The children's names are the listed names whose paths are not excluded. */
  lemma {:induction false} UnfoldNames(g: Graph, items: Listing, active: set<nat>, dir: JsString,
                                       exclusions: seq<JsString>, name: JsString)
    requires UnfoldItems(g, items, active, dir, exclusions).Some?
    ensures var cs := UnfoldItems(g, items, active, dir, exclusions).value;
            (exists i :: 0 <= i < |cs| && cs[i].name == name)
            <==> !Excluded(Join(dir, name), exclusions) && exists i :: 0 <= i < |items| && items[i].name == name
  {
    hide NodeOf, Excluded, Join;
    if items != [] {
      UnfoldNames(g, items[1..], active, dir, exclusions, name);
      var cs := UnfoldItems(g, items, active, dir, exclusions).value;
      NamesCons(items, name);
      if !Excluded(Join(dir, items[0].name), exclusions) {
        ChildNamesCons(cs, name);
        assert cs[1..] == UnfoldItems(g, items[1..], active, dir, exclusions).value;
      }
    }
  }

  lemma {:induction false} NamesCons(items: Listing, name: JsString)
    requires items != []
    ensures (exists i :: 0 <= i < |items| && items[i].name == name)
            <==> items[0].name == name || exists i :: 0 <= i < |items| - 1 && items[1..][i].name == name
  {
    if i :| 0 <= i < |items| && items[i].name == name {
      assert i == 0 || items[1..][i - 1].name == name;
    }
  }

  lemma {:induction false} ChildNamesCons(cs: seq<Child>, name: JsString)
    requires cs != []
    ensures (exists i :: 0 <= i < |cs| && cs[i].name == name)
            <==> cs[0].name == name || exists i :: 0 <= i < |cs| - 1 && cs[1..][i].name == name
  {
    if i :| 0 <= i < |cs| && cs[i].name == name {
      assert i == 0 || cs[1..][i - 1].name == name;
    }
  }

  // ---- listing order does not matter -------------------------------------

  /** The same directories with the same entries, listed in any order. */
  ghost predicate SameFilesystem(g: Graph, h: Graph)
  {
    && g.Keys == h.Keys
    && forall id :: id in g ==>
         g[id].Some? == h[id].Some? && (g[id].Some? ==> SameEntries(g[id].value, h[id].value))
  }

  lemma {:induction false} OrderIrrelevant(g: Graph, h: Graph, id: nat, active: set<nat>, dir: JsString,
                                           exclusions: seq<JsString>)
    requires Proper(g) && Proper(h) && SameFilesystem(g, h) && id !in active
    ensures Unfold(g, id, active, dir, exclusions) == Unfold(h, id, active, dir, exclusions)
    decreases g.Keys - active, 0, 0
  {
    hide UnfoldItems, Sort, SameEntries;
    if id in g && g[id].Some? {
      SortIgnoresOrder(g[id].value, h[id].value);
      ItemsOrderIrrelevant(g, h, Sort(g[id].value), active + {id}, dir, exclusions);
    }
  }

  lemma {:induction false} ItemsOrderIrrelevant(g: Graph, h: Graph, items: Listing, active: set<nat>, dir: JsString,
                                                exclusions: seq<JsString>)
    requires Proper(g) && Proper(h) && SameFilesystem(g, h)
    ensures UnfoldItems(g, items, active, dir, exclusions) == UnfoldItems(h, items, active, dir, exclusions)
    decreases g.Keys - active, |items|, 0
  {
    hide NodeOf, Excluded, Proper, SameFilesystem;
    if items != [] {
      ItemsOrderIrrelevant(g, h, items[1..], active, dir, exclusions);
      NodeOrderIrrelevant(g, h, items[0].value, active, Join(dir, items[0].name), exclusions);
    }
  }

  lemma {:induction false} NodeOrderIrrelevant(g: Graph, h: Graph, e: Entry, active: set<nat>, path: JsString,
                                               exclusions: seq<JsString>)
    requires Proper(g) && Proper(h) && SameFilesystem(g, h)
    ensures NodeOf(g, e, active, path, exclusions) == NodeOf(h, e, active, path, exclusions)
    decreases g.Keys - active, 0, 1
  {
    hide Unfold, Proper, SameFilesystem;
    if e.Plain? && e.target.Folder? && e.target.id !in active {
      OrderIrrelevant(g, h, e.target.id, active, path, exclusions);
    } else if e.Link? && e.resolved.Some? && e.resolved.value.Folder? && e.resolved.value.id !in active {
      OrderIrrelevant(g, h, e.resolved.value.id, active, path, exclusions);
    }
  }

  // ---- the transcript determines the tree --------------------------------

  function Header(): Bytes { Ascii("kandelo-benchmark-directory-v1") + [0] }

  /** Everything the hash is fed for a tree. */
  function Hashed(cs: seq<Child>): Bytes
  {
    Header() + EncodeAll(Records(cs, []))
  }

  lemma {:induction false} HashedInjective(a: seq<Child>, b: seq<Child>)
    requires Tidy(a) && Tidy(b) && Hashed(a) == Hashed(b)
    ensures a == b
  {
    hide *;
    var ra, rb := Records(a, []), Records(b, []);
    assert EncodeAll(ra) == EncodeAll(rb) by {
      assert Header() + EncodeAll(ra) == Header() + EncodeAll(rb) by { HashedIs(a); HashedIs(b); }
      DropPrefix(Header(), EncodeAll(ra), EncodeAll(rb));
    }
    assert NoNul([]) && Foreign([], []) by { EmptyFacts(); }
    RecordsWellFormed(a, []);
    RecordsWellFormed(b, []);
    DecodeAll(ra);
    DecodeAll(rb);
    assert ra + [] == rb + [];
    RecordsInjective(a, b, [], [], []);
  }

  lemma {:induction false} HashedIs(cs: seq<Child>)
    ensures Hashed(cs) == Header() + EncodeAll(Records(cs, []))
  {
  }

  lemma {:induction false} EmptyFacts()
    ensures NoNul([]) && Foreign([], [])
  {
  }

  lemma {:induction false} DropPrefix(p: Bytes, x: Bytes, y: Bytes)
    requires p + x == p + y
    ensures x == y
  {
    assert (p + x)[|p|..] == x && (p + y)[|p|..] == y;
  }

  /**
    Two walks, of any two filesystems with any two exclusion lists, hash the same
    bytes exactly when they saw the same tree.
   */
  lemma {:induction false} EqualHashesEqualTrees(g: Graph, root: nat, gx: seq<JsString>, h: Graph, top: nat,
                                                 hx: seq<JsString>)
    requires Proper(g) && Proper(h)
    requires Unfold(g, root, {}, [], gx).Some? && Unfold(h, top, {}, [], hx).Some?
    ensures Hashed(Unfold(g, root, {}, [], gx).value) == Hashed(Unfold(h, top, {}, [], hx).value)
            <==> Unfold(g, root, {}, [], gx) == Unfold(h, top, {}, [], hx)
  {
    hide Unfold, Hashed, Tidy;
    UnfoldTidy(g, root, {}, [], gx);
    UnfoldTidy(h, top, {}, [], hx);
    var a, b := Unfold(g, root, {}, [], gx).value, Unfold(h, top, {}, [], hx).value;
    if Hashed(a) == Hashed(b) {
      HashedInjective(a, b);
    }
  }
}
