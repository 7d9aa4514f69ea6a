/**
  `fingerprintDirectory` itself: a recursive walk that feeds a hash, counts files
  and bytes, and keeps the set of directories being walked.

  The hash is modelled by the bytes it was fed. `Walk` returns false where the code
  throws. On either return the active set is what it was on entry.
 */
module Fingerprint {
  import opened Basics
  import opened Unicode
  import opened NameOrder
  import opened Transcript
  import opened DirectoryTree
  import opened DirectoryWalk

  /** What the walk has accumulated. */
  datatype Digest = Digest(hash: Bytes, files: nat, size: nat)

  function FeedOne(d: Digest, r: Record): Digest
  {
    if IsFile(r.kind) then Digest(d.hash + Encode(r), d.files + 1, d.size + |r.bytes|)
    else d.(hash := d.hash + Encode(r))
  }

  function Feed(d: Digest, rs: seq<Record>): Digest
    decreases rs
  {
    if rs == [] then d else Feed(FeedOne(d, rs[0]), rs[1..])
  }

  lemma {:induction false} FeedAppend(d: Digest, a: seq<Record>, b: seq<Record>)
    ensures Feed(d, a + b) == Feed(Feed(d, a), b)
    decreases a
  {
    hide FeedOne;
    if a == [] {
      assert a + b == b;
    } else {
      assert (a + b)[1..] == a[1..] + b;
      FeedAppend(FeedOne(d, a[0]), a[1..], b);
    }
  }

  function FileCount(rs: seq<Record>): nat
  {
    if rs == [] then 0 else (if IsFile(rs[0].kind) then 1 else 0) + FileCount(rs[1..])
  }

  function SizeBytes(rs: seq<Record>): nat
  {
    if rs == [] then 0 else (if IsFile(rs[0].kind) then |rs[0].bytes| else 0) + SizeBytes(rs[1..])
  }

  lemma {:induction false} FeedTotals(d: Digest, rs: seq<Record>)
    ensures Feed(d, rs) == Digest(d.hash + EncodeAll(rs), d.files + FileCount(rs), d.size + SizeBytes(rs))
    decreases rs
  {
    hide Encode;
    if rs != [] {
      FeedTotals(FeedOne(d, rs[0]), rs[1..]);
      Assoc(d.hash, Encode(rs[0]), EncodeAll(rs[1..]));
    } else {
      assert d.hash + [] == d.hash;
    }
  }

  // ---- the totals, on the tree -------------------------------------------

  /** How many files a tree holds, links to files included, and how many bytes. */
  function FilesIn(cs: seq<Child>): nat
    decreases cs, 1
  {
    if cs == [] then 0 else NodeFiles(cs[0].node) + FilesIn(cs[1..])
  }

  function NodeFiles(n: Node): nat
    decreases n, 0
  {
    match n
    case FileNode(_, _) => 1
    case DirNode(_, children) => FilesIn(children)
    case _ => 0
  }

  function BytesIn(cs: seq<Child>): nat
    decreases cs, 1
  {
    if cs == [] then 0 else NodeBytes(cs[0].node) + BytesIn(cs[1..])
  }

  function NodeBytes(n: Node): nat
    decreases n, 0
  {
    match n
    case FileNode(_, bytes) => |bytes|
    case DirNode(_, children) => BytesIn(children)
    case _ => 0
  }

  lemma {:induction false} TotalsAppend(a: seq<Record>, b: seq<Record>)
    ensures FileCount(a + b) == FileCount(a) + FileCount(b) && SizeBytes(a + b) == SizeBytes(a) + SizeBytes(b)
    decreases a
  {
    if a == [] {
      assert a + b == b;
    } else {
      assert (a + b)[1..] == a[1..] + b;
      TotalsAppend(a[1..], b);
    }
  }

  /** What the records add up to is what the tree holds. */
  lemma {:induction false} TotalsOfTree(cs: seq<Child>, dir: JsString)
    ensures FileCount(Records(cs, dir)) == FilesIn(cs) && SizeBytes(Records(cs, dir)) == BytesIn(cs)
    decreases cs, 1
  {
    if cs != [] {
      var h, body, rest := [HeadRecord(cs[0], dir)], BodyRecords(cs[0].node, Join(dir, cs[0].name)), Records(cs[1..], dir);
      TotalsOfTree(cs[1..], dir);
      TotalsOfNode(cs[0], dir);
      TotalsAppend(h, body);
      TotalsAppend(h + body, rest);
    }
  }

  lemma {:induction false} TotalsOfNode(c: Child, dir: JsString)
    ensures var h, body := [HeadRecord(c, dir)], BodyRecords(c.node, Join(dir, c.name));
            && FileCount(h) + FileCount(body) == NodeFiles(c.node)
            && SizeBytes(h) + SizeBytes(body) == NodeBytes(c.node)
    decreases c.node, 0
  {
    hide Join;
    var h := HeadRecord(c, dir);
    assert [h][1..] == [];
    if c.node.DirNode? {
      TotalsOfTree(c.node.children, Join(dir, c.name));
    }
  }

  /** What the function returns about a directory that exists. */
  datatype Report = Failed | Present(hash: Bytes, files: nat, size: nat)

  class Walker {
    const g: Graph
    const exclusions: seq<JsString>
    var hash: Bytes
    var fileCount: nat
    var sizeBytes: nat
    var active: set<nat>

    ghost function State(): Digest
      reads this
    {
      Digest(hash, fileCount, sizeBytes)
    }

    constructor (g: Graph, exclusions: seq<JsString>)
      ensures this.g == g && this.exclusions == exclusions
      ensures State() == Digest([], 0, 0) && active == {}
    {
      this.g, this.exclusions := g, exclusions;
      hash, fileCount, sizeBytes, active := [], 0, 0, {};
    }

    method Update(kind: Kind, path: JsString)
      requires !IsFile(kind)
      modifies this`hash
      ensures State() == FeedOne(old(State()), Record(kind, path, []))
    {
      hash := hash + (KindBytes(kind) + [0] + (Text(path) + [0]));
    }

    method HashFile(content: Option<Bytes>, path: JsString, kind: Kind) returns (ok: bool)
      requires IsFile(kind)
      modifies this`hash, this`fileCount, this`sizeBytes
      ensures ok == content.Some?
      ensures State() == if ok then FeedOne(old(State()), Record(kind, path, content.value)) else old(State())
    {
      if content.None? {
        return false;
      }
      var bytes := content.value;
      hash := hash + (KindBytes(kind) + [0] + (Text(path) + [0]) + (Length(|bytes|) + [0] + (bytes + [0])));
      fileCount := fileCount + 1;
      sizeBytes := sizeBytes + |bytes|;
      return true;
    }

    /** Walks directory `id`, or marks a cycle if it is being walked already. */
    method Walk(id: nat, dir: JsString) returns (ok: bool)
      modifies this
      ensures active == old(active)
      ensures ok <==> NodeAt(g, false, Folder(id), active, dir, exclusions).Some?
      ensures ok ==> State() == Feed(old(State()),
                                     BodyRecords(NodeAt(g, false, Folder(id), active, dir, exclusions).value, dir))
      decreases g.Keys - active, 0
    {
      if id in active {
        Update(Cycle, dir);
        return true;
      }
      if id !in g || g[id].None? {
        return false;
      }
      active := active + {id};
      var items := Sort(g[id].value);
      ok := WalkItems(items, dir);
      active := active - {id};
      return ok;
    }

    /** The loop over a directory's sorted entries. */
    method WalkItems(items: Listing, dir: JsString) returns (ok: bool)
      modifies this
      ensures active == old(active)
      ensures ok <==> UnfoldItems(g, items, active, dir, exclusions).Some?
      ensures ok ==> State() == Feed(old(State()), Records(UnfoldItems(g, items, active, dir, exclusions).value, dir))
      decreases g.Keys - active, 2
    {
      hide UnfoldItems, Records, Feed;
      ghost var before := State();
      ok := true;
      var i := 0;
      NothingWalked(g, active, dir, exclusions, before);
      while i < |items| && ok
        invariant i <= |items| && active == old(active)
        invariant ok <==> UnfoldItems(g, items[..i], active, dir, exclusions).Some?
        invariant ok ==> State() == Feed(before, Records(UnfoldItems(g, items[..i], active, dir, exclusions).value, dir))
      {
        WalkedOneMore(g, items, i, active, dir, exclusions, before);
        ok := WalkEntry(items[i], dir);
        i := i + 1;
      }
      assert items == items[..i] + items[i..];
      UnfoldAppend(g, items[..i], items[i..], active, dir, exclusions);
      assert ok ==> items[..i] == items;
    }

    /** One turn of that loop. */
    method WalkEntry(item: Named<Entry>, dir: JsString) returns (ok: bool)
      modifies this
      ensures active == old(active)
      ensures ok <==> UnfoldItems(g, [item], active, dir, exclusions).Some?
      ensures ok ==> State() == Feed(old(State()), Records(UnfoldItems(g, [item], active, dir, exclusions).value, dir))
      decreases g.Keys - active, 1
    {
      hide UnfoldItems, Records, Feed, FeedOne, Excluded, BodyRecords, Join, Unfold;
      var path := Join(dir, item.name);
      OneItem(g, item, active, dir, exclusions, State());
      if Excluded(path, exclusions) {
        return true;
      }
      if item.value.Link? && item.value.resolved.None? {
        return false;
      }
      var link := item.value.Link?;
      var target := if link then item.value.resolved.value else item.value.target;
      match target {
        case Regular(content) =>
          ok := HashFile(content, path, if link then SymlinkFile else File);
        case Special =>
          Update(if link then SymlinkOther else Other, path);
          ok := true;
        case Folder(id) =>
          Update(if link then SymlinkDirectory else Directory, path);
          LinkIrrelevant(g, id, active, path, exclusions);
          ok := Walk(id, path);
      }
    }
  }

  lemma {:induction false} NothingWalked(g: Graph, active: set<nat>, dir: JsString, exclusions: seq<JsString>,
                                         d: Digest)
    ensures UnfoldItems(g, [], active, dir, exclusions) == Some([]) && Feed(d, Records([], dir)) == d
  {
  }

  lemma {:induction false} RecordsAppend(a: seq<Child>, b: seq<Child>, dir: JsString)
    ensures Records(a + b, dir) == Records(a, dir) + Records(b, dir)
  {
    hide HeadRecord, BodyRecords, Join;
    if a == [] {
      assert a + b == b;
    } else {
      assert (a + b)[1..] == a[1..] + b;
      RecordsAppend(a[1..], b, dir);
      var h, body := [HeadRecord(a[0], dir)], BodyRecords(a[0].node, Join(dir, a[0].name));
      Assoc(h + body, Records(a[1..], dir), Records(b, dir));
    }
  }

  /** What comes of two lists of entries, one after the other. */
  lemma {:induction false} UnfoldAppend(g: Graph, a: Listing, b: Listing, active: set<nat>, dir: JsString,
                                        exclusions: seq<JsString>)
    ensures var x, y := UnfoldItems(g, a, active, dir, exclusions), UnfoldItems(g, b, active, dir, exclusions);
            UnfoldItems(g, a + b, active, dir, exclusions)
            == if x.Some? && y.Some? then Some(x.value + y.value) else None
  {
    hide NodeOf, Excluded, Join;
    if a == [] {
      assert a + b == b;
      var y := UnfoldItems(g, b, active, dir, exclusions);
      assert y.Some? ==> [] + y.value == y.value;
    } else {
      assert (a + b)[1..] == a[1..] + b;
      UnfoldAppend(g, a[1..], b, active, dir, exclusions);
      var x, y := UnfoldItems(g, a[1..], active, dir, exclusions), UnfoldItems(g, b, active, dir, exclusions);
      var node := NodeOf(g, a[0].value, active, Join(dir, a[0].name), exclusions);
      if x.Some? && y.Some? && node.Some? {
        Assoc([Child(a[0].name, node.value)], x.value, y.value);
      }
    }
  }

  lemma {:induction false} WalkedOneMore(g: Graph, items: Listing, i: nat, active: set<nat>, dir: JsString,
                                         exclusions: seq<JsString>, d: Digest)
    requires i < |items|
    ensures var x, y, z := UnfoldItems(g, items[..i], active, dir, exclusions),
                           UnfoldItems(g, [items[i]], active, dir, exclusions),
                           UnfoldItems(g, items[..i + 1], active, dir, exclusions);
            && z.Some? == (x.Some? && y.Some?)
            && (z.Some? ==> Feed(d, Records(z.value, dir)) == Feed(Feed(d, Records(x.value, dir)), Records(y.value, dir)))
  {
    hide UnfoldItems, Records, Feed;
    assert items[..i + 1] == items[..i] + [items[i]];
    UnfoldAppend(g, items[..i], [items[i]], active, dir, exclusions);
    var x, y := UnfoldItems(g, items[..i], active, dir, exclusions), UnfoldItems(g, [items[i]], active, dir, exclusions);
    if x.Some? && y.Some? {
      RecordsAppend(x.value, y.value, dir);
      FeedAppend(d, Records(x.value, dir), Records(y.value, dir));
    }
  }

  lemma {:induction false} OneItem(g: Graph, item: Named<Entry>, active: set<nat>, dir: JsString,
                                   exclusions: seq<JsString>, d: Digest)
    ensures var path := Join(dir, item.name);
            var r, n := UnfoldItems(g, [item], active, dir, exclusions), NodeOf(g, item.value, active, path, exclusions);
            if Excluded(path, exclusions) then r.Some? && Feed(d, Records(r.value, dir)) == d
            else
              && r.Some? == n.Some?
              && (r.Some? ==> Feed(d, Records(r.value, dir))
                              == Feed(FeedOne(d, HeadRecord(Child(item.name, n.value), dir)), BodyRecords(n.value, path)))
              && (r.Some? && !n.value.CycleNode? && !n.value.DirNode?
                  ==> Feed(d, Records(r.value, dir)) == FeedOne(d, HeadRecord(Child(item.name, n.value), dir)))
  {
    hide NodeOf, Excluded, FeedOne, HeadRecord;
    var path := Join(dir, item.name);
    assert UnfoldItems(g, [item][1..], active, dir, exclusions) == Some([]);
    var r, n := UnfoldItems(g, [item], active, dir, exclusions), NodeOf(g, item.value, active, path, exclusions);
    if !Excluded(path, exclusions) && n.Some? {
      var c := Child(item.name, n.value);
      assert r.value == [c];
      OneChild(c, dir);
      hide Records, BodyRecords;
      FeedCons(d, HeadRecord(c, dir), BodyRecords(c.node, path));
    }
  }

  lemma {:induction false} OneChild(c: Child, dir: JsString)
    ensures Records([c], dir) == [HeadRecord(c, dir)] + BodyRecords(c.node, Join(dir, c.name))
    ensures !c.node.CycleNode? && !c.node.DirNode? ==> BodyRecords(c.node, Join(dir, c.name)) == []
  {
  }

  lemma {:induction false} FeedCons(d: Digest, r: Record, rs: seq<Record>)
    ensures Feed(d, [r] + rs) == Feed(FeedOne(d, r), rs)
    ensures rs == [] ==> Feed(d, [r] + rs) == FeedOne(d, r)
  {
  }

  lemma {:induction false} LinkIrrelevant(g: Graph, id: nat, active: set<nat>, path: JsString,
                                          exclusions: seq<JsString>)
    ensures var x := NodeAt(g, false, Folder(id), active, path, exclusions);
            var y := NodeAt(g, true, Folder(id), active, path, exclusions);
            x.Some? == y.Some? && (x.Some? ==> BodyRecords(x.value, path) == BodyRecords(y.value, path))
  {
  }

  /**
    The whole function on an existing directory: the report is about the unfolded
    tree, and it fails exactly when unfolding meets something unreadable.
   */
  method FingerprintDirectory(g: Graph, root: nat, exclusions: seq<JsString>) returns (report: Report)
    ensures report.Failed? <==> Unfold(g, root, {}, [], exclusions).None?
    ensures report.Present? ==>
              var cs := Unfold(g, root, {}, [], exclusions).value;
              report == Present(Hashed(cs), FilesIn(cs), BytesIn(cs))
  {
    hide Unfold, Records, Encode, EncodeAll;
    var w := new Walker(g, exclusions);
    w.hash := w.hash + Header();
    ghost var before := w.State();
    var ok := w.Walk(root, []);
    if !ok {
      return Failed;
    }
    report := Present(w.hash, w.fileCount, w.sizeBytes);
    FeedTotals(before, Records(Unfold(g, root, {}, [], exclusions).value, []));
    TotalsOfTree(Unfold(g, root, {}, [], exclusions).value, []);
  }
}
