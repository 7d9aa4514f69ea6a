/**
  What a directory looks like to `fingerprintDirectory`.

  The filesystem is a finite graph of real directories joined by plain entries and
  symbolic links, possibly with cycles. The walk unfolds it into a tree, cutting
  each branch where a directory repeats. The tree is what the fingerprint is about:
  `RecordsInjective` says that the record list determines it.
 */
module DirectoryTree {
  import opened Basics
  import opened Unicode
  import opened NameOrder
  import opened Transcript

  // ---- names and paths ---------------------------------------------------

  /** What readdir can return: not empty, no NUL, no slash. */
  predicate ValidName(s: JsString)
  {
    s != [] && forall i :: 0 <= i < |s| ==> s[i] != 0 && s[i] != 47
  }

  /** The logical path of an entry. */
  function Join(dir: JsString, name: JsString): JsString
  {
    if dir == [] then name else dir + [47] + name
  }

  // ---- trees -------------------------------------------------------------

  /** `link` tells whether the entry was a symbolic link. */
  datatype Node =
    | FileNode(link: bool, bytes: Bytes)
    | OtherNode(link: bool)
    | CycleNode(link: bool)
    | DirNode(link: bool, children: seq<Child>)

  datatype Child = Child(name: JsString, node: Node)

  /** Valid names in strictly ascending order, at every level. */
  ghost predicate Tidy(cs: seq<Child>)
    decreases cs
  {
    && (forall i :: 0 <= i < |cs| ==> ValidName(cs[i].name))
    && (forall i, j :: 0 <= i < j < |cs| ==> Less(cs[i].name, cs[j].name))
    && (forall i :: 0 <= i < |cs| && cs[i].node.DirNode? ==> Tidy(cs[i].node.children))
  }

  function NodeKind(n: Node): Kind
  {
    match n
    case FileNode(link, _) => if link then SymlinkFile else File
    case OtherNode(link) => if link then SymlinkOther else Other
    case CycleNode(link) => if link then SymlinkDirectory else Directory
    case DirNode(link, _) => if link then SymlinkDirectory else Directory
  }

  /** The record an entry begins with. */
  function HeadRecord(c: Child, dir: JsString): Record
  {
    Record(NodeKind(c.node), Join(dir, c.name), if c.node.FileNode? then c.node.bytes else [])
  }

  /** The records below an entry: nothing, a cycle mark, or the directory's own. */
  function BodyRecords(n: Node, path: JsString): seq<Record>
    decreases n
  {
    match n
    case CycleNode(_) => [Record(Cycle, path, [])]
    case DirNode(_, children) => Records(children, path)
    case _ => []
  }

  /** The record list of a directory's children. */
  function Records(cs: seq<Child>, dir: JsString): seq<Record>
    decreases cs
  {
    if cs == [] then []
    else [HeadRecord(cs[0], dir)] + BodyRecords(cs[0].node, Join(dir, cs[0].name)) + Records(cs[1..], dir)
  }

  // ---- the record list determines the tree -------------------------------

  predicate Below(path: JsString, dir: JsString)
  {
    dir == [] || dir + [47] <= path
  }

  /** `t` does not begin with a record that could belong to `dir`. */
  predicate Foreign(t: seq<Record>, dir: JsString)
  {
    t == [] || (t[0].kind != Cycle && !Below(t[0].path, dir))
  }

  lemma {:induction false} JoinInjective(dir: JsString, a: JsString, b: JsString)
    requires Join(dir, a) == Join(dir, b)
    ensures a == b
  {
    if dir != [] {
      assert Join(dir, a)[|dir| + 1..] == a && Join(dir, b)[|dir| + 1..] == b;
    }
  }

  lemma {:induction false} BelowHasSlash(dir: JsString, a: JsString, b: JsString)
    requires a != [] && Below(Join(dir, b), Join(dir, a))
    ensures 47 in b
  {
    var p, q := Join(dir, a), Join(dir, b);
    var k := |q| - |b|;
    assert (p + [47])[|p|] == q[|p|] && q[k..] == b;
    assert q[|p|] == b[|p| - k];
  }

  /** A sibling's path is not below another sibling. */
  lemma {:induction false} SiblingNotBelow(dir: JsString, a: JsString, b: JsString)
    requires ValidName(a) && ValidName(b)
    ensures !Below(Join(dir, b), Join(dir, a))
  {
    if Below(Join(dir, b), Join(dir, a)) {
      BelowHasSlash(dir, a, b);
    }
  }

  lemma {:induction false} BelowDeeper(path: JsString, dir: JsString, name: JsString)
    requires name != [] && Below(path, Join(dir, name))
    ensures Below(path, dir)
  {
  }

  lemma {:induction false} RecordsSplit(cs: seq<Child>, dir: JsString, t: seq<Record>)
    requires cs != []
    ensures Records(cs, dir) + t
            == [HeadRecord(cs[0], dir)] + (BodyRecords(cs[0].node, Join(dir, cs[0].name)) + (Records(cs[1..], dir) + t))
  {
    hide HeadRecord, BodyRecords;
    var h, body, rest := [HeadRecord(cs[0], dir)], BodyRecords(cs[0].node, Join(dir, cs[0].name)), Records(cs[1..], dir);
    assert Records(cs, dir) == h + body + rest;
    hide *;
    Assoc(h + body, rest, t);
    Assoc(h, body, rest + t);
  }

  lemma {:induction false} ConsInjective<T>(x: T, xs: seq<T>, y: T, ys: seq<T>)
    requires [x] + xs == [y] + ys
    ensures x == y && xs == ys
  {
    assert ([x] + xs)[0] == x && ([y] + ys)[0] == y;
    assert ([x] + xs)[1..] == xs && ([y] + ys)[1..] == ys;
  }

  /** A directory's own records are never foreign to it, and do not begin with a cycle mark. */
  lemma {:induction false} FirstRecord(cs: seq<Child>, dir: JsString, t: seq<Record>)
    ensures cs == [] ==> Records(cs, dir) + t == t
    ensures cs != [] ==> !Foreign(Records(cs, dir) + t, dir) && (Records(cs, dir) + t)[0].kind != Cycle
  {
  }

  /** What follows a child's body cannot be taken for a part of it. */
  lemma {:induction false} RestForeign(cs: seq<Child>, dir: JsString, t: seq<Record>)
    requires Tidy(cs) && cs != [] && Foreign(t, dir)
    ensures Foreign(Records(cs[1..], dir) + t, Join(dir, cs[0].name))
  {
    var a := cs[0].name;
    if |cs| > 1 {
      assert cs[1..][0] == cs[1];
      RecordsSplit(cs[1..], dir, t);
      SiblingNotBelow(dir, a, cs[1].name);
    } else {
      assert Records(cs[1..], dir) + t == t;
      if t != [] && Below(t[0].path, Join(dir, a)) {
        BelowDeeper(t[0].path, dir, a);
      }
    }
  }

  lemma {:induction false} TidyTail(cs: seq<Child>)
    requires Tidy(cs) && cs != []
    ensures Tidy(cs[1..]) && ValidName(cs[0].name) && (cs[0].node.DirNode? ==> Tidy(cs[0].node.children))
  {
  }

  lemma {:induction false} HeadsAgree(a: seq<Child>, b: seq<Child>, dir: JsString, t: seq<Record>, u: seq<Record>)
    requires a != [] && b != [] && Records(a, dir) + t == Records(b, dir) + u
    ensures HeadRecord(a[0], dir) == HeadRecord(b[0], dir)
    ensures BodyRecords(a[0].node, Join(dir, a[0].name)) + (Records(a[1..], dir) + t)
            == BodyRecords(b[0].node, Join(dir, b[0].name)) + (Records(b[1..], dir) + u)
  {
    hide *;
    RecordsSplit(a, dir, t);
    RecordsSplit(b, dir, u);
    ConsInjective(HeadRecord(a[0], dir), BodyRecords(a[0].node, Join(dir, a[0].name)) + (Records(a[1..], dir) + t),
                  HeadRecord(b[0], dir), BodyRecords(b[0].node, Join(dir, b[0].name)) + (Records(b[1..], dir) + u));
  }

  lemma {:induction false} SameHead(x: Child, y: Child, dir: JsString)
    requires HeadRecord(x, dir) == HeadRecord(y, dir)
    ensures x.name == y.name && NodeKind(x.node) == NodeKind(y.node)
    ensures x.node.FileNode? ==> y.node.FileNode? && x.node.bytes == y.node.bytes
  {
    JoinInjective(dir, x.name, y.name);
  }

  /** A cycle mark is where a node's records begin exactly when the node is a cycle. */
  lemma {:induction false} CycleShows(x: Node, path: JsString, t: seq<Record>)
    requires Foreign(t, path)
    ensures var s := BodyRecords(x, path) + t; x.CycleNode? <==> s != [] && s[0].kind == Cycle
    ensures x.CycleNode? ==> BodyRecords(x, path) + t == [Record(Cycle, path, [])] + t
    ensures x.FileNode? || x.OtherNode? ==> BodyRecords(x, path) + t == t
  {
  }

  /**
    Two tidy child lists with the same records under the same path are the same,
    and so is whatever foreign records follow them.
   */
  lemma {:induction false} RecordsInjective(a: seq<Child>, b: seq<Child>, dir: JsString, t: seq<Record>, u: seq<Record>)
    requires Tidy(a) && Tidy(b) && Foreign(t, dir) && Foreign(u, dir)
    requires Records(a, dir) + t == Records(b, dir) + u
    ensures a == b && t == u
    decreases a, 1
  {
    hide Records, Foreign, BodyRecords, HeadRecord, Join, NodeKind;
    FirstRecord(a, dir, t);
    FirstRecord(b, dir, u);
    if a != [] {
      TidyTail(a);
      TidyTail(b);
      hide Tidy;
      RestForeign(a, dir, t);
      RestForeign(b, dir, u);
      HeadsAgree(a, b, dir, t, u);
      SameHead(a[0], b[0], dir);
      BodyInjective(a[0].node, b[0].node, Join(dir, a[0].name), Records(a[1..], dir) + t, Records(b[1..], dir) + u);
      RecordsInjective(a[1..], b[1..], dir, t, u);
      assert a == [a[0]] + a[1..] && b == [b[0]] + b[1..];
    }
  }

  /** Entries with equal heads and equal records behind them are equal. */
  lemma {:induction false} BodyInjective(x: Node, y: Node, path: JsString, t: seq<Record>, u: seq<Record>)
    requires NodeKind(x) == NodeKind(y) && (x.FileNode? ==> y.FileNode? && x.bytes == y.bytes)
    requires x.DirNode? ==> Tidy(x.children)
    requires y.DirNode? ==> Tidy(y.children)
    requires Foreign(t, path) && Foreign(u, path)
    requires BodyRecords(x, path) + t == BodyRecords(y, path) + u
    ensures x == y && t == u
    decreases x, 0
  {
    hide Foreign, Tidy, Records;
    CycleShows(x, path, t);
    CycleShows(y, path, u);
    if x.CycleNode? {
      ConsInjective(Record(Cycle, path, []), t, Record(Cycle, path, []), u);
    } else if x.DirNode? {
      RecordsInjective(x.children, y.children, path, t, u);
    }
  }

  // ---- the records can be encoded ----------------------------------------

  lemma {:induction false} JoinNoNul(dir: JsString, name: JsString)
    requires NoNul(dir) && ValidName(name)
    ensures NoNul(Join(dir, name))
  {
  }

  lemma {:induction false} RecordsWellFormed(cs: seq<Child>, dir: JsString)
    requires Tidy(cs) && NoNul(dir)
    ensures forall i :: 0 <= i < |Records(cs, dir)| ==> WellFormed(Records(cs, dir)[i])
    decreases cs, 1
  {
    hide Join, NoNul, ValidName, Less;
    if cs != [] {
      TidyTail(cs);
      JoinNoNul(dir, cs[0].name);
      RecordsWellFormed(cs[1..], dir);
      BodyWellFormed(cs[0].node, Join(dir, cs[0].name));
      hide Tidy, BodyRecords;
    }
  }

  lemma {:induction false} BodyWellFormed(n: Node, path: JsString)
    requires (n.DirNode? ==> Tidy(n.children)) && NoNul(path)
    ensures forall i :: 0 <= i < |BodyRecords(n, path)| ==> WellFormed(BodyRecords(n, path)[i])
    decreases n, 0
  {
    if n.DirNode? {
      RecordsWellFormed(n.children, path);
    }
  }
}
