/**
  Where bun-extract writes: the ".." check and the confinement it buys.

  Paths are resolved lexically, segment by segment. The four string tests of
  `has_dotdot_segment` are proved to be exactly "some segment is ..", and every
  accepted module name to stay under the output directory.
 */
module SafePath {
  import opened Basics
  import opened ReplaceAll

  // ---- segments ----------------------------------------------------------

  function FirstSlash(s: string): (i: nat)
    ensures i <= |s| && (i < |s| ==> s[i] == '/') && forall k :: 0 <= k < i ==> s[k] != '/'
  {
    if s == [] || s[0] == '/' then 0 else 1 + FirstSlash(s[1..])
  }

  /** The segments between slashes, empty ones included. */
  function Split(s: string): (r: seq<string>)
    ensures r != []
    decreases |s|
  {
    var i := FirstSlash(s);
    if i == |s| then [s] else [s[..i]] + Split(s[i + 1..])
  }

  /** ".." stands at `a` as a whole segment. */
  predicate DotDotAt(s: string, a: int)
  {
    && 0 <= a && a + 2 <= |s| && s[a] == '.' && s[a + 1] == '.'
    && (a == 0 || s[a - 1] == '/') && (a + 2 == |s| || s[a + 2] == '/')
  }

  /** A ".." segment is the first one, or lies behind the first slash. */
  lemma {:induction false} DotDotForward(s: string, a: int)
    requires DotDotAt(s, a)
    ensures var i := FirstSlash(s);
            s[..i] == ".." || (i < |s| && DotDotAt(s[i + 1..], a - i - 1))
  {
  }

  lemma {:induction false} DotDotBackward(s: string, a: int)
    requires var i := FirstSlash(s);
             if a == 0 then s[..i] == ".." else i < |s| && a > i && DotDotAt(s[i + 1..], a - i - 1)
    ensures DotDotAt(s, a)
  {
  }

  lemma {:induction false} SplitFindsDotDot(s: string)
    ensures ".." in Split(s) <==> exists a :: DotDotAt(s, a)
    decreases |s|
  {
    var i := FirstSlash(s);
    hide DotDotAt, FirstSlash;
    assert s[..|s|] == s;
    if i < |s| {
      SplitFindsDotDot(s[i + 1..]);
    }
    if a :| DotDotAt(s, a) {
      DotDotForward(s, a);
    }
    if ".." in Split(s) {
      if s[..i] == ".." {
        DotDotBackward(s, 0);
      } else {
        var a :| DotDotAt(s[i + 1..], a);
        DotDotNonNegative(s[i + 1..], a);
        DotDotBackward(s, a + i + 1);
      }
    }
  }

  lemma {:induction false} DotDotNonNegative(s: string, a: int)
    requires DotDotAt(s, a)
    ensures a >= 0
  {
  }

  /** has_dotdot_segment: four tests on the whole string. */
  predicate HasDotDotSegment(rel: string)
  {
    var n := |rel|;
    if n == 2 && rel[0] == '.' && rel[1] == '.' then true
    else if n >= 3 && rel[0] == '.' && rel[1] == '.' && rel[2] == '/' then true
    else if n >= 3 && rel[n - 1] == '.' && rel[n - 2] == '.' && rel[n - 3] == '/' then true
    else Find(rel, "/../").Some?
  }

  lemma {:induction false} InnerDotDot(s: string, k: int)
    ensures OccursAt(s, "/../", k) <==>
            0 <= k && k + 4 <= |s| && s[k] == '/' && s[k + 1] == '.' && s[k + 2] == '.' && s[k + 3] == '/'
  {
  }

  /** The four tests are exactly: some segment is "..". */
  lemma {:induction false} DotDotTestExact(rel: string)
    ensures HasDotDotSegment(rel) <==> ".." in Split(rel)
  {
    SplitFindsDotDot(rel);
    hide Split, Find;
    var n := |rel|;
    if HasDotDotSegment(rel) {
      if Find(rel, "/../").Some? {
        var k := Find(rel, "/../").value;
        InnerDotDot(rel, k);
        assert DotDotAt(rel, k + 1);
      } else {
        assert DotDotAt(rel, 0) || DotDotAt(rel, n - 2);
      }
    }
    if exists a :: DotDotAt(rel, a) {
      var a :| DotDotAt(rel, a);
      if 0 < a && a + 2 < n {
        InnerDotDot(rel, a - 1);
        assert OccursAt(rel, "/../", a - 1);
      }
    }
  }

  // ---- lexical resolution ------------------------------------------------

  /** One segment: "" and "." stay, ".." goes up (or stays visible above a relative start). */
  function Descend(absolute: bool, at: seq<string>, seg: string): seq<string>
  {
    if seg == "" || seg == "." then at
    else if seg == ".." then
      if at != [] && at[|at| - 1] != ".." then at[..|at| - 1]
      else if absolute then at
      else at + [".."]
    else at + [seg]
  }

  function Resolve(absolute: bool, at: seq<string>, segs: seq<string>): seq<string>
    decreases |segs|
  {
    if segs == [] then at else Resolve(absolute, Descend(absolute, at, segs[0]), segs[1..])
  }

  datatype Location = Location(absolute: bool, segs: seq<string>)

  /** Where a path leads. */
  function Locate(path: string): Location
  {
    Location(IsAbsolute(path), Resolve(IsAbsolute(path), [], Split(path)))
  }

  /** `inner` lies at or below `outer`: the same start, and from there not up. */
  predicate Under(inner: Location, outer: Location)
  {
    && inner.absolute == outer.absolute && outer.segs <= inner.segs
    && (|outer.segs| < |inner.segs| ==> inner.segs[|outer.segs|] != "..")
  }

  lemma {:induction false} ResolveConcat(absolute: bool, at: seq<string>, a: seq<string>, b: seq<string>)
    ensures Resolve(absolute, at, a + b) == Resolve(absolute, Resolve(absolute, at, a), b)
    decreases |a|
  {
    if a == [] {
      assert a + b == b;
    } else {
      assert (a + b)[1..] == a[1..] + b;
      ResolveConcat(absolute, Descend(absolute, at, a[0]), a[1..], b);
    }
  }

  /** Without ".." a path only goes down. */
  lemma {:induction false} ResolveDown(absolute: bool, at: seq<string>, segs: seq<string>)
    requires ".." !in segs
    ensures at <= Resolve(absolute, at, segs)
    ensures forall i :: |at| <= i < |Resolve(absolute, at, segs)| ==> Resolve(absolute, at, segs)[i] != ".."
    decreases |segs|
  {
    if segs != [] {
      ResolveDown(absolute, Descend(absolute, at, segs[0]), segs[1..]);
    }
  }

  /** Resolved paths hold no "." and no empty segment, and ".." only at the front of a relative one. */
  lemma {:induction false} Normal(absolute: bool, at: seq<string>, segs: seq<string>)
    requires NormalSegs(absolute, at)
    ensures NormalSegs(absolute, Resolve(absolute, at, segs))
    decreases |segs|
  {
    if segs != [] {
      Normal(absolute, Descend(absolute, at, segs[0]), segs[1..]);
    }
  }

  predicate NormalSegs(absolute: bool, segs: seq<string>)
  {
    && "" !in segs && "." !in segs
    && forall i :: 0 <= i < |segs| && segs[i] == ".." ==> !absolute && forall k :: 0 <= k < i ==> segs[k] == ".."
  }

  /** Going down into a directory and up again leads back; a dot and a doubled slash lead nowhere. */
  lemma {:induction false} UpUndoesDown(path: string, seg: string)
    requires path != "" && seg != "" && seg != "." && seg != ".." && '/' !in seg
    ensures Locate(path + "/" + seg).segs == Locate(path).segs + [seg]
    ensures Locate(path + "/" + seg + "/" + "..") == Locate(path)
    ensures Locate(path + "/" + ".") == Locate(path) && Locate(path + "/" + "") == Locate(path)
  {
    OneStep(path, seg);
    OneStep(path + "/" + seg, "..");
    OneStep(path, ".");
    OneStep(path, "");
  }

  lemma {:induction false} OneStep(path: string, seg: string)
    requires path != "" && '/' !in seg
    ensures Locate(path + "/" + seg)
            == Location(IsAbsolute(path), Descend(IsAbsolute(path), Locate(path).segs, seg))
  {
    var abs := IsAbsolute(path);
    SplitConcat(path, seg);
    ResolveConcat(abs, [], Split(path), Split(seg));
    assert FirstSlash(seg) == |seg| && Split(seg) == [seg];
    hide Split;
    var at := Resolve(abs, [], Split(path));
    assert [seg][1..] == [];
    assert Resolve(abs, at, [seg]) == Resolve(abs, Descend(abs, at, seg), []);
    assert (path + "/" + seg)[0] == path[0];
  }

  /** What the ".." test is for: a ".." leaves every directory but the absolute root. */
  lemma {:induction false} DotDotEscapes(outdir: string)
    requires outdir != ""
    ensures Under(Locate(outdir + "/" + ".."), Locate(outdir)) <==> Locate(outdir) == Location(true, [])
  {
    OneStep(outdir, "..");
    Normal(IsAbsolute(outdir), [], Split(outdir));
    hide Split, Resolve;
    var at := Locate(outdir).segs;
    if at != [] && at[|at| - 1] == ".." {
      assert !IsAbsolute(outdir);
    }
  }

  lemma {:induction false} SplitConcat(a: string, b: string)
    ensures Split(a + "/" + b) == Split(a) + Split(b)
    decreases |a|
  {
    var s, i := a + "/" + b, FirstSlash(a);
    FirstSlashOfConcat(a, b);
    hide FirstSlash;
    assert Split(s) == [s[..i]] + Split(s[i + 1..]);
    if i == |a| {
      assert s[..i] == a && s[i + 1..] == b;
    } else {
      var c := a[i + 1..];
      SlashSuffix(a, b, i);
      SplitConcat(c, b);
      Assoc([a[..i]], Split(c), Split(b));
    }
  }

  lemma {:induction false} SlashSuffix(a: string, b: string, i: nat)
    requires i < |a|
    ensures (a + "/" + b)[..i] == a[..i] && (a + "/" + b)[i + 1..] == a[i + 1..] + "/" + b
  {
  }

  lemma {:induction false} FirstSlashOfConcat(a: string, b: string)
    ensures FirstSlash(a + "/" + b) == FirstSlash(a)
  {
    var s, i, j := a + "/" + b, FirstSlash(a), FirstSlash(a + "/" + b);
    assert s[i] == '/';
    assert forall k :: 0 <= k < |a| ==> s[k] == a[k];
  }

  // ---- module names ------------------------------------------------------

  const PREFIXES := ["/$bunfs/root/", "B:/~BUN/root/", "/$bunfs/", "B:/~BUN/"]

  function SkipSlashes(name: string): string
  {
    if name != [] && name[0] == '/' then SkipSlashes(name[1..]) else name
  }

  function StripFrom(name: string, k: nat): string
    requires k <= 4
    decreases 4 - k
  {
    if k == 4 then SkipSlashes(name)
    else if PREFIXES[k] <= name then name[|PREFIXES[k]|..]
    else StripFrom(name, k + 1)
  }

  /** strip_prefix. */
  function StripPrefix(name: string): string
  {
    StripFrom(name, 0)
  }

  predicate EndsWith(s: string, suffix: string)
  {
    |s| >= |suffix| && s[|s| - |suffix|..] == suffix
  }

  /** The file a module is written to, or nothing when its name is refused. */
  function Destination(outdir: string, name: string, prepare: bool, isEntry: bool): Option<string>
  {
    var rel := StripPrefix(name);
    if HasDotDotSegment(rel) then None
    else if prepare && isEntry && !EndsWith(rel, ".mjs") then Some(outdir + "/" + (rel + ".mjs"))
    else Some(outdir + "/" + rel)
  }

  /** The entry's suffix cannot turn a segment into "..". */
  lemma {:induction false} SuffixKeepsSafe(rel: string)
    requires !HasDotDotSegment(rel)
    ensures ".." !in Split(rel + ".mjs")
  {
    DotDotTestExact(rel);
    SplitFindsDotDot(rel);
    SplitFindsDotDot(rel + ".mjs");
    hide Split, HasDotDotSegment;
    var s, n := rel + ".mjs", |rel|;
    assert s[n] == '.' && s[n + 1] == 'm' && s[n + 2] == 'j' && s[n + 3] == 's';
    assert forall k :: 0 <= k < n ==> s[k] == rel[k];
    forall a {:trigger DotDotAt(s, a)} | DotDotAt(s, a)
      ensures DotDotAt(rel, a)
    {
    }
  }

  /**
    Confinement: whatever a module is called, with or without the entry's suffix,
    the file lies under the output directory; and this holds for every output
    directory but the empty one, which would put the files at the root.
   */
  lemma {:induction false} DestinationConfined(outdir: string, name: string, prepare: bool, isEntry: bool)
    requires Destination(outdir, name, prepare, isEntry).Some?
    ensures Under(Locate(Destination(outdir, name, prepare, isEntry).value), Locate(outdir)) <==> outdir != ""
  {
    var rel := StripPrefix(name);
    var suffixed := prepare && isEntry && !EndsWith(rel, ".mjs");
    var relOut := if suffixed then rel + ".mjs" else rel;
    if suffixed {
      SuffixKeepsSafe(rel);
    } else {
      DotDotTestExact(rel);
    }
    PathConfined(outdir, relOut);
  }

  lemma {:induction false} PathConfined(outdir: string, rel: string)
    requires ".." !in Split(rel)
    ensures Under(Locate(outdir + "/" + rel), Locate(outdir)) <==> outdir != ""
  {
    var path, abs := outdir + "/" + rel, IsAbsolute(outdir);
    SplitConcat(outdir, rel);
    ResolveConcat(abs, [], Split(outdir), Split(rel));
    ResolveDown(abs, Resolve(abs, [], Split(outdir)), Split(rel));
    hide Split, Resolve;
    assert outdir != "" ==> path[0] == outdir[0];
    assert outdir == "" ==> path[0] == '/';
  }

  /** The first of the four prefixes a name has is taken off, and else its leading slashes. */
  lemma {:induction false} StripExact(prefix: string, rest: string)
    ensures StripPrefix("/$bunfs/root/" + rest) == rest
    ensures StripPrefix("B:/~BUN/root/" + rest) == rest
    ensures !("root/" <= rest) ==> StripPrefix("/$bunfs/" + rest) == rest && StripPrefix("B:/~BUN/" + rest) == rest
    ensures (&& AllSlashes(prefix) && !(rest != "" && rest[0] == '/')
             && !("/$bunfs/" <= prefix + rest) && !("B:/~BUN/" <= prefix + rest)) ==> StripPrefix(prefix + rest) == rest
  {
    StripRoot(rest);
    StripShort(rest);
    if AllSlashes(prefix) && !(rest != "" && rest[0] == '/') && !("/$bunfs/" <= prefix + rest) && !("B:/~BUN/" <= prefix + rest) {
      LongerPrefixes(prefix + rest);
      SlashesSkipped(prefix, rest);
    }
  }

  predicate AllSlashes(s: string) { forall i :: 0 <= i < |s| ==> s[i] == '/' }

  lemma {:induction false} StripRoot(rest: string)
    ensures StripPrefix("/$bunfs/root/" + rest) == rest && StripPrefix("B:/~BUN/root/" + rest) == rest
  {
    var a, b := "/$bunfs/root/" + rest, "B:/~BUN/root/" + rest;
    assert PREFIXES[0] <= a && a[|PREFIXES[0]|..] == rest;
    assert PREFIXES[1] <= b && b[|PREFIXES[1]|..] == rest;
    assert b[0] == 'B' && PREFIXES[0][0] == '/';
  }

  lemma {:induction false} StripShort(rest: string)
    ensures !("root/" <= rest) ==> StripPrefix("/$bunfs/" + rest) == rest && StripPrefix("B:/~BUN/" + rest) == rest
  {
    var a, b := "/$bunfs/" + rest, "B:/~BUN/" + rest;
    assert PREFIXES[0] == "/$bunfs/" + "root/" && PREFIXES[1] == "B:/~BUN/" + "root/";
    NotLonger("/$bunfs/", "root/", rest);
    NotLonger("B:/~BUN/", "root/", rest);
    assert a[0] == '/' && b[0] == 'B' && PREFIXES[0][0] == '/' && PREFIXES[1][0] == 'B' && PREFIXES[2][0] == '/' && PREFIXES[3][0] == 'B';
    assert PREFIXES[2] <= a && a[|PREFIXES[2]|..] == rest;
    assert PREFIXES[3] <= b && b[|PREFIXES[3]|..] == rest;
  }

  lemma {:induction false} NotLonger(p: string, q: string, rest: string)
    ensures p + q <= p + rest <==> q <= rest
  {
    assert (p + rest)[|p|..] == rest && (p + q)[|p|..] == q;
    if p + q <= p + rest {
      assert forall i :: 0 <= i < |q| ==> q[i] == (p + q)[|p| + i] == (p + rest)[|p| + i] == rest[i];
    }
  }

  lemma {:induction false} LongerPrefixes(name: string)
    requires !("/$bunfs/" <= name) && !("B:/~BUN/" <= name)
    ensures forall k :: 0 <= k < 4 ==> !(PREFIXES[k] <= name)
  {
    assert "/$bunfs/" <= PREFIXES[0] && "B:/~BUN/" <= PREFIXES[1];
  }

  lemma {:induction false} SlashesSkipped(prefix: string, rest: string)
    requires AllSlashes(prefix) && !(rest != "" && rest[0] == '/')
    ensures SkipSlashes(prefix + rest) == rest
  {
    if prefix == "" {
      assert prefix + rest == rest;
    } else {
      assert (prefix + rest)[1..] == prefix[1..] + rest;
      SlashesSkipped(prefix[1..], rest);
    }
  }
}
