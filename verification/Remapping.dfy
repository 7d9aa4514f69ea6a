/**
  When does remapping leave "/$bunfs/root/" behind?

  bun-extract replaces every "/$bunfs/root/" by its cache directory and a slash, and
  looks for one left in its entry module afterwards. One can be left: the cache
  directory may hold one, may complete one together with the text before a match, or
  its last slash may begin one. `RemapLeaves` says exactly when, for every text and
  every cache root.
 */
module Remapping {
  import opened Basics
  import opened ReplaceAll

  const FROM := "/$bunfs/root/"
  const TAIL := "$bunfs/root/"

  /** Two overlapping specifiers sharing one slash. */
  const DOUBLED := "/$bunfs/root/$bunfs/root/"

  lemma {:induction false} FromChars()
    ensures |FROM| == 13 && |TAIL| == 12 && |DOUBLED| == 25
    ensures FROM[0] == '/' && FROM[1] == '$' && FROM[6] == 's' && FROM[7] == '/' && FROM[8] == 'r' && FROM[12] == '/'
    ensures forall k :: 0 <= k < 13 && FROM[k] == '/' ==> k == 0 || k == 7 || k == 12
    ensures forall k :: 0 <= k < 12 ==> TAIL[k] == FROM[k + 1]
    ensures DOUBLED == FROM + TAIL
  {
  }

  /** The 16 digits of a printed 64-bit hash. */
  predicate IsHash(hex: string)
  {
    |hex| == 16 && forall k :: 0 <= k < 16 ==> '0' <= hex[k] <= '9' || 'a' <= hex[k] <= 'f'
  }

  /** What main replaces specifiers by: any cache root, the hash, and slashes. */
  ghost predicate CacheTarget(to: string)
  {
    exists root: string, hex: string :: IsHash(hex) && to == root + "/" + hex + "/"
  }

  lemma {:induction false} TargetEnds(to: string)
    requires CacheTarget(to)
    ensures |to| >= 18 && to[|to| - 1] == '/' && to[|to| - 2] != 's'
  {
    var root: string, hex: string :| IsHash(hex) && to == root + "/" + hex + "/";
    assert to[|to| - 2] == hex[15];
  }

  function Remapped(text: string, to: string): string
  {
    Replaced(text, FROM, to)
  }

  lemma {:induction false} Within(s: string, i: int)
    requires OccursAt(s, FROM, i)
    ensures 0 <= i && i + 13 <= |s|
  {
  }

  lemma {:induction false} OccursChars(s: string, i: int)
    requires OccursAt(s, FROM, i)
    ensures forall k {:trigger s[k]} :: i <= k < i + 13 ==> s[k] == FROM[k - i]
  {
  }

  lemma {:induction false} CharsOccur(s: string, i: int)
    requires 0 <= i && i + 13 <= |s| && forall k {:trigger s[k]} :: i <= k < i + 13 ==> s[k] == FROM[k - i]
    ensures OccursAt(s, FROM, i)
  {
  }

  /** The first `j` characters of a specifier, and the others. */
  function Head(j: nat): (r: string)
    requires j <= 13
    ensures |r| == j
  {
    FromChars();
    FROM[..j]
  }

  function Last(j: nat): (r: string)
    requires j <= 13
    ensures |r| == 13 - j
  {
    FromChars();
    FROM[j..]
  }

  lemma {:induction false} HeadLast(j: nat)
    requires j <= 13
    ensures Head(j) + Last(j) == FROM
  {
    FromChars();
  }

  /** A pattern over the seam of two strings. */
  lemma {:induction false} SeamOccurs(a: string, b: string, z: string, head: string, last: string, q: int)
    requires |head| <= |a| && |last| <= |b| && q == |a| - |head|
    ensures OccursAt(a + b + z, head + last, q) <==> a[q..] == head && last <= b
  {
    var out := a + b + z;
    assert out[q..q + |head| + |last|] == a[q..] + b[..|last|];
    assert (head + last)[..|head|] == head && (head + last)[|head|..] == last;
    assert (a[q..] + b[..|last|])[..|head|] == a[q..] && (a[q..] + b[..|last|])[|head|..] == b[..|last|];
  }

  /** Two matches overlap by a slash or not at all. */
  lemma {:induction false} MatchesOverlap(text: string, i: nat, q: nat)
    requires OccursAt(text, FROM, i) && OccursAt(text, FROM, q) && i <= q
    ensures q == i || q == i + 12 || q >= i + 13
  {
    FromChars();
    OccursChars(text, i);
    OccursChars(text, q);
    assert text[q] == '/' && text[q + 1] == '$';
    if i < q < i + 13 {
      assert text[q] == FROM[q - i];
    }
  }

  // ---- one replaced match ------------------------------------------------

  /** The last `j` characters before a match and the start of `to` spell a specifier. */
  predicate CrossesBy(p: string, to: string, j: nat)
  {
    1 <= j <= 11 && j <= |p| && p[|p| - j..] == Head(j) && Last(j) <= to
  }

  ghost predicate Crosses(p: string, to: string)
  {
    exists j: nat :: CrossesBy(p, to, j)
  }

  lemma {:induction false} CrossingIs(p: string, to: string, z: string, j: nat)
    requires |to| >= 13 && 1 <= j <= 11 && j <= |p|
    ensures OccursAt(p + to + z, FROM, |p| - j) <==> CrossesBy(p, to, j)
  {
    hide Head, Last;
    HeadLast(j);
    SeamOccurs(p, to, z, Head(j), Last(j), |p| - j);
  }

  /** An occurrence that starts before a match was there already, or crosses into `to`. */
  lemma {:induction false} AcrossFront(s: string, i: nat, to: string, z: string, q: nat)
    requires |to| >= 13 && OccursAt(s, FROM, i) && q < i
    requires OccursAt(s[..i] + to + z, FROM, q)
    ensures OccursAt(s, FROM, q) || CrossesBy(s[..i], to, i - q)
  {
    var p := s[..i];
    if q + 11 >= i {
      CrossingIs(p, to, z, i - q);
    } else {
      FromChars();
      var out := p + to + z;
      hide CrossesBy;
      OccursChars(out, q);
      OccursChars(s, i);
      assert forall k :: 0 <= k < i ==> out[k] == p[k] && p[k] == s[k];
      assert s[i] == '/';
      CharsOccur(s, q);
    }
  }

  /** An occurrence from inside `to` over its last slash needs an 's' before that slash. */
  lemma {:induction false} StraddlesEnd(p: string, to: string, z: string, q: nat)
    requires |to| >= 13 && to[|to| - 1] == '/' && |p| <= q && |p| + |to| - 13 < q < |p| + |to| - 1
    requires OccursAt(p + to + z, FROM, q)
    ensures to[|to| - 2] == 's'
  {
    FromChars();
    var out, n := p + to + z, |p| + |to|;
    OccursChars(out, q);
    assert out[n - 1] == to[|to| - 1] && out[n - 2] == to[|to| - 2];
  }

  /** An occurrence that starts inside `to`, before its last slash, lies in `to`. */
  lemma {:induction false} InsideTarget(p: string, to: string, z: string, q: nat)
    requires |to| >= 13 && to[|to| - 1] == '/' && to[|to| - 2] != 's' && |p| <= q < |p| + |to| - 1
    ensures OccursAt(p + to + z, FROM, q) <==> OccursAt(to, FROM, q - |p|)
  {
    FromChars();
    var out := p + to + z;
    if q + 13 <= |p| + |to| {
      assert to[q - |p|..q - |p| + 13] == out[q..q + 13];
    } else if OccursAt(out, FROM, q) {
      StraddlesEnd(p, to, z, q);
    }
  }

  /** On the last slash of `to`: then the rest begins with TAIL. */
  lemma {:induction false} OnLastSlash(p: string, to: string, z: string)
    requires to != [] && to[|to| - 1] == '/'
    ensures OccursAt(p + to + z, FROM, |p| + |to| - 1) <==> TAIL <= z
  {
    FromChars();
    var out, q := p + to + z, |p| + |to| - 1;
    if OccursAt(out, FROM, q) {
      assert z[..12] == out[q..q + 13][1..] == TAIL;
    }
    if TAIL <= z {
      assert out[q..q + 13] == ['/'] + z[..12];
    }
  }

  lemma {:induction false} BehindTarget(p: string, to: string, z: string, q: nat)
    requires q >= |p| + |to|
    ensures OccursAt(p + to + z, FROM, q) <==> OccursAt(z, FROM, q - |p| - |to|)
  {
  }

  /** What is left behind after a match: in `to`, across its start, on its last slash, or in the rest. */
  lemma {:induction false} ResidueForward(text: string, to: string, i: nat, z: string, q: nat)
    requires Find(text, FROM) == Some(i) && |to| >= 13 && to[|to| - 1] == '/' && to[|to| - 2] != 's'
    requires OccursAt(text[..i] + to + z, FROM, q)
    ensures Contains(to, FROM) || Crosses(text[..i], to) || TAIL <= z || Contains(z, FROM)
  {
    hide Find, CrossesBy;
    var p := text[..i];
    if q < i {
      AcrossFront(text, i, to, z, q);
    } else if q < i + |to| - 1 {
      InsideTarget(p, to, z, q);
    } else if q == i + |to| - 1 {
      OnLastSlash(p, to, z);
    } else {
      BehindTarget(p, to, z, q);
    }
  }

  lemma {:induction false} CrossingBound(p: string, to: string, j: nat)
    requires CrossesBy(p, to, j)
    ensures 1 <= j <= 11 && j <= |p|
  {
  }

  lemma {:induction false} ResidueBackward(p: string, to: string, z: string)
    requires |to| >= 13 && to[|to| - 1] == '/' && to[|to| - 2] != 's'
    requires Contains(to, FROM) || Crosses(p, to) || TAIL <= z || Contains(z, FROM)
    ensures Contains(p + to + z, FROM)
  {
    FromChars();
    hide CrossesBy;
    if q :| OccursAt(to, FROM, q) {
      assert (p + to + z)[|p| + q..|p| + q + 13] == to[q..q + 13];
      assert OccursAt(p + to + z, FROM, |p| + q);
    } else if j: nat :| CrossesBy(p, to, j) {
      CrossingBound(p, to, j);
      CrossingIs(p, to, z, j);
    } else if TAIL <= z {
      OnLastSlash(p, to, z);
    } else {
      var q :| OccursAt(z, FROM, q);
      BehindTarget(p, to, z, |p| + |to| + q);
    }
  }

  // ---- the beginning of the output ---------------------------------------

  /** The rest of the text begins with a part of TAIL, and `to` completes it. */
  ghost predicate CrossesRest(rest: string, to: string)
  {
    match Find(rest, FROM)
    case None => false
    case Some(j) => j <= 10 && OccursAt(rest, TAIL[..j], 0) && Last(j + 1) <= to
  }

  /** The rest begins with TAIL, and its last slash survives. */
  predicate SlashLeft(rest: string, to: string)
  {
    TAIL <= rest && (IsAbsolute(to) || !OccursAt(rest, FROM, 11))
  }

  lemma {:induction false} TailOverMatch(r: string, j: nat)
    requires j < 12 && OccursAt(r, FROM, j) && TAIL <= r
    ensures j == 11
  {
    FromChars();
    OccursChars(r, j);
    assert r[j] == TAIL[j] && r[7] == TAIL[7];
  }

  lemma {:induction false} LastIsTail(j: nat)
    requires j <= 11
    ensures Last(j + 1) == TAIL[j..]
  {
    FromChars();
  }

  lemma {:induction false} TailSplits(r: string, j: nat, to: string, z: string)
    requires j < 12 && |to| >= 13 && j <= |r|
    ensures TAIL <= r[..j] + to + z <==> OccursAt(r, TAIL[..j], 0) && Last(j + 1) <= to
  {
    FromChars();
    var a := r[..j];
    LastIsTail(j);
    hide Last;
    SeamOccurs(a, to, z, TAIL[..j], TAIL[j..], 0);
    assert TAIL == TAIL[..j] + TAIL[j..];
    assert a[0..] == a;
    assert OccursAt(a + to + z, TAIL, 0) <==> TAIL <= a + to + z;
  }

  lemma {:induction false} TailAtEleven(r: string, to: string)
    requires OccursAt(r, FROM, 11) && to != []
    ensures OccursAt(r, TAIL[..11], 0) && Last(12) <= to <==> TAIL <= r && to[0] == '/'
  {
    FromChars();
    OccursChars(r, 11);
    assert r[11] == '/' && TAIL[11] == '/' && Last(12) == ['/'];
    assert r[..12] == r[..11] + [r[11]] && TAIL == TAIL[..11] + [TAIL[11]];
    assert r[0..11] == r[..11];
  }

  /** How the remapped rest can begin with TAIL. */
  lemma {:induction false} TailKept(rest: string, to: string)
    requires |to| >= 13
    ensures TAIL <= Remapped(rest, to) <==> CrossesRest(rest, to) || SlashLeft(rest, to)
  {
    hide Find;
    FromChars();
    match Find(rest, FROM)
    case None =>
    case Some(j) =>
      var z := Remapped(rest[j + 13..], to);
      assert Remapped(rest, to) == rest[..j] + to + z;
      if j >= 12 {
        assert (rest[..j] + to + z)[..12] == rest[..12];
      } else {
        TailSplits(rest, j, to, z);
        if j == 11 {
          TailAtEleven(rest, to);
        } else if TAIL <= rest {
          TailOverMatch(rest, j);
        }
      }
  }

  // ---- a specifier spilling over the start of `to` -----------------------

  lemma {:induction false} OccursJoined(s: string, a: string, b: string, q: int)
    ensures OccursAt(s, a + b, q) <==> OccursAt(s, a, q) && OccursAt(s, b, q + |a|)
  {
    if 0 <= q <= q + |a| + |b| <= |s| {
      var both := s[q..q + |a| + |b|];
      assert both[..|a|] == s[q..q + |a|] && both[|a|..] == s[q + |a|..q + |a| + |b|];
      assert (a + b)[..|a|] == a && (a + b)[|a|..] == b;
      SliceJoin(s, q, q + |a|, q + |a| + |b|);
    }
  }

  /** An occurrence at `c` with the first `j` characters of another before it, which `to` completes. */
  predicate SpillsAt(text: string, to: string, j: nat, c: nat)
  {
    1 <= j <= 11 && Last(j) <= to && OccursAt(text, Head(j), c - j) && OccursAt(text, FROM, c)
  }

  /** The text has the first `j` characters of a specifier before a whole one, and `to` starts with the others. */
  ghost predicate Spills(text: string, to: string)
  {
    exists j: nat :: 1 <= j <= 11 && Last(j) <= to && Contains(text, Head(j) + FROM)
  }

  lemma {:induction false} SpillsSomewhere(text: string, to: string)
    ensures Spills(text, to) <==> exists j: nat, c: nat :: SpillsAt(text, to, j, c)
  {
    hide OccursAt, Head, Last;
    if Spills(text, to) {
      var j: nat :| 1 <= j <= 11 && Last(j) <= to && Contains(text, Head(j) + FROM);
      var q :| OccursAt(text, Head(j) + FROM, q);
      OccursJoined(text, Head(j), FROM, q);
      Within(text, q + j);
      assert SpillsAt(text, to, j, q + j);
    }
    if j: nat, c: nat :| SpillsAt(text, to, j, c) {
      OccursJoined(text, Head(j), FROM, c - j);
    }
  }

  /** Before a match there is nothing of another, except its last slash. */
  lemma {:induction false} PrefixInMatch(text: string, i: nat, j: nat, c: nat)
    requires OccursAt(text, FROM, i) && 1 <= j <= 11 && OccursAt(text, Head(j), c - j)
    requires i + 1 <= c - j <= i + 12 && c > i + 11
    ensures c - j == i + 12
  {
    FromChars();
    OccursChars(text, i);
    assert text[c - j] == text[c - j..c][0] && text[c - j] == FROM[c - j - i];
    assert j >= 2 ==> text[c - j + 1] == text[c - j..c][1];
    assert text[i + 8] == 'r';
  }

  /** Matches closer than 12 are one, so an early match in the rest is its first. */
  lemma {:induction false} FirstInRest(rest: string, j: nat)
    requires j <= 11 && OccursAt(rest, FROM, j)
    ensures Find(rest, FROM) == Some(j)
  {
    var r := Find(rest, FROM).value;
    MatchesOverlap(rest, r, j);
  }

  /** The slash of a match and the start of TAIL behind it are the start of a specifier. */
  lemma {:induction false} SlashAndTail(text: string, i: nat, j: nat)
    requires OccursAt(text, FROM, i) && j <= 10
    ensures OccursAt(text, Head(j + 1), i + 12) <==> OccursAt(text[i + 13..], TAIL[..j], 0)
  {
    FromChars();
    var k := i + 13;
    OccursChars(text, i);
    assert OccursAt(text, ['/'], i + 12) by { assert text[i + 12..i + 13] == [text[i + 12]]; }
    assert Head(j + 1) == ['/'] + TAIL[..j];
    OccursJoined(text, ['/'], TAIL[..j], i + 12);
    OccursInSuffix(text, TAIL[..j], k, 0);
  }

  lemma {:induction false} SpillIntoRest(text: string, to: string, i: nat, j: nat)
    requires OccursAt(text, FROM, i) && SpillsAt(text, to, j, i + 12 + j)
    ensures CrossesRest(text[i + 13..], to)
  {
    hide Find, Head, Last, OccursAt;
    Within(text, i);
    Within(text, i + 12 + j);
    OccursInSuffix(text, FROM, i + 13, j - 1);
    FirstInRest(text[i + 13..], j - 1);
    SlashAndTail(text, i, j - 1);
  }

  lemma {:induction false} SpillCrosses(text: string, to: string, i: nat, j: nat)
    requires OccursAt(text, FROM, i)
    ensures SpillsAt(text, to, j, i) <==> CrossesBy(text[..i], to, j)
  {
    hide Head, Last;
    if 1 <= j <= 11 && j <= i {
      assert text[i - j..i] == text[..i][i - j..];
    }
  }

  lemma {:induction false} SpillForward(text: string, to: string, i: nat, j: nat, c: nat)
    requires Find(text, FROM) == Some(i) && SpillsAt(text, to, j, c)
    ensures Crosses(text[..i], to) || CrossesRest(text[i + 13..], to) || Spills(text[i + 13..], to)
  {
    hide Find, Spills, CrossesRest, Head, Last, OccursAt;
    Within(text, i);
    Within(text, c);
    var k, rest := i + 13, text[i + 13..];
    if c == i {
      SpillCrosses(text, to, i, j);
    } else {
      MatchesOverlap(text, i, c);
      if c - j >= k {
        OccursInSuffix(text, FROM, k, c - k);
        OccursInSuffix(text, Head(j), k, c - k - j);
        assert SpillsAt(rest, to, j, c - k);
        SpillsSomewhere(rest, to);
      } else {
        PrefixInMatch(text, i, j, c);
        SpillIntoRest(text, to, i, j);
      }
    }
  }

  lemma {:induction false} RestSpills(text: string, to: string, i: nat)
    requires OccursAt(text, FROM, i) && CrossesRest(text[i + 13..], to)
    ensures var j := Find(text[i + 13..], FROM).value; SpillsAt(text, to, j + 1, i + 13 + j)
  {
    hide Find, Head, Last, OccursAt;
    Within(text, i);
    var j := Find(text[i + 13..], FROM).value;
    OccursInSuffix(text, FROM, i + 13, j);
    SlashAndTail(text, i, j);
  }

  lemma {:induction false} SpillBackward(text: string, to: string, i: nat)
    requires OccursAt(text, FROM, i)
    requires Crosses(text[..i], to) || CrossesRest(text[i + 13..], to) || Spills(text[i + 13..], to)
    ensures Spills(text, to)
  {
    hide Find, OccursAt, CrossesBy, Spills, CrossesRest;
    Within(text, i);
    var k, rest := i + 13, text[i + 13..];
    SpillsSomewhere(text, to);
    SpillsSomewhere(rest, to);
    if j: nat :| CrossesBy(text[..i], to, j) {
      SpillCrosses(text, to, i, j);
    } else if CrossesRest(rest, to) {
      RestSpills(text, to, i);
    } else {
      var j: nat, c: nat :| SpillsAt(rest, to, j, c);
      SpillsBehind(text, to, k, j, c);
    }
  }

  lemma {:induction false} SpillsBehind(text: string, to: string, k: nat, j: nat, c: nat)
    requires k <= |text| && SpillsAt(text[k..], to, j, c)
    ensures SpillsAt(text, to, j, k + c)
  {
    hide Head, Last;
    OccursInSuffix(text, FROM, k, c);
    OccursInSuffix(text, Head(j), k, c - j);
  }

  // ---- specifiers sharing slashes ----------------------------------------

  /** Exactly `n` specifiers from `p` on, each sharing its first slash with the one before. */
  predicate ChainAt(s: string, p: nat, n: nat)
    decreases n
  {
    if n == 0 then !OccursAt(s, FROM, p) else OccursAt(s, FROM, p) && ChainAt(s, p + 12, n - 1)
  }

  /** A longest chain of specifiers sharing slashes has an even number of them. */
  ghost predicate EvenChain(s: string)
  {
    exists p: nat, m: nat :: EvenChainAt(s, p, m)
  }

  predicate EvenChainAt(s: string, p: nat, m: nat)
  {
    m >= 1 && !OccursAt(s, FROM, p - 12) && ChainAt(s, p, 2 * m)
  }

  /**
    Specifiers that share a slash. Every second one of a chain is replaced, so an
    even chain leaves its last one behind; an odd chain does if `to` brings a slash.
   */
  ghost predicate Shared(text: string, to: string)
  {
    if IsAbsolute(to) then Contains(text, DOUBLED) else EvenChain(text)
  }

  lemma {:induction false} ChainInSuffix(s: string, k: nat, p: nat, n: nat)
    requires k <= |s|
    ensures ChainAt(s[k..], p, n) <==> ChainAt(s, k + p, n)
    decreases n
  {
    hide OccursAt;
    OccursInSuffix(s, FROM, k, p);
    if n > 0 {
      ChainInSuffix(s, k, p + 12, n - 1);
    }
  }

  /** A specifier is followed by TAIL exactly when the next one shares its slash. */
  lemma {:induction false} TailIsNext(text: string, i: nat)
    requires OccursAt(text, FROM, i)
    ensures TAIL <= text[i + 13..] <==> OccursAt(text, FROM, i + 12)
  {
    FromChars();
    var rest := text[i + 13..];
    assert text[i + 12] == text[i..i + 13][12];
    if |rest| >= 12 {
      assert text[i + 12..i + 25] == [text[i + 12]] + rest[..12];
      assert FROM == ['/'] + TAIL;
      if text[i + 12..i + 25] == FROM {
        assert rest[..12] == text[i + 12..i + 25][1..];
      }
    }
  }

  lemma {:induction false} EvenForward(text: string, i: nat, p: nat, m: nat)
    requires Find(text, FROM) == Some(i) && EvenChainAt(text, p, m)
    ensures var rest := text[i + 13..]; (TAIL <= rest && !OccursAt(rest, FROM, 11)) || EvenChain(rest)
  {
    hide Find, OccursAt;
    Within(text, i);
    var k, rest := i + 13, text[i + 13..];
    TailIsNext(text, i);
    OccursInSuffix(text, FROM, k, 11);
    if p == i {
      assert ChainAt(text, i + 12, 2 * m - 1) && ChainAt(text, i + 24, 2 * m - 2);
      if m > 1 {
        ChainInSuffix(text, k, 11, 2 * m - 2);
        NoneBefore(rest, -1);
        assert EvenChainAt(rest, 11, m - 1);
      }
    } else {
      MatchesOverlap(text, i, p);
      ChainInSuffix(text, k, p - k, 2 * m);
      if p - k >= 12 {
        OccursInSuffix(text, FROM, k, p - k - 12);
      } else {
        NoneBefore(rest, p - k - 12);
      }
      assert EvenChainAt(rest, p - k, m);
    }
  }

  lemma {:induction false} NoneBefore(s: string, i: int)
    requires i < 0
    ensures !OccursAt(s, FROM, i)
  {
  }

  lemma {:induction false} EvenBackward(text: string, i: nat)
    requires Find(text, FROM) == Some(i)
    requires var rest := text[i + 13..]; (TAIL <= rest && !OccursAt(rest, FROM, 11)) || EvenChain(rest)
    ensures EvenChain(text)
  {
    hide Find, OccursAt;
    Within(text, i);
    var k, rest := i + 13, text[i + 13..];
    TailIsNext(text, i);
    OccursInSuffix(text, FROM, k, 11);
    if i < 12 {
      NoneBefore(text, i - 12);
    }
    if TAIL <= rest && !OccursAt(rest, FROM, 11) {
      assert ChainAt(text, i + 24, 0) && ChainAt(text, i + 12, 1);
      assert EvenChainAt(text, i, 1);
    } else {
      var p: nat, m: nat :| EvenChainAt(rest, p, m);
      ChainInSuffix(text, k, p, 2 * m);
      if p == 11 && OccursAt(text, FROM, i + 12) {
        assert ChainAt(text, i + 12, 2 * m + 1);
        assert EvenChainAt(text, i, m + 1);
      } else {
        ChainStart(text, i, p);
        assert EvenChainAt(text, k + p, m);
      }
    }
  }

  lemma {:induction false} ChainStart(text: string, i: nat, p: nat)
    requires OccursAt(text, FROM, i) && !OccursAt(text[i + 13..], FROM, p - 12)
    requires p == 11 ==> !OccursAt(text, FROM, i + 12)
    ensures !OccursAt(text, FROM, i + 13 + p - 12)
  {
    hide OccursAt;
    Within(text, i);
    if p >= 12 {
      OccursInSuffix(text, FROM, i + 13, p - 12);
    } else if OccursAt(text, FROM, i + 1 + p) {
      MatchesOverlap(text, i, i + 1 + p);
    }
  }

  lemma {:induction false} DoubledIs(text: string, q: int)
    ensures OccursAt(text, DOUBLED, q) <==> OccursAt(text, FROM, q) && OccursAt(text, FROM, q + 12)
  {
    FromChars();
    OccursJoined(text, FROM, TAIL, q);
    if OccursAt(text, FROM, q) {
      TailIsNext(text, q);
      assert OccursAt(text, TAIL, q + 13) <==> TAIL <= text[q + 13..];
    }
  }

  lemma {:induction false} DoubledStep(text: string, i: nat)
    requires Find(text, FROM) == Some(i)
    ensures var rest := text[i + 13..];
            Contains(text, DOUBLED) <==> TAIL <= rest || Contains(rest, DOUBLED)
  {
    hide Find, OccursAt;
    Within(text, i);
    var k, rest := i + 13, text[i + 13..];
    TailIsNext(text, i);
    DoubledIs(text, i);
    if q :| OccursAt(text, DOUBLED, q) {
      DoubledIs(text, q);
      DoubledForward(text, i, q);
    }
    if q :| OccursAt(rest, DOUBLED, q) {
      DoubledIs(rest, q);
      Within(rest, q);
      OccursInSuffix(text, DOUBLED, k, q);
    }
  }

  lemma {:induction false} DoubledForward(text: string, i: nat, q: int)
    requires Find(text, FROM) == Some(i) && OccursAt(text, FROM, q) && OccursAt(text, DOUBLED, q)
    ensures OccursAt(text, FROM, i + 12) || Contains(text[i + 13..], DOUBLED)
  {
    hide Find, OccursAt;
    Within(text, i);
    Within(text, q);
    MatchesOverlap(text, i, q);
    DoubledIs(text, q);
    if q >= i + 13 {
      OccursInSuffix(text, DOUBLED, i + 13, q - i - 13);
    }
  }

  lemma {:induction false} SharedStep(text: string, to: string, i: nat)
    requires Find(text, FROM) == Some(i)
    ensures Shared(text, to) <==> SlashLeft(text[i + 13..], to) || Shared(text[i + 13..], to)
  {
    hide Find, OccursAt;
    Within(text, i);
    if IsAbsolute(to) {
      DoubledStep(text, i);
    } else {
      if p: nat, m: nat :| EvenChainAt(text, p, m) {
        EvenForward(text, i, p, m);
      }
      if SlashLeft(text[i + 13..], to) || EvenChain(text[i + 13..]) {
        EvenBackward(text, i);
      }
    }
  }

  // ---- the theorem -------------------------------------------------------

  /** One of the three ways a specifier is left. */
  ghost predicate Leaves(text: string, to: string)
  {
    || (Contains(text, FROM) && Contains(to, FROM))
    || Spills(text, to)
    || Shared(text, to)
  }

  lemma {:induction false} LeavesNeedsMatch(text: string, to: string)
    requires Leaves(text, to)
    ensures Contains(text, FROM)
  {
    hide OccursAt;
    if Spills(text, to) {
      SpillsSomewhere(text, to);
    } else if Shared(text, to) {
      if IsAbsolute(to) {
        var q :| OccursAt(text, DOUBLED, q);
        DoubledIs(text, q);
      }
    }
  }

  lemma {:induction false} LeavesStep(text: string, to: string, i: nat)
    requires Find(text, FROM) == Some(i)
    ensures var rest := text[i + 13..];
            Leaves(text, to) <==>
              || Contains(to, FROM) || Crosses(text[..i], to) || CrossesRest(rest, to) || SlashLeft(rest, to)
              || Leaves(rest, to)
  {
    hide Find, OccursAt, Spills, Shared, Crosses, CrossesRest, SlashLeft;
    Within(text, i);
    var rest := text[i + 13..];
    SharedStep(text, to, i);
    if Spills(text, to) {
      SpillsSomewhere(text, to);
      var j: nat, c: nat :| SpillsAt(text, to, j, c);
      SpillForward(text, to, i, j, c);
    }
    if Crosses(text[..i], to) || CrossesRest(rest, to) || Spills(rest, to) {
      SpillBackward(text, to, i);
    }
  }

  /**
    For every text and every cache root: a "/$bunfs/root/" is left after remapping if
    and only if the cache directory holds one and the text too, or the text has the
    start of one before a whole one and the directory starts with the others, or
    specifiers in the text share slashes, in an even chain if the root is relative.
   */
  lemma {:induction false} RemapLeaves(text: string, to: string)
    requires CacheTarget(to)
    ensures Contains(Remapped(text, to), FROM) <==> Leaves(text, to)
    decreases |text|
  {
    hide OccursAt, Leaves, Crosses, CrossesRest, SlashLeft;
    TargetEnds(to);
    hide CacheTarget;
    match Find(text, FROM)
    case None =>
      if Leaves(text, to) {
        LeavesNeedsMatch(text, to);
      }
      if q :| OccursAt(text, FROM, q) {
        Within(text, q);
      }
    case Some(i) =>
      Within(text, i);
      var p, rest := text[..i], text[i + 13..];
      var z := Remapped(rest, to);
      assert |FROM| == 13 && Remapped(text, to) == p + to + z;
      hide Find, Remapped;
      RemapLeaves(rest, to);
      LeavesStep(text, to, i);
      TailKept(rest, to);
      if q :| OccursAt(p + to + z, FROM, q) {
        Within(p + to + z, q);
        ResidueForward(text, to, i, z, q);
      }
      if Contains(to, FROM) || Crosses(p, to) || TAIL <= z || Contains(z, FROM) {
        ResidueBackward(p, to, z);
      }
  }

  lemma {:induction false} OccursHasDollar(s: string, q: int)
    requires OccursAt(s, FROM, q)
    ensures '$' in s
  {
    FromChars();
    OccursChars(s, q);
    assert s[q + 1] == '$';
  }

  /** Under an absolute cache root without '$', outside /root/, only shared slashes matter. */
  lemma {:induction false} UsualRoot(text: string, to: string)
    requires CacheTarget(to) && IsAbsolute(to) && '$' !in to && !(Last(7) <= to)
    ensures Contains(Remapped(text, to), FROM) <==> Contains(text, DOUBLED)
  {
    RemapLeaves(text, to);
    hide Contains, Remapped, CacheTarget;
    NoDollar(to);
    if Spills(text, to) {
      var j: nat :| 1 <= j <= 11 && Last(j) <= to && Contains(text, Head(j) + FROM);
      OnlyAtRoot(to, j);
    }
  }

  lemma {:induction false} NoDollar(to: string)
    requires '$' !in to
    ensures !Contains(to, FROM)
  {
    if q :| OccursAt(to, FROM, q) {
      OccursHasDollar(to, q);
    }
  }

  lemma {:induction false} OnlyAtRoot(to: string, j: nat)
    requires 1 <= j <= 11 && Last(j) <= to && IsAbsolute(to)
    ensures j == 7
  {
    FromChars();
    assert to[0] == Last(j)[0];
  }

  /** The self-check's worry is real: under any absolute root two specifiers sharing a slash leave one. */
  lemma {:induction false} RemapCanLeaveSpecifier(to: string)
    requires CacheTarget(to) && IsAbsolute(to)
    ensures Contains(Remapped(DOUBLED, to), FROM)
  {
    assert OccursAt(DOUBLED, DOUBLED, 0);
    RemapLeaves(DOUBLED, to);
  }

  /**
    A root that starts with the end of a specifier, as /root/... and the relative
    root/... do, completes one whose start stands before a whole one.
   */
  lemma {:induction false} RootCanCompleteSpecifier(to: string, j: nat)
    requires CacheTarget(to) && 1 <= j <= 11 && Last(j) <= to
    ensures Contains(Remapped(Head(j) + FROM, to), FROM)
  {
    var text := Head(j) + FROM;
    assert OccursAt(text, text, 0);
    RemapLeaves(text, to);
  }

  const TRIPLED := "/$bunfs/root/$bunfs/root/$bunfs/root/"

  lemma {:induction false} TripledOccurs(q: int)
    ensures OccursAt(TRIPLED, FROM, q) <==> q == 0 || q == 12 || q == 24
    ensures OccursAt(TRIPLED, DOUBLED, 0)
  {
    assert |TRIPLED| == 37 && |FROM| == 13 && |DOUBLED| == 25;
    assert TRIPLED[0..13] == FROM && TRIPLED[12..25] == FROM && TRIPLED[24..37] == FROM && TRIPLED[0..25] == DOUBLED;
    if OccursAt(TRIPLED, FROM, q) {
      MatchesOverlap(TRIPLED, 0, q);
      if q >= 12 {
        MatchesOverlap(TRIPLED, 12, q);
      }
    }
  }

  lemma {:induction false} TripledNotEven(p: nat, m: nat)
    ensures !EvenChainAt(TRIPLED, p, m)
  {
    hide OccursAt;
    TripledOccurs(p);
    TripledOccurs(p - 12);
    TripledOccurs(p + 12);
    TripledOccurs(p + 24);
    TripledOccurs(p + 36);
    if m == 1 {
      assert ChainAt(TRIPLED, p, 2) ==> OccursAt(TRIPLED, FROM, p + 12) && !OccursAt(TRIPLED, FROM, p + 24);
    } else if m > 1 {
      ChainHas(TRIPLED, p, 2 * m, 3);
    }
  }

  lemma {:induction false} ChainHas(s: string, p: nat, n: nat, k: nat)
    requires k < n
    ensures ChainAt(s, p, n) ==> OccursAt(s, FROM, p + 12 * k)
    decreases k
  {
    if k > 0 {
      ChainHas(s, p + 12, n - 1, k - 1);
    }
  }

  lemma {:induction false} TripledNotSpilling(to: string, j: nat, c: nat)
    ensures !SpillsAt(TRIPLED, to, j, c)
  {
    hide OccursAt, Head, Last;
    if SpillsAt(TRIPLED, to, j, c) {
      TripledOccurs(c);
      TripledOccurs(c - 12);
      HeadWithin(TRIPLED, j, c - j);
      PrefixInMatch(TRIPLED, c - 12, j, c);
    }
  }

  lemma {:induction false} HeadWithin(s: string, j: nat, q: int)
    requires j <= 13 && OccursAt(s, Head(j), q)
    ensures q >= 0
  {
  }

  /** Under a relative root without a specifier, three specifiers sharing slashes are all gone. */
  lemma {:induction false} OddChainGone(to: string)
    requires CacheTarget(to) && !IsAbsolute(to) && !Contains(to, FROM)
    ensures Contains(TRIPLED, DOUBLED) && !Contains(Remapped(TRIPLED, to), FROM)
  {
    hide OccursAt, CacheTarget, EvenChainAt, SpillsAt, Spills;
    TripledOccurs(0);
    RemapLeaves(TRIPLED, to);
    SpillsSomewhere(TRIPLED, to);
    forall j: nat, c: nat
      ensures !SpillsAt(TRIPLED, to, j, c)
    {
      TripledNotSpilling(to, j, c);
    }
    forall p: nat, m: nat
      ensures !EvenChainAt(TRIPLED, p, m)
    {
      TripledNotEven(p, m);
    }
  }
}
