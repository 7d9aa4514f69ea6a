/**
  bun-extract's remapping of "/$bunfs/root/" specifiers.

  `replace_all` counts the matches, sizes a buffer, then finds the matches again and
  copies. It is proved equal to leftmost non-overlapping replacement, inside its
  buffer exactly when the size it computes does not wrap.
 */
module ReplaceAll {
  import opened Basics

  /** The leftmost occurrence of `pat`, as memmem finds it. */
  function Find(s: string, pat: string): (r: Option<nat>)
    ensures r.Some? ==> OccursAt(s, pat, r.value)
    ensures forall i :: 0 <= i && (r.Some? ==> i < r.value) ==> !OccursAt(s, pat, i)
  {
    if pat <= s then
      assert s[..|pat|] == pat;
      Some(0)
    else if s == [] then
      None
    else
      var r := Find(s[1..], pat);
      assert forall i {:trigger OccursAt(s, pat, i)} :: OccursAt(s, pat, i) ==> i > 0 && OccursAt(s[1..], pat, i - 1) by {
        OccursShift(s, pat);
      }
      match r
      case None => None
      case Some(i) => OccursShiftBack(s, pat, i); Some(i + 1)
  }

  predicate OccursAt(s: string, pat: string, i: int)
  {
    0 <= i <= i + |pat| <= |s| && s[i..i + |pat|] == pat
  }

  lemma {:induction false} OccursShift(s: string, pat: string)
    requires s != [] && !(pat <= s)
    ensures forall i {:trigger OccursAt(s, pat, i)} :: OccursAt(s, pat, i) ==> i > 0 && OccursAt(s[1..], pat, i - 1)
  {
  }

  lemma {:induction false} OccursShiftBack(s: string, pat: string, i: nat)
    requires s != [] && OccursAt(s[1..], pat, i)
    ensures OccursAt(s, pat, i + 1)
  {
  }

  lemma {:induction false} OccursInSuffix(s: string, pat: string, k: nat, q: nat)
    requires k <= |s|
    ensures OccursAt(s[k..], pat, q) <==> OccursAt(s, pat, k + q)
  {
  }

  ghost predicate Contains(s: string, pat: string)
  {
    exists i :: OccursAt(s, pat, i)
  }

  // ---- the specification -------------------------------------------------

  /** Leftmost non-overlapping replacement. */
  function Replaced(s: string, from: string, to: string): string
    requires from != []
    decreases |s|
  {
    match Find(s, from)
    case None => s
    case Some(i) => s[..i] + to + Replaced(s[i + |from|..], from, to)
  }

  function Matches(s: string, from: string): nat
    requires from != []
    decreases |s|
  {
    match Find(s, from)
    case None => 0
    case Some(i) => 1 + Matches(s[i + |from|..], from)
  }

  /** The runs copied through, around the matches. */
  function Pieces(s: string, from: string): (r: seq<string>)
    requires from != []
    ensures r != []
    decreases |s|
  {
    match Find(s, from)
    case None => [s]
    case Some(i) => [s[..i]] + Pieces(s[i + |from|..], from)
  }

  function Join(pieces: seq<string>, sep: string): string
    requires pieces != []
  {
    if |pieces| == 1 then pieces[0] else pieces[0] + sep + Join(pieces[1..], sep)
  }

  /** The same pieces are joined by `from` in the input and by `to` in the output. */
  lemma {:induction false} ReplacedJoins(s: string, from: string, to: string)
    requires from != []
    ensures Join(Pieces(s, from), from) == s && Join(Pieces(s, from), to) == Replaced(s, from, to)
    ensures |Pieces(s, from)| == Matches(s, from) + 1
    decreases |s|
  {
    hide Find;
    match Find(s, from)
    case None =>
    case Some(i) =>
      var rest := s[i + |from|..];
      var p := Pieces(rest, from);
      assert ([s[..i]] + p)[1..] == p;
      ReplacedJoins(rest, from, to);
      assert s == s[..i] + from + rest;
  }

  /** No piece contains `from`, not even together with a part of the match after it. */
  lemma {:induction false} PiecesClean(s: string, from: string, k: nat)
    requires from != [] && k < |Pieces(s, from)|
    ensures !Contains(Pieces(s, from)[k], from)
    ensures k + 1 < |Pieces(s, from)| ==> Find(Pieces(s, from)[k] + from, from) == Some(|Pieces(s, from)[k]|)
    decreases |s|
  {
    hide Find;
    match Find(s, from)
    case None =>
    case Some(i) =>
      LeftmostPrefix(s, from, i);
      if k > 0 {
        PiecesClean(s[i + |from|..], from, k - 1);
      }
  }

  lemma {:induction false} LeftmostPrefix(s: string, from: string, i: nat)
    requires from != [] && Find(s, from) == Some(i)
    ensures !Contains(s[..i], from) && Find(s[..i] + from, from) == Some(i)
  {
    hide Find;
    assert s[..i] + from == s[..i + |from|];
    assert OccursAt(s[..i] + from, from, i);
    forall k | OccursAt(s[..i] + from, from, k)
      ensures OccursAt(s, from, k)
    {
      OccursInPrefix(s, i + |from|, from, k);
    }
    forall k | OccursAt(s[..i], from, k)
      ensures OccursAt(s, from, k)
    {
      OccursInPrefix(s, i, from, k);
    }
  }

  lemma {:induction false} OccursInPrefix(s: string, n: nat, pat: string, k: int)
    requires n <= |s| && OccursAt(s[..n], pat, k)
    ensures OccursAt(s, pat, k)
  {
    assert s[..n][k..k + |pat|] == s[k..k + |pat|];
  }

  lemma {:induction false} ReplacedLength(s: string, from: string, to: string)
    requires from != []
    ensures |Replaced(s, from, to)| == |s| + Matches(s, from) * (|to| - |from|)
    decreases |s|
  {
    hide Find;
    match Find(s, from)
    case None =>
    case Some(i) =>
      ReplacedLength(s[i + |from|..], from, to);
      OneMore(Matches(s[i + |from|..], from), |to| - |from|);
  }

  lemma {:induction false} OneMore(m: nat, d: int)
    ensures (1 + m) * d == d + m * d
  {
  }

  // ---- the two passes ----------------------------------------------------

  /** The first pass: count the matches. */
  method CountMatches(text: string, from: string) returns (count: nat)
    requires from != []
    ensures count == Matches(text, from)
  {
    hide Find;
    var s := 0;
    count := 0;
    assert text[0..] == text;
    while true
      invariant 0 <= s <= |text| && Matches(text, from) == count + Matches(text[s..], from)
      decreases |text| - s
    {
      var m := Find(text[s..], from);
      if m.None? {
        return;
      }
      assert text[s..][m.value + |from|..] == text[s + m.value + |from|..];
      count := count + 1;
      s := s + m.value + |from|;
    }
  }

  method Copy(out: array<char>, o: nat, s: string) returns (o': nat)
    requires o + |s| <= out.Length
    modifies out
    ensures o' == o + |s| && out[..o'] == old(out[..o]) + s
  {
    forall i | 0 <= i < |s| {
      out[o + i] := s[i];
    }
    o' := o + |s|;
  }

  function Growth(from: string, to: string): nat
  {
    if |to| > |from| then |to| - |from| else 0
  }

  /** The buffer sized by the first pass holds what the second writes, with a byte to spare. */
  lemma {:induction false} CapacityHolds(s: string, from: string, to: string)
    requires from != []
    ensures |Replaced(s, from, to)| < |s| + Matches(s, from) * Growth(from, to) + 1
  {
    ReplacedLength(s, from, to);
    var m, d, g := Matches(s, from), |to| - |from|, Growth(from, to);
    assert m * d <= m * g by { MulLe(m, d, g); }
  }

  lemma {:induction false} MulLe(m: nat, d: int, g: int)
    requires d <= g
    ensures m * d <= m * g
  {
  }

  /** What the first pass asks malloc for, before `size_t` wraps it. */
  function Capacity(text: string, from: string, to: string): nat
    requires from != []
  {
    |text| + Matches(text, from) * Growth(from, to) + 1
  }

  /** The wrapped capacity holds the result exactly when it did not wrap. */
  lemma {:induction false} CapacityExact(text: string, from: string, to: string)
    requires from != [] && |text| < SIZE_MAX
    ensures |Replaced(text, from, to)| <= Capacity(text, from, to) % (SIZE_MAX + 1)
            <==> Capacity(text, from, to) <= SIZE_MAX
  {
    CapacityHolds(text, from, to);
    ReplacedLength(text, from, to);
    hide Replaced, Matches, Find;
    var m, g, cap := Matches(text, from), Growth(from, to), Capacity(text, from, to);
    if g == 0 {
      assert m * g == 0;
    } else {
      Wraps(cap);
    }
  }

  lemma {:induction false} Wraps(cap: nat)
    ensures cap <= SIZE_MAX ==> cap % (SIZE_MAX + 1) == cap
    ensures cap > SIZE_MAX ==> cap % (SIZE_MAX + 1) < cap - 1
  {
  }

  /** Copying one run and one replacement behind `done` leaves the same whole. */
  lemma {:induction false} OneMatch(done: string, text: string, s: nat, from: string, to: string)
    requires from != [] && s <= |text|
    ensures match Find(text[s..], from)
            case None => done + Replaced(text[s..], from, to) == done + text[s..]
            case Some(i) =>
              && s + i + |from| <= |text|
              && done + Replaced(text[s..], from, to)
                 == done + text[s..s + i] + to + Replaced(text[s + i + |from|..], from, to)
  {
    hide Find, Replaced;
    var tail := text[s..];
    ReplacedIs(tail, from, to);
    if Find(tail, from).Some? {
      var i := Find(tail, from).value;
      Slices(text, s, i, |from|);
      Assoc4(done, text[s..s + i], to, Replaced(text[s + i + |from|..], from, to));
    }
  }

  lemma {:induction false} ReplacedIs(tail: string, from: string, to: string)
    requires from != []
    ensures match Find(tail, from)
            case None => Replaced(tail, from, to) == tail
            case Some(i) =>
              i + |from| <= |tail| && Replaced(tail, from, to) == tail[..i] + to + Replaced(tail[i + |from|..], from, to)
  {
    hide Find;
  }

  lemma {:induction false} Slices(text: string, s: nat, i: nat, n: nat)
    requires s + i + n <= |text|
    ensures text[s..][..i] == text[s..s + i] && text[s..][i + n..] == text[s + i + n..]
  {
  }

  /** The second pass: false where a memcpy would leave the buffer. */
  method FillReplaced(out: array<char>, text: string, from: string, to: string) returns (ok: bool, o: nat)
    requires from != []
    modifies out
    ensures ok <==> |Replaced(text, from, to)| <= out.Length
    ensures ok ==> o <= out.Length && out[..o] == Replaced(text, from, to)
  {
    hide Find, Replaced;
    var s := 0;
    o := 0;
    ghost var whole := Replaced(text, from, to);
    assert text[0..] == text && out[..0] + whole == whole;
    while s < |text|
      invariant 0 <= s <= |text| && o <= out.Length
      invariant out[..o] + Replaced(text[s..], from, to) == whole
      decreases |text| - s
    {
      OneMatch(out[..o], text, s, from, to);
      var m := Find(text[s..], from);
      if m.None? {
        if o + (|text| - s) > out.Length {
          return false, 0;
        }
        o := Copy(out, o, text[s..]);
        return true, o;
      }
      var i := m.value;
      if o + i + |to| > out.Length {
        return false, 0;
      }
      o := Copy(out, o, text[s..s + i]);
      o := Copy(out, o, to);
      s := s + i + |from|;
    }
    EmptyReplaced(from, to);
    assert text[s..] == [] && out[..o] + [] == out[..o];
    ok := true;
  }

  /** `OutOfBounds` stands for a memcpy past the buffer, which the program does not notice. */
  datatype Replacement = Replacement(text: string) | NoMemory | OutOfBounds

  /**
    replace_all; `memory` is malloc's answer. Both passes agree, so the result is
    leftmost non-overlapping replacement, and a write leaves the buffer if and only
    if the capacity does not fit `size_t`.
   */
  method ReplaceAll(text: string, from: string, to: string, memory: bool) returns (r: Replacement)
    requires from != [] && |text| < SIZE_MAX
    ensures r.NoMemory? <==> !memory
    ensures r.OutOfBounds? <==> memory && Capacity(text, from, to) > SIZE_MAX
    ensures r.Replacement? ==> r.text == Replaced(text, from, to)
  {
    hide Find, Replaced, Matches, Growth;
    var count := CountMatches(text, from);
    var cap := (|text| + count * Growth(from, to) + 1) % (SIZE_MAX + 1);
    CapacityExact(text, from, to);
    if !memory {
      return NoMemory;
    }
    var out := new char[cap];
    var ok, o := FillReplaced(out, text, from, to);
    r := if ok then Replacement(out[..o]) else OutOfBounds;
  }

  lemma {:induction false} EmptyReplaced(from: string, to: string)
    requires from != []
    ensures Replaced([], from, to) == []
  {
  }

  // ---- a text whose capacity wraps ---------------------------------------

  function Repeated(from: string, n: nat): string
  {
    if n == 0 then [] else from + Repeated(from, n - 1)
  }

  lemma {:induction false} RepeatedMatches(from: string, n: nat)
    requires from != []
    ensures Matches(Repeated(from, n), from) == n && |Repeated(from, n)| == n * |from|
  {
    if n == 0 {
      assert Find(Repeated(from, 0), from).None?;
    } else {
      RepeatedMatches(from, n - 1);
      assert Repeated(from, n)[|from|..] == Repeated(from, n - 1);
      OneMore(n - 1, |from|);
    }
  }

  /** Many matches and a long target are enough: 524288 specifiers and an 8192-byte directory are. */
  lemma {:induction false} CapacityCanWrap(from: string, to: string, n: nat)
    requires from != [] && |to| >= |from| && n * |to| >= SIZE_MAX
    ensures Capacity(Repeated(from, n), from, to) > SIZE_MAX
  {
    RepeatedMatches(from, n);
    hide Repeated, Matches;
    Distribute(n, |from|, |to| - |from|);
  }

  lemma {:induction false} Distribute(n: nat, a: int, b: int)
    ensures n * a + n * b == n * (a + b)
  {
  }
}
