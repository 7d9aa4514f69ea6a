/**
  The message text format: what each line of a catalog source says.

  Every line is one of three kinds by its first bytes. A message line is digits,
  blanks and a text, a directive "$set" with a number, and anything else changes
  nothing. A message belongs to the last directive before it in its file, or to set 1.
  `PrintedMeans` closes the circle: a list of entries written out in this format means
  that list.
 */
module CatalogText {
  import opened Basics
  import opened CatalogSource
  import opened CatalogReader
  import CatalogImage
  import Decimal

  // ---- one line ----------------------------------------------------------

  const DIGITS: Bytes := [48, 49, 50, 51, 52, 53, 54, 55, 56, 57]
  const BLANKS: Bytes := [9, 32]
  const SPACES: Bytes := [9, 10, 11, 12, 13, 32]
  const ENDS: Bytes := [10, 13]

  predicate All(s: Bytes, chars: Bytes)
  {
    forall i :: 0 <= i < |s| ==> s[i] in chars
  }

  /** The character tests of the parser, each by the characters it is true of. */
  lemma {:induction false} Classes(c: byte)
    ensures (IsDigit(c) <==> c in DIGITS) && (IsBlank(c) <==> c in BLANKS) && (IsSpace(c) <==> c in SPACES)
  {
  }

  lemma {:induction false} AllClasses(s: Bytes)
    ensures All(s, DIGITS) <==> forall i :: 0 <= i < |s| ==> IsDigit(s[i])
    ensures All(s, BLANKS) <==> forall i :: 0 <= i < |s| ==> IsBlank(s[i])
    ensures All(s, SPACES) <==> forall i :: 0 <= i < |s| ==> IsSpace(s[i])
  {
    forall i | 0 <= i < |s|
      ensures (IsDigit(s[i]) <==> s[i] in DIGITS) && (IsBlank(s[i]) <==> s[i] in BLANKS) && (IsSpace(s[i]) <==> s[i] in SPACES)
    {
      Classes(s[i]);
    }
  }

  /** What a line is about: no NUL in it, and no line ending behind it. */
  predicate Core(s: Bytes)
  {
    0 !in s && (s == [] || s[|s| - 1] !in ENDS)
  }

  /** A line ending, and whatever C does not see. */
  predicate Tail(ending: Bytes, unseen: Bytes)
  {
    All(ending, ENDS) && (unseen == [] || unseen[0] == 0)
  }

  lemma {:induction false} UpToStop(s: Bytes, unseen: Bytes)
    requires 0 !in s && (unseen == [] || unseen[0] == 0)
    ensures UpTo(s + unseen, 0) == s
  {
    if s == [] {
      assert s + unseen == unseen;
    } else {
      assert (s + unseen)[1..] == s[1..] + unseen;
      UpToStop(s[1..], unseen);
    }
  }

  lemma {:induction false} StripsEnds(core: Bytes, ending: Bytes)
    requires Core(core) && All(ending, ENDS)
    ensures Stripped(core + ending) == core
  {
    if ending == [] {
      assert core + ending == core;
    } else {
      var n := |ending| - 1;
      assert (core + ending)[..|core + ending| - 1] == core + ending[..n];
      StripsEnds(core, ending[..n]);
    }
  }

  lemma {:induction false} Seen(core: Bytes, ending: Bytes, unseen: Bytes)
    requires Core(core) && Tail(ending, unseen)
    ensures Stripped(UpTo(core + ending + unseen, 0)) == core
  {
    UpToStop(core + ending, unseen);
    StripsEnds(core, ending);
  }

  lemma {:induction false} DigitsThen(digits: Bytes, rest: Bytes)
    requires All(digits, DIGITS) && (rest == [] || rest[0] !in DIGITS)
    ensures Digits(digits + rest) == digits
  {
    if digits == [] {
      assert digits + rest == rest;
    } else {
      assert (digits + rest)[1..] == digits[1..] + rest;
      DigitsThen(digits[1..], rest);
    }
  }

  lemma {:induction false} BlanksThen(blanks: Bytes, rest: Bytes)
    requires All(blanks, BLANKS) && (rest == [] || rest[0] !in BLANKS)
    ensures SkipBlanks(blanks + rest) == rest
  {
    if blanks == [] {
      assert blanks + rest == rest;
    } else {
      assert (blanks + rest)[1..] == blanks[1..] + rest;
      BlanksThen(blanks[1..], rest);
    }
  }

  lemma {:induction false} SpacesThen(spaces: Bytes, rest: Bytes)
    requires All(spaces, SPACES) && (rest == [] || rest[0] !in SPACES)
    ensures SkipSpaces(spaces + rest) == rest
  {
    if spaces == [] {
      assert spaces + rest == rest;
    } else {
      assert (spaces + rest)[1..] == spaces[1..] + rest;
      SpacesThen(spaces[1..], rest);
    }
  }

  /**
    A message line: digits, blanks, the text, a line ending. The number saturates at
    the largest `long`; the text is everything behind the blanks.
   */
  lemma {:induction false} MessageLine(digits: Bytes, blanks: Bytes, text: Bytes, ending: Bytes, unseen: Bytes)
    requires digits != [] && All(digits, DIGITS) && All(blanks, BLANKS) && Tail(ending, unseen)
    requires Core(text) && (text == [] || text[0] !in BLANKS) && (text == [] || blanks != [] || text[0] !in DIGITS)
    ensures Classify(digits + blanks + text + ending + unseen)
            == Message(if Number(digits) > LONG_MAX then LONG_MAX else Number(digits), text)
  {
    var core, rest := digits + blanks + text, blanks + text;
    MessageCore(digits, blanks, text);
    Seen(core, ending, unseen);
    DigitsThen(digits, rest);
    BlanksThen(blanks, text);
    Assoc(digits, blanks, text);
    hide *;
    MessageRead(core + ending + unseen, digits, rest, text);
  }

  lemma {:induction false} MessageRead(line: Line, digits: Bytes, rest: Bytes, text: Bytes)
    requires Stripped(UpTo(line, 0)) == digits + rest && Digits(digits + rest) == digits != [] && SkipBlanks(rest) == text
    ensures Classify(line) == Message(if Number(digits) > LONG_MAX then LONG_MAX else Number(digits), text)
  {
    hide Stripped, Number, SkipBlanks, Digits;
    var l := digits + rest;
    assert l[|digits|..] == rest && l[0] == digits[0];
  }

  lemma {:induction false} MessageCore(digits: Bytes, blanks: Bytes, text: Bytes)
    requires digits != [] && All(digits, DIGITS) && All(blanks, BLANKS) && Core(text)
    ensures Core(digits + blanks + text)
  {
  }

  /** A directive: "$set", spaces, an optional sign, digits, and anything that is not a digit. */
  lemma {:induction false} DirectiveLine(spaces: Bytes, sign: Bytes, digits: Bytes, more: Bytes, ending: Bytes,
                                         unseen: Bytes)
    requires All(spaces, SPACES) && sign in [[], [43], [45]] && All(digits, DIGITS) && Tail(ending, unseen)
    requires more == [] || more[0] !in DIGITS
    requires sign == [] && digits == [] && more != [] ==> more[0] !in SPACES && more[0] != 43 && more[0] != 45
    requires Core(DOLLAR_SET + spaces + sign + digits + more)
    ensures Classify(DOLLAR_SET + spaces + sign + digits + more + ending + unseen)
            == SetDirective(if sign == [45] then -(Number(digits) as int) else Number(digits))
  {
    var core, number := DOLLAR_SET + spaces + sign + digits + more, sign + (digits + more);
    Seen(core, ending, unseen);
    NumberStart(sign, digits, more);
    SpacesThen(spaces, number);
    DigitsThen(digits, more);
    SignRead(sign, digits, more);
    FiveParts(DOLLAR_SET, spaces, sign, digits, more);
    hide *;
    DirectiveRead(core + ending + unseen, spaces, sign, number, digits);
  }

  lemma {:induction false} FiveParts(a: Bytes, b: Bytes, c: Bytes, d: Bytes, e: Bytes)
    ensures a + b + c + d + e == a + (b + (c + (d + e)))
  {
  }

  lemma {:induction false} DirectiveRead(line: Line, spaces: Bytes, sign: Bytes, number: Bytes, digits: Bytes)
    requires Stripped(UpTo(line, 0)) == DOLLAR_SET + (spaces + number) && SkipSpaces(spaces + number) == number
    requires sign in [[], [43], [45]] && All(digits, DIGITS)
    requires sign == [] ==> Digits(number) == digits && !(number != [] && (number[0] == 43 || number[0] == 45))
    requires sign != [] ==> number != [] && number[0] == sign[0] && Digits(number[1..]) == digits
    ensures Classify(line) == SetDirective(if sign == [45] then -(Number(digits) as int) else Number(digits))
  {
    hide Stripped, Number, SkipSpaces, Digits;
    var l := DOLLAR_SET + (spaces + number);
    assert l[4..] == spaces + number && l[0] == 36;
  }

  lemma {:induction false} NumberStart(sign: Bytes, digits: Bytes, more: Bytes)
    requires sign in [[], [43], [45]] && All(digits, DIGITS)
    requires sign == [] && digits == [] && more != [] ==> more[0] !in SPACES
    ensures var number := sign + (digits + more); number == [] || number[0] !in SPACES
  {
  }

  lemma {:induction false} SignRead(sign: Bytes, digits: Bytes, more: Bytes)
    requires sign in [[], [43], [45]] && All(digits, DIGITS) && Digits(digits + more) == digits
    requires sign == [] && digits == [] && more != [] ==> more[0] != 43 && more[0] != 45
    ensures var t := sign + (digits + more);
            && (sign == [] ==> Digits(t) == digits && !(t != [] && (t[0] == 43 || t[0] == 45)))
            && (sign != [] ==> t[0] == sign[0] && Digits(t[1..]) == digits)
  {
    var t := sign + (digits + more);
    if sign == [] {
      assert t == digits + more;
      assert digits != [] ==> t[0] == digits[0];
    } else {
      assert t[1..] == digits + more;
    }
  }

  /** The kind of a line is that of its first bytes; what is neither changes nothing. */
  lemma {:induction false} LineKinds(line: Line)
    ensures Classify(line).Message? <==> line != [] && line[0] in DIGITS
    ensures Classify(line).SetDirective? <==> DOLLAR_SET <= line
  {
    var l := Stripped(UpTo(line, 0));
    FirstKept(line);
    if line != [] {
      Classes(line[0]);
      NoEnd(line[0]);
    }
    SetKept(line);
    hide Atoi, Strtol, SkipBlanks, Stripped, UpTo, IsDigit, Digits;
    assert l <= line;
  }

  lemma {:induction false} NoEnd(c: byte)
    ensures c in DIGITS ==> c != 0 && c != 36 && c !in ENDS
  {
  }

  lemma {:induction false} SetKept(line: Line)
    ensures DOLLAR_SET <= line <==> DOLLAR_SET <= Stripped(UpTo(line, 0))
  {
    if DOLLAR_SET <= line {
      assert line == DOLLAR_SET + line[4..];
      PrefixSeen(DOLLAR_SET, line[4..]);
    }
  }

  lemma {:induction false} FirstKept(line: Line)
    ensures line != [] && line[0] != 0 && line[0] !in ENDS ==>
              var l := Stripped(UpTo(line, 0)); l != [] && l[0] == line[0]
  {
    if line != [] && line[0] != 0 && line[0] !in ENDS {
      assert line == [line[0]] + line[1..];
      PrefixSeen([line[0]], line[1..]);
    }
  }

  lemma {:induction false} PrefixSeen(head: Bytes, rest: Bytes)
    requires Core(head)
    ensures head <= Stripped(UpTo(head + rest, 0))
  {
    UpToPrefix(head, rest);
    var s := UpTo(head + rest, 0);
    StrippedPrefix(head, s[|head|..]);
    assert s == head + s[|head|..];
  }

  lemma {:induction false} UpToPrefix(head: Bytes, rest: Bytes)
    requires 0 !in head
    ensures head <= UpTo(head + rest, 0)
  {
    if head != [] {
      assert (head + rest)[1..] == head[1..] + rest;
      UpToPrefix(head[1..], rest);
    }
  }

  lemma {:induction false} StrippedPrefix(head: Bytes, rest: Bytes)
    requires Core(head)
    ensures head <= Stripped(head + rest)
  {
    if rest == [] {
      assert head + rest == head;
    } else {
      assert (head + rest)[..|head + rest| - 1] == head + rest[..|rest| - 1];
      StrippedPrefix(head, rest[..|rest| - 1]);
    }
  }

  // ---- a file ------------------------------------------------------------

  predicate IsSetLine(line: Line) { DOLLAR_SET <= line }

  predicate IsMessageLine(line: Line) { line != [] && line[0] in DIGITS }

  /** A message belongs to the last directive before it in its file, or else to set 1. */
  lemma {:induction false} SetInForce(file: File, n: nat, k: int)
    requires -1 <= k < n <= |file| && (k >= 0 ==> IsSetLine(file[k]))
    requires forall i :: k < i < n ==> !IsSetLine(file[i])
    ensures k >= 0 ==> Classify(file[k]).SetDirective? && CurrentSet(file, n) == Classify(file[k]).setId
    ensures k < 0 ==> CurrentSet(file, n) == 1
    decreases n
  {
    hide Classify;
    if n > 0 {
      LineKinds(file[n - 1]);
      if k < n - 1 {
        SetInForce(file, n - 1, k);
      }
    }
  }

  /** The lines among the first `n` that begin with a digit. */
  function MessageLines(file: File, n: nat): (m: seq<nat>)
    requires n <= |file|
    ensures forall j :: 0 <= j < |m| ==> m[j] < n
  {
    if n == 0 then []
    else if IsMessageLine(file[n - 1]) then MessageLines(file, n - 1) + [n - 1]
    else MessageLines(file, n - 1)
  }

  lemma {:induction false} MessageLinesExact(file: File, n: nat)
    requires n <= |file|
    ensures var m := MessageLines(file, n);
            && (forall i, j :: 0 <= i < j < |m| ==> m[i] < m[j])
            && (forall i: nat :: i in m <==> i < n && IsMessageLine(file[i]))
  {
    hide IsMessageLine;
    if n > 0 {
      MessageLinesExact(file, n - 1);
    }
  }

  lemma {:induction false} MessageKind(line: Line)
    ensures Classify(line).Message? <==> IsMessageLine(line)
  {
    LineKinds(line);
  }

  /** The entry of message line `i`, in the set in force there. */
  ghost predicate EntryOfLine(file: File, i: nat, e: Entry)
    requires i < |file|
  {
    Classify(file[i]).Message? && e == Entry(CurrentSet(file, i), Classify(file[i]).msgId, Classify(file[i]).text)
  }

  /** A file has one entry for each message line, in order, in the set in force there. */
  lemma {:induction false} EntriesInOrder(file: File, n: nat, j: nat)
    requires n <= |file|
    ensures |FileEntries(file, n)| == |MessageLines(file, n)|
    ensures j < |MessageLines(file, n)| ==> EntryOfLine(file, MessageLines(file, n)[j], FileEntries(file, n)[j])
  {
    hide Classify, IsMessageLine, CurrentSet, EntryOfLine;
    if n > 0 {
      EntriesInOrder(file, n - 1, j);
      MessageKind(file[n - 1]);
      if IsMessageLine(file[n - 1]) {
        LastEntry(file, n);
      }
    }
  }

  lemma {:induction false} LastEntry(file: File, n: nat)
    requires 0 < n <= |file| && Classify(file[n - 1]).Message?
    ensures var es := FileEntries(file, n);
            |es| > 0 && es[..|es| - 1] == FileEntries(file, n - 1) && EntryOfLine(file, n - 1, es[|es| - 1])
  {
    hide Classify, CurrentSet;
  }

  /** A set is in the source of a file when a directive names it or a message is in it. */
  lemma {:induction false} SetsOpened(file: File, n: nat, s: int)
    requires n <= |file|
    ensures s in FileSets(file, n) <==> exists i :: 0 <= i < n && Opens(file, i, s)
  {
    hide Classify, CurrentSet;
    if n > 0 {
      LineKinds(file[n - 1]);
      SetsOpened(file, n - 1, s);
      if s in FileSets(file, n) && s !in FileSets(file, n - 1) {
        assert Opens(file, n - 1, s);
      }
      if i :| 0 <= i < n && Opens(file, i, s) {
        assert i < n - 1 ==> s in FileSets(file, n - 1);
      }
    }
  }

  predicate Opens(file: File, i: nat, s: int)
    requires i < |file|
  {
    || (IsSetLine(file[i]) && Classify(file[i]).SetDirective? && Classify(file[i]).setId == s)
    || (IsMessageLine(file[i]) && CurrentSet(file, i) == s)
  }

  // ---- writing a source out ----------------------------------------------

  function DigitBytes(n: nat): (b: Bytes)
    ensures b != [] && All(b, DIGITS)
  {
    var ds := Decimal.Digits(n);
    seq(|ds|, i requires 0 <= i < |ds| => 48 + ds[i] as int)
  }

  lemma {:induction false} NumberOfDigits(n: nat)
    ensures Number(DigitBytes(n)) == n
  {
    var b, ds := DigitBytes(n), Decimal.Digits(n);
    assert seq(|b|, i requires 0 <= i < |b| && IsDigit(b[i]) => b[i] as int - 48) == ds;
    Decimal.ValueOfDigits(n);
  }

  /** "$set 7", "$set -7". */
  function SetLine(s: int): Line
  {
    DOLLAR_SET + [32] + (if s < 0 then [45] else []) + DigitBytes(if s < 0 then -s else s) + [10]
  }

  /** "12 text". */
  function TextLine(m: nat, text: Bytes): Line
  {
    DigitBytes(m) + [32] + text + [10]
  }

  /** What a line can hold: a number in range, a text without NUL, line feed, leading blanks or trailing ends. */
  predicate Printable(e: Entry)
  {
    e.msgId <= LONG_MAX && Core(e.text) && 10 !in e.text && (e.text == [] || e.text[0] !in BLANKS)
  }

  function Printed(es: seq<Entry>): (f: File)
    ensures |f| == 2 * |es|
  {
    if es == [] then []
    else
      var n := |es| - 1;
      Printed(es[..n]) + [SetLine(es[n].setId), TextLine(es[n].msgId, es[n].text)]
  }

  function SetIdsOf(es: seq<Entry>): set<int>
  {
    set e | e in es :: e.setId
  }

  lemma {:induction false} SetLineMeans(s: int)
    ensures Classify(SetLine(s)) == SetDirective(s)
  {
    var sign: Bytes, digits := if s < 0 then [45] else [], DigitBytes(if s < 0 then -s else s);
    NumberOfDigits(if s < 0 then -s else s);
    hide Number, DigitBytes, Classify;
    assert Core(DOLLAR_SET + [32] + sign + digits + []);
    DirectiveLine([32], sign, digits, [], [10], []);
    var line := DOLLAR_SET + [32] + sign + digits;
    assert line + [] + [10] + [] == line + [10];
  }

  lemma {:induction false} TextLineMeans(e: Entry)
    requires Printable(e)
    ensures Classify(TextLine(e.msgId, e.text)) == Message(e.msgId, e.text)
  {
    NumberOfDigits(e.msgId);
    hide Number, DigitBytes, Classify;
    MessageLine(DigitBytes(e.msgId), [32], e.text, [10], []);
    var line := TextLine(e.msgId, e.text);
    assert line + [] == line;
  }

  lemma {:induction false} SameLines(f: File, g: File, n: nat)
    requires n <= |f| && n <= |g| && f[..n] == g[..n]
    ensures CurrentSet(f, n) == CurrentSet(g, n) && FileEntries(f, n) == FileEntries(g, n) && FileSets(f, n) == FileSets(g, n)
  {
    hide Classify;
    if n > 0 {
      assert f[n - 1] == f[..n][n - 1] == g[..n][n - 1] == g[n - 1];
      assert f[..n - 1] == f[..n][..n - 1] == g[..n - 1];
      SameLines(f, g, n - 1);
    }
  }

  /** A source written out entry by entry means exactly those entries, in order. */
  lemma {:induction false} PrintedMeans(es: seq<Entry>)
    requires forall i :: 0 <= i < |es| ==> Printable(es[i])
    ensures var f := Printed(es); FileEntries(f, |f|) == es && FileSets(f, |f|) == SetIdsOf(es)
    decreases |es|
  {
    NothingPrinted();
    hide *;
    if es != [] {
      var n := |es| - 1;
      var front, e := es[..n], es[n];
      PrintedMeans(front);
      PrintedStep(front, e);
      IdsOfMore(front, e);
      assert es == front + [e];
    }
  }

  lemma {:induction false} NothingPrinted()
    ensures Printed([]) == [] && FileEntries([], 0) == [] && FileSets([], 0) == SetIdsOf([])
  {
  }

  lemma {:induction false} PrintedStep(es: seq<Entry>, e: Entry)
    requires Printable(e)
    ensures var f, g := Printed(es + [e]), Printed(es);
            FileEntries(f, |f|) == FileEntries(g, |g|) + [e] && FileSets(f, |f|) == FileSets(g, |g|) + {e.setId}
  {
    hide *;
    var f, g := Printed(es + [e]), Printed(es);
    assert (es + [e])[..|es|] == es;
    LastLines(es + [e]);
    assert g[..|g|] == g;
    SameLines(g, f, |g|);
    SetLineMeans(e.setId);
    TextLineMeans(e);
    OneMore(f, |g|, e);
  }

  lemma {:induction false} LastLines(es: seq<Entry>)
    requires es != []
    ensures var n, f := |es| - 1, Printed(es);
            && f[..2 * n] == Printed(es[..n]) && f[2 * n] == SetLine(es[n].setId)
            && f[2 * n + 1] == TextLine(es[n].msgId, es[n].text)
  {
    hide SetLine, TextLine;
  }

  lemma {:induction false} IdsOfMore(es: seq<Entry>, e: Entry)
    ensures SetIdsOf(es + [e]) == SetIdsOf(es) + {e.setId}
  {
    assert e in es + [e];
    forall s | s in SetIdsOf(es) + {e.setId}
      ensures s in SetIdsOf(es + [e])
    {
      if s != e.setId {
        var x :| x in es && x.setId == s;
        assert x in es + [e];
      }
    }
  }

  lemma {:induction false} OneMore(f: File, n: nat, e: Entry)
    requires n + 2 <= |f| && Classify(f[n]) == SetDirective(e.setId) && Classify(f[n + 1]) == Message(e.msgId, e.text)
    ensures FileEntries(f, n + 2) == FileEntries(f, n) + [e] && FileSets(f, n + 2) == FileSets(f, n) + {e.setId}
  {
    hide Classify;
    assert CurrentSet(f, n + 1) == e.setId;
    assert FileEntries(f, n + 1) == FileEntries(f, n) && FileSets(f, n + 1) == FileSets(f, n) + {e.setId};
  }

  /**
    Print, parse, sort, emit and look up: a catalog compiled from written-out entries
    gives each pair its text, and no other pair any.
   */
  method CompilePrinted(es: seq<Entry>, setId: int, msgId: nat,
                        qsortSets: seq<int> -> seq<int>, qsortMsgs: seq<Msg> -> seq<Msg>)
    returns (ok: bool, r: Option<Bytes>)
    requires SortsSets(qsortSets) && SortsMsgs(qsortMsgs) && CatalogImage.IsInt(setId)
    requires forall i :: 0 <= i < |es| ==> Printable(es[i])
    requires forall i, j :: 0 <= i < j < |es| ==> !(es[i].setId == es[j].setId && es[i].msgId == es[j].msgId)
    requires Comparable(SetIdsOf(es)) && SameSign(SetIdsOf(es))
    ensures ok <==> Fits(SetIdsOf(es), es)
    ensures ok ==> (r.None? <==> forall e :: e in es ==> !(e.setId == setId && e.msgId == msgId))
    ensures ok && r.Some? ==> Entry(setId, msgId, r.value) in es
  {
    var f := Printed(es);
    PrintedMeans(es);
    OneFile(f);
    hide Printable, Fits, SortsSets, SortsMsgs, Printed;
    var sets;
    ok, r, sets := CompileAndLookup([f], setId, msgId, qsortSets, qsortMsgs);
  }

  lemma {:induction false} OneFile(f: File)
    ensures Entries([f]) == FileEntries(f, |f|) && Sets([f]) == FileSets(f, |f|)
  {
    assert [f][..0] == [];
    assert [] + FileEntries(f, |f|) == FileEntries(f, |f|) && {} + FileSets(f, |f|) == FileSets(f, |f|);
  }
}
