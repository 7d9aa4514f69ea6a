/**
  Message catalog source text, and what gencat's parser makes of it.

  A source is a list of files, a file a list of lines, a line the bytes that fgets
  delivered, which C sees up to the first NUL. `Entries` is the meaning of a source: which text each (set, message)
  pair was given, in source order. Everything is checked against that.
 */
module CatalogSource {
  import opened Basics
  import Decimal

  type Line = Bytes
  type File = seq<Line>

  const MAX_SETS := 256
  const MAX_MSGS := 4096
  const MAX_STRINGS := 262144
  const LONG_MAX := 2147483647

  // ---- lexical pieces ----------------------------------------------------

  predicate IsDigit(c: byte) { 48 <= c <= 57 }

  /** ' ', '\t', '\n', '\v', '\f' and '\r'. */
  predicate IsSpace(c: byte) { c == 32 || 9 <= c <= 13 }

  predicate IsBlank(c: byte) { c == 32 || c == 9 }

  /** The line without its trailing newlines and carriage returns. */
  function Stripped(line: Line): (r: Line)
    ensures r <= line
  {
    if line != [] && (line[|line| - 1] == 10 || line[|line| - 1] == 13) then Stripped(line[..|line| - 1])
    else line
  }

  function SkipBlanks(s: Bytes): (r: Bytes)
    ensures |r| <= |s| && r == s[|s| - |r|..]
  {
    if s != [] && IsBlank(s[0]) then SkipBlanks(s[1..]) else s
  }

  function SkipSpaces(s: Bytes): Bytes
  {
    if s != [] && IsSpace(s[0]) then SkipSpaces(s[1..]) else s
  }

  /** The leading decimal digits. */
  function Digits(s: Bytes): (r: Bytes)
    ensures r <= s && forall i :: 0 <= i < |r| ==> IsDigit(r[i])
  {
    if s != [] && IsDigit(s[0]) then [s[0]] + Digits(s[1..]) else []
  }

  /** The number they denote. */
  function Number(digits: Bytes): nat
    requires forall i :: 0 <= i < |digits| ==> IsDigit(digits[i])
  {
    Decimal.Value(seq(|digits|, i requires 0 <= i < |digits| && IsDigit(digits[i]) => digits[i] as int - 48))
  }

  /** strtol of a line that begins with a digit: it saturates at the 32-bit long's maximum. */
  function Strtol(s: Bytes): nat
  {
    var n := Number(Digits(s));
    if n > LONG_MAX then LONG_MAX else n
  }

  /** atoi: spaces, an optional sign, digits. */
  function Atoi(s: Bytes): int
  {
    var t := SkipSpaces(s);
    if t != [] && t[0] == 45 then 0 - Number(Digits(t[1..])) as int
    else if t != [] && t[0] == 43 then Number(Digits(t[1..]))
    else Number(Digits(t))
  }

  const DOLLAR_SET: Bytes := [36, 115, 101, 116]

  datatype Item = SetDirective(setId: int) | Message(msgId: nat, text: Bytes) | Ignored

  function Classify(line: Line): Item
  {
    var l := Stripped(UpTo(line, 0));
    if l != [] && l[0] == 36 then
      if DOLLAR_SET <= l then SetDirective(Atoi(l[4..])) else Ignored
    else if l == [] || !IsDigit(l[0]) then Ignored
    else Message(Strtol(l), SkipBlanks(l[|Digits(l)|..]))
  }

  // ---- the meaning of a source -------------------------------------------

  /** The source gives `text` to message `msgId` of set `setId`. */
  datatype Entry = Entry(setId: int, msgId: nat, text: Bytes)

  /** The set later lines belong to. */
  function NextSet(item: Item, cur: int): int
  {
    if item.SetDirective? then item.setId else cur
  }

  function MoreEntries(item: Item, cur: int, entries: seq<Entry>): seq<Entry>
  {
    if item.Message? then entries + [Entry(cur, item.msgId, item.text)] else entries
  }

  /** A set is opened by a directive or by a message in it. */
  function MoreSets(item: Item, cur: int, sets: set<int>): set<int>
  {
    match item
    case SetDirective(setId) => sets + {setId}
    case Message(_, _) => sets + {cur}
    case Ignored => sets
  }

  /** The set in force after `n` lines; every file starts in set 1. */
  function CurrentSet(file: File, n: nat): int
    requires n <= |file|
  {
    if n == 0 then 1 else NextSet(Classify(file[n - 1]), CurrentSet(file, n - 1))
  }

  /** The entries of the first `n` lines of a file. */
  function FileEntries(file: File, n: nat): seq<Entry>
    requires n <= |file|
  {
    if n == 0 then []
    else MoreEntries(Classify(file[n - 1]), CurrentSet(file, n - 1), FileEntries(file, n - 1))
  }

  function FileSets(file: File, n: nat): set<int>
    requires n <= |file|
  {
    if n == 0 then {}
    else MoreSets(Classify(file[n - 1]), CurrentSet(file, n - 1), FileSets(file, n - 1))
  }

  function Entries(files: seq<File>): seq<Entry>
  {
    if files == [] then []
    else Entries(files[..|files| - 1]) + FileEntries(files[|files| - 1], |files[|files| - 1]|)
  }

  function Sets(files: seq<File>): set<int>
  {
    if files == [] then {}
    else Sets(files[..|files| - 1]) + FileSets(files[|files| - 1], |files[|files| - 1]|)
  }

  function TextSize(entries: seq<Entry>): nat
  {
    if entries == [] then 0
    else TextSize(entries[..|entries| - 1]) + |entries[|entries| - 1].text| + 1
  }

  // ---- the parser's tables -----------------------------------------------

  /** struct msg; `len` includes the terminating NUL. */
  datatype Msg = Msg(setId: int, msgId: nat, off: nat, len: nat)

  /** The tables hold exactly the entries, in order, each text NUL-terminated in the string area. */
  ghost predicate Holds(strings: Bytes, m: Msg, e: Entry)
  {
    && m.setId == e.setId && m.msgId == e.msgId && m.len == |e.text| + 1
    && m.off + m.len <= |strings|
    && strings[m.off..m.off + m.len] == e.text + [0]
  }

  ghost predicate Describes(msgs: seq<Msg>, strings: Bytes, entries: seq<Entry>)
  {
    && |msgs| == |entries| && |strings| == TextSize(entries)
    && forall i :: 0 <= i < |msgs| ==> Holds(strings, msgs[i], entries[i])
  }

  predicate Distinct(s: seq<int>)
  {
    forall i, j :: 0 <= i < j < |s| ==> s[i] != s[j]
  }

  function Members(s: seq<int>): set<int>
  {
    set x | x in s
  }

  /** strlen and the loop that cuts the line ending. */
  method Strip(line: Line) returns (l: Line)
    ensures l == Stripped(UpTo(line, 0))
  {
    var len := |UpTo(line, 0)|;
    assert line[..len] == UpTo(line, 0);
    while len > 0 && (line[len - 1] == 10 || line[len - 1] == 13)
      invariant 0 <= len <= |line| && Stripped(line[..len]) == Stripped(UpTo(line, 0))
    {
      assert line[..len][..len - 1] == line[..len - 1];
      len := len - 1;
    }
    l := line[..len];
  }

  method AfterBlanks(s: Bytes) returns (r: Bytes)
    ensures r == SkipBlanks(s)
  {
    var i := 0;
    while i < |s| && IsBlank(s[i])
      invariant 0 <= i <= |s| && SkipBlanks(s[i..]) == SkipBlanks(s)
    {
      assert s[i..][1..] == s[i + 1..];
      i := i + 1;
    }
    r := s[i..];
  }

  /** The lexical work of one line: strip the line ending, read the number, skip blanks. */
  method Lex(line: Line) returns (item: Item)
    ensures item == Classify(line)
  {
    hide Stripped, SkipBlanks, Atoi, Strtol;
    var l := Strip(line);
    if l != [] && l[0] == 36 {
      return if DOLLAR_SET <= l then SetDirective(Atoi(l[4..])) else Ignored;
    }
    if l == [] || !IsDigit(l[0]) {
      return Ignored;
    }
    var text := AfterBlanks(l[|Digits(l)|..]);
    item := Message(Strtol(l), text);
  }

  class Parser {
    var msgs: seq<Msg>
    var strings: Bytes
    var sets: seq<int>

    ghost predicate Limits()
      reads this
    {
      |msgs| <= MAX_MSGS && |strings| <= MAX_STRINGS && |sets| <= MAX_SETS && Distinct(sets)
    }

    constructor ()
      ensures msgs == [] && strings == [] && sets == [] && Limits()
    {
      msgs, strings, sets := [], [], [];
    }

    /** add_set: false where the program exits with "too many sets". */
    method AddSet(id: int) returns (ok: bool)
      requires Limits()
      modifies `sets
      ensures Limits() && (ok <==> id in old(sets) || |old(sets)| < MAX_SETS)
      ensures ok ==> Members(sets) == Members(old(sets)) + {id}
      ensures !ok ==> sets == old(sets)
    {
      var i := 0;
      while i < |sets|
        invariant 0 <= i <= |sets| && id !in sets[..i]
      {
        if sets[i] == id {
          assert Members(sets) == Members(sets) + {id};
          return true;
        }
        i := i + 1;
      }
      if |sets| >= MAX_SETS {
        return false;
      }
      sets := sets + [id];
      return true;
    }

    /** The tail of parse_file's loop: store one message; false where the program exits. */
    method AddMessage(setId: int, msgId: nat, text: Bytes, ghost entries: seq<Entry>) returns (ok: bool)
      requires Limits() && Describes(msgs, strings, entries)
      modifies `msgs, `strings
      ensures var entries' := entries + [Entry(setId, msgId, text)];
              && Limits()
              && (ok <==> |entries'| <= MAX_MSGS && TextSize(entries') <= MAX_STRINGS)
              && (ok ==> Describes(msgs, strings, entries'))
    {
      ghost var e := Entry(setId, msgId, text);
      assert (entries + [e])[..|entries|] == entries;
      if |msgs| >= MAX_MSGS || |strings| + |text| + 1 > MAX_STRINGS {
        return false;
      }
      DescribesAppend(msgs, strings, entries, e);
      msgs := msgs + [Msg(setId, msgId, |strings|, |text| + 1)];
      strings := strings + (text + [0]);
      ok := true;
    }

    /** A message line: its set is opened first, then the message stored. */
    method ParseMessage(setId: int, msgId: nat, text: Bytes, ghost entries: seq<Entry>) returns (ok: bool)
      requires Limits() && Describes(msgs, strings, entries)
      modifies this
      ensures var entries', sets' := entries + [Entry(setId, msgId, text)], Members(old(sets)) + {setId};
              && Limits()
              && (ok ==> Fits(sets', entries') && Describes(msgs, strings, entries') && Members(sets) == sets')
              && (!ok ==> !Fits(sets', entries'))
    {
      DistinctGrow(sets, setId);
      ok := AddSet(setId);
      if ok {
        DistinctCount(sets);
        ok := AddMessage(setId, msgId, text, entries);
      }
    }

    /** One line of parse_file, in set `cur`. */
    method ParseLine(cur: int, line: Line, ghost entries: seq<Entry>) returns (ok: bool, next: int)
      requires Limits() && Describes(msgs, strings, entries) && Fits(Members(sets), entries)
      modifies this
      ensures Limits() && next == NextSet(Classify(line), cur)
      ensures var entries', sets' := MoreEntries(Classify(line), cur, entries), MoreSets(Classify(line), cur, Members(old(sets)));
              && (ok <==> Fits(sets', entries'))
              && (ok ==> Describes(msgs, strings, entries') && Members(sets) == sets')
    {
      hide Classify, Describes, TextSize;
      ok, next := true, cur;
      var item := Lex(line);
      match item {
        case Ignored =>
        case SetDirective(setId) =>
          next := setId;
          DistinctGrow(sets, setId);
          ok := AddSet(setId);
        case Message(msgId, text) =>
          ok := ParseMessage(cur, msgId, text, entries);
      }
    }

    /** parse_file: it succeeds exactly when everything parsed so far fits the fixed tables. */
    method ParseFile(file: File, ghost before: seq<Entry>, ghost declared: set<int>) returns (ok: bool)
      requires Limits() && Describes(msgs, strings, before) && Members(sets) == declared
      modifies this
      ensures Limits()
      ensures ok <==> Fits(declared + FileSets(file, |file|), before + FileEntries(file, |file|))
      ensures ok ==> Describes(msgs, strings, before + FileEntries(file, |file|))
      ensures ok ==> Members(sets) == declared + FileSets(file, |file|)
    {
      hide Classify, Describes;
      var cur, n := 1, 0;
      assert before + [] == before && declared + {} == declared;
      InitiallyFits(msgs, strings, before);
      DistinctCount(sets);
      while n < |file|
        invariant 0 <= n <= |file| && cur == CurrentSet(file, n)
        invariant Limits() && Describes(msgs, strings, before + FileEntries(file, n))
        invariant Members(sets) == declared + FileSets(file, n)
        invariant Fits(declared + FileSets(file, n), before + FileEntries(file, n))
      {
        LineEffect(file, n, before, declared);
        var more;
        more, cur := ParseLine(cur, file[n], before + FileEntries(file, n));
        n := n + 1;
        if !more {
          if Fits(declared + FileSets(file, |file|), before + FileEntries(file, |file|)) {
            FitsMonotone(declared, before, file, n, |file|);
          }
          return false;
        }
      }
      ok := true;
    }
  }

  lemma {:induction false} InitiallyFits(msgs: seq<Msg>, strings: Bytes, entries: seq<Entry>)
    requires Describes(msgs, strings, entries)
    ensures |entries| == |msgs| && TextSize(entries) == |strings|
  {
  }

  /** What line `n` adds to everything parsed before it. */
  lemma {:induction false} LineEffect(file: File, n: nat, before: seq<Entry>, declared: set<int>)
    requires n < |file|
    ensures var item, cur := Classify(file[n]), CurrentSet(file, n);
            && before + FileEntries(file, n + 1) == MoreEntries(item, cur, before + FileEntries(file, n))
            && declared + FileSets(file, n + 1) == MoreSets(item, cur, declared + FileSets(file, n))
  {
    hide Classify;
    var item := Classify(file[n]);
    if item.Message? {
      assert before + (FileEntries(file, n) + [Entry(CurrentSet(file, n), item.msgId, item.text)])
             == before + FileEntries(file, n) + [Entry(CurrentSet(file, n), item.msgId, item.text)];
    }
  }

  /** The fixed-size tables have room. */
  ghost predicate Fits(declared: set<int>, entries: seq<Entry>)
  {
    |declared| <= MAX_SETS && |entries| <= MAX_MSGS && TextSize(entries) <= MAX_STRINGS
  }

  lemma {:induction false} DescribesAppend(msgs: seq<Msg>, strings: Bytes, entries: seq<Entry>, e: Entry)
    requires Describes(msgs, strings, entries)
    ensures Describes(msgs + [Msg(e.setId, e.msgId, |strings|, |e.text| + 1)], strings + (e.text + [0]), entries + [e])
  {
  }

  lemma {:induction false} DistinctCount(s: seq<int>)
    requires Distinct(s)
    ensures |Members(s)| == |s|
  {
    if s != [] {
      var t, x := s[..|s| - 1], s[|s| - 1];
      DistinctCount(t);
      assert Members(s) == Members(t) + {x};
    }
  }

  lemma {:induction false} DistinctGrow(s: seq<int>, x: int)
    requires Distinct(s)
    ensures |Members(s) + {x}| == |s| + if x in s then 0 else 1
  {
    DistinctCount(s);
    if x in s {
      assert Members(s) + {x} == Members(s);
    }
  }

  /** One more line never makes room. */
  lemma {:induction false} FitsStep(declared: set<int>, before: seq<Entry>, file: File, n: nat)
    requires n < |file| && Fits(declared + FileSets(file, n + 1), before + FileEntries(file, n + 1))
    ensures Fits(declared + FileSets(file, n), before + FileEntries(file, n))
  {
    LineEffect(file, n, before, declared);
    hide Classify, FileSets, FileEntries;
    SubsetCard(declared + FileSets(file, n), declared + FileSets(file, n + 1));
    var x, y := before + FileEntries(file, n), before + FileEntries(file, n + 1);
    if Classify(file[n]).Message? {
      assert y[..|y| - 1] == x;
    }
  }

  lemma {:induction false} FitsMonotone(declared: set<int>, before: seq<Entry>, file: File, n: nat, m: nat)
    requires n <= m <= |file| && Fits(declared + FileSets(file, m), before + FileEntries(file, m))
    ensures Fits(declared + FileSets(file, n), before + FileEntries(file, n))
    decreases m - n
  {
    hide *;
    if n < m {
      FitsStep(declared, before, file, m - 1);
      FitsMonotone(declared, before, file, n, m - 1);
    }
  }

  lemma {:induction false} SubsetCard(a: set<int>, b: set<int>)
    requires a <= b
    ensures |a| <= |b|
  {
    assert b == a + (b - a);
  }
}
