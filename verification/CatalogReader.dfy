/**
  Reading the binary catalog back: gencat against the meaning of its source.

  The reader finds a set and then a message by binary search, as the sorted tables
  invite. `CompileAndLookup` ends the chain: looking a pair up in the emitted bytes
  answers what the source says.
 */
module CatalogReader {
  import opened Basics
  import opened CatalogSource
  import opened CatalogImage

  // ---- two binary searches -----------------------------------------------

  /** The set ids as the words of the file. */
  ghost function Words(sets: seq<int>): (w: seq<u32>)
    ensures |w| == |sets| && forall i :: 0 <= i < |sets| ==> w[i] == Unsigned(sets[i])
  {
    seq(|sets|, i requires 0 <= i < |sets| => Unsigned(sets[i]))
  }

  /** Binary search for a word: its index, or -1. */
  ghost function Search(words: seq<u32>, key: u32, lo: nat, hi: nat): (k: int)
    requires lo <= hi <= |words|
    ensures k >= 0 ==> lo <= k < hi && words[k] == key
    decreases hi - lo
  {
    if lo == hi then -1
    else
      var mid := (lo + hi) / 2;
      if words[mid] == key then mid
      else if words[mid] < key then Search(words, key, mid + 1, hi)
      else Search(words, key, lo, mid)
  }

  lemma {:induction false} SameWord(a: int, b: int)
    requires IsInt(a) && IsInt(b) && Unsigned(a) == Unsigned(b)
    ensures a == b
  {
  }

  method FindSet(img: Bytes, setId: int, ghost sets: seq<int>) returns (k: int)
    requires |img| >= HEADER + 12 * |sets| && Word(img, 4) == |sets|
    requires forall i :: 0 <= i < |sets| ==> Word(img, HEADER + 12 * i) == Unsigned(sets[i])
    requires IsInt(setId) && forall i :: 0 <= i < |sets| ==> IsInt(sets[i])
    ensures k == Search(Words(sets), Unsigned(setId), 0, |sets|)
    ensures k >= 0 ==> k < |sets| && sets[k] == setId
  {
    hide Word, Unsigned;
    var lo, hi := 0, Word(img, 4);
    while lo < hi
      invariant 0 <= lo <= hi <= |sets|
      invariant Search(Words(sets), Unsigned(setId), 0, |sets|) == Search(Words(sets), Unsigned(setId), lo, hi)
    {
      var mid := (lo + hi) / 2;
      var id := Word(img, HEADER + 12 * mid);
      if id == Unsigned(setId) {
        SameWord(sets[mid], setId);
        return mid;
      } else if id < Unsigned(setId) {
        lo := mid + 1;
      } else {
        hi := mid;
      }
    }
    k := -1;
  }

  /** The search for this set in a table of these ids succeeds. */
  ghost predicate Reached(sets: seq<int>, setId: int)
  {
    Search(Words(sets), Unsigned(setId), 0, |sets|) >= 0
  }

  ghost predicate SameSign(ids: set<int>)
  {
    (forall s :: s in ids ==> s < 0) || (forall s :: s in ids ==> 0 <= s)
  }

  lemma {:induction false} SearchFinds(words: seq<u32>, k: nat, lo: nat, hi: nat)
    requires lo <= k < hi <= |words|
    requires forall i, j :: 0 <= i < j < |words| ==> words[i] < words[j]
    ensures Search(words, words[k], lo, hi) >= 0
    decreases hi - lo
  {
    var mid := (lo + hi) / 2;
    if mid < k {
      SearchFinds(words, k, mid + 1, hi);
    } else if k < mid {
      SearchFinds(words, k, lo, mid);
    }
  }

  /** Ids of one sign keep their order as words, so all are reached. */
  lemma {:induction false} SameSignReached(sets: seq<int>, k: nat)
    requires SetsSorted(sets) && (forall i :: 0 <= i < |sets| ==> IsInt(sets[i])) && k < |sets|
    requires (forall i :: 0 <= i < |sets| ==> sets[i] < 0) || (forall i :: 0 <= i < |sets| ==> 0 <= sets[i])
    ensures Reached(sets, sets[k])
  {
    SearchFinds(Words(sets), k, 0, |sets|);
  }

  /** Of ids of both signs, one at an end of the table lies on the wrong side of its middle. */
  lemma {:induction false} MixedLost(sets: seq<int>)
    requires SetsSorted(sets) && (forall i :: 0 <= i < |sets| ==> IsInt(sets[i])) && sets != []
    requires sets[0] < 0 <= sets[|sets| - 1]
    ensures !Reached(sets, if sets[|sets| / 2] < 0 then sets[|sets| - 1] else sets[0])
  {
  }

  /** Every set of a sorted table is reached exactly when no two ids differ in sign. */
  lemma {:induction false} AllReachedIff(sets: seq<int>)
    requires SetsSorted(sets) && forall i :: 0 <= i < |sets| ==> IsInt(sets[i])
    ensures (forall s :: s in sets ==> Reached(sets, s)) <==> SameSign(Members(sets))
  {
    hide Reached;
    assert forall i :: 0 <= i < |sets| ==> sets[i] in Members(sets);
    if SameSign(Members(sets)) {
      forall s | s in sets
        ensures Reached(sets, s)
      {
        var k :| 0 <= k < |sets| && sets[k] == s;
        SameSignReached(sets, k);
      }
    } else {
      assert sets != [] && sets[0] < 0 <= sets[|sets| - 1];
      MixedLost(sets);
    }
  }

  /** With the sets -1 and 1, set -1 is in the table and not reached. */
  lemma {:induction false} NegativeSetLost()
    ensures SetsSorted([-1, 1]) && !Reached([-1, 1], -1)
  {
    MixedLost([-1, 1]);
  }

  method FindMsg(img: Bytes, base: nat, first: nat, count: nat, msgId: nat, ghost msgs: seq<Msg>) returns (k: int)
    requires MsgsEncoded(img, base, msgs) && first + count <= |msgs|
    requires forall i, j :: first <= i < j < first + count ==> msgs[i].msgId <= msgs[j].msgId
    ensures k >= 0 ==> first <= k < first + count && msgs[k].msgId == msgId
    ensures k < 0 ==> forall i :: first <= i < first + count ==> msgs[i].msgId != msgId
  {
    hide Word;
    var lo, hi := first, first + count;
    while lo < hi
      invariant first <= lo <= hi <= first + count
      invariant forall i :: first <= i < lo ==> msgs[i].msgId < msgId
      invariant forall i :: hi <= i < first + count ==> msgId < msgs[i].msgId
    {
      var mid := (lo + hi) / 2;
      var id := Word(img, base + 12 * mid);
      assert id == msgs[mid].msgId;
      if id == msgId {
        return mid;
      } else if id < msgId {
        lo := mid + 1;
      } else {
        hi := mid;
      }
    }
    k := -1;
  }

  /** The NUL-terminated string at `p`. */
  method ReadString(img: Bytes, p: nat, ghost text: Bytes) returns (s: Bytes)
    requires p + |text| < |img| && img[p..p + |text| + 1] == text + [0]
    requires 0 !in text
    ensures s == text
  {
    var n := p;
    ghost var cell := img[p..p + |text| + 1];
    forall i | p <= i < p + |text|
      ensures img[i] != 0
    {
      assert img[i] == cell[i - p] == text[i - p];
    }
    assert cell[|text|] == 0;
    while img[n] != 0
      invariant p <= n <= p + |text|
      decreases p + |text| - n
    {
      n := n + 1;
    }
    s := img[p..n];
    assert s == cell[..|text|];
  }

  // ---- the catalog against its source ------------------------------------

  /** Every message stands for an entry, and every entry has its message. */
  ghost predicate Represents(msgs: seq<Msg>, strings: Bytes, entries: seq<Entry>)
  {
    && (forall j :: 0 <= j < |msgs| ==> exists e :: e in entries && Holds(strings, msgs[j], e))
    && (forall e :: e in entries ==> exists j :: 0 <= j < |msgs| && Holds(strings, msgs[j], e))
  }

  /** The tables main hands to the emitter: any sorting permutation of the parser's. */
  ghost predicate Sorted(sets: seq<int>, msgs: seq<Msg>, parsedSets: seq<int>, parsedMsgs: seq<Msg>)
  {
    && multiset(sets) == multiset(parsedSets) && multiset(msgs) == multiset(parsedMsgs)
    && NotDescending(sets) && MsgsSorted(msgs)
  }

  lemma {:induction false} SortingKeepsMeaning(msgs: seq<Msg>, parsed: seq<Msg>, strings: Bytes, entries: seq<Entry>)
    requires multiset(msgs) == multiset(parsed) && Describes(parsed, strings, entries)
    ensures Represents(msgs, strings, entries)
  {
    hide Holds;
    forall j | 0 <= j < |msgs|
      ensures exists e :: e in entries && Holds(strings, msgs[j], e)
    {
      assert msgs[j] in multiset(parsed);
      var i :| 0 <= i < |parsed| && parsed[i] == msgs[j];
      assert entries[i] in entries && Holds(strings, msgs[j], entries[i]);
    }
    forall e | e in entries
      ensures exists j :: 0 <= j < |msgs| && Holds(strings, msgs[j], e)
    {
      var i :| 0 <= i < |entries| && entries[i] == e;
      assert parsed[i] in multiset(msgs);
      var j :| 0 <= j < |msgs| && msgs[j] == parsed[i];
      assert Holds(strings, msgs[j], e);
    }
  }

  /** A text ends before the first NUL of its line. */
  lemma {:induction false} ClassifyNoNul(line: Line)
    ensures Classify(line).Message? ==> 0 !in Classify(line).text
  {
    hide Strtol, Atoi, Digits;
    var l := Stripped(UpTo(line, 0));
    assert forall x :: x in l ==> x in UpTo(line, 0);
  }

  lemma {:induction false} FileTextsNoNul(file: File, n: nat, e: Entry)
    requires n <= |file| && e in FileEntries(file, n)
    ensures 0 !in e.text
  {
    hide Classify;
    if n > 0 {
      ClassifyNoNul(file[n - 1]);
      if e in FileEntries(file, n - 1) {
        FileTextsNoNul(file, n - 1, e);
      }
    }
  }

  lemma {:induction false} TextsNoNul(files: seq<File>, e: Entry)
    requires e in Entries(files)
    ensures 0 !in e.text
  {
    if files != [] {
      var last := files[|files| - 1];
      if e in FileEntries(last, |last|) {
        FileTextsNoNul(last, |last|, e);
      } else {
        TextsNoNul(files[..|files| - 1], e);
      }
    }
  }

  /** What main has in hand when it starts to emit. */
  ghost predicate Ready(sets: seq<int>, msgs: seq<Msg>, strings: Bytes, entries: seq<Entry>)
  {
    && Emittable(sets, msgs, strings)
    && SetsSorted(sets) && MsgsSorted(msgs)
    && (forall i :: 0 <= i < |msgs| ==> msgs[i].setId in sets)
    && Represents(msgs, strings, entries)
    && (forall e :: e in entries ==> 0 !in e.text)
  }

  /** Everything the reader relies on, from the bytes up to the source. */
  ghost predicate Readable(img: Bytes, rows: seq<SetEntry>, sets: seq<int>, msgs: seq<Msg>, strings: Bytes)
  {
    && Encodes(img, rows, msgs, strings) && Partition(rows, sets, msgs, 0) && SetsSorted(sets) && MsgsSorted(msgs)
    && forall i :: 0 <= i < |msgs| ==> msgs[i].setId in sets
  }

  lemma {:induction false} ImageReadable(sets: seq<int>, msgs: seq<Msg>, strings: Bytes, entries: seq<Entry>)
    requires Ready(sets, msgs, strings, entries)
    ensures Readable(Image(sets, msgs, strings), SetTable(sets, msgs, 0), sets, msgs, strings)
  {
    hide Encodes, Partition, Represents, Image, SetTable;
    ImageEncodes(sets, msgs, strings);
    SetTablePartitions(sets, msgs, 0);
  }

  lemma {:induction false} RowIds(rows: seq<SetEntry>, sets: seq<int>, msgs: seq<Msg>)
    requires Partition(rows, sets, msgs, 0)
    ensures |rows| == |sets| && forall k :: 0 <= k < |rows| ==> rows[k].setId == sets[k]
  {
  }

  lemma {:induction false} ConsecutiveBound(rows: seq<SetEntry>, from: nat, end: nat, k: nat)
    requires Consecutive(rows, from, end) && k < |rows|
    ensures from <= rows[k].first && rows[k].first + rows[k].count <= end
    decreases |rows|
  {
    StartBound(rows[1..], from + rows[0].count, end);
    if k > 0 {
      ConsecutiveBound(rows[1..], from + rows[0].count, end, k - 1);
    }
  }

  lemma {:induction false} StartBound(rows: seq<SetEntry>, from: nat, end: nat)
    requires Consecutive(rows, from, end)
    ensures from <= end
  {
    if rows != [] {
      StartBound(rows[1..], from + rows[0].count, end);
    }
  }

  /** Within one set's range the messages are all of that set, in message order. */
  lemma {:induction false} RunInOrder(rows: seq<SetEntry>, sets: seq<int>, msgs: seq<Msg>, k: nat)
    requires Partition(rows, sets, msgs, 0) && MsgsSorted(msgs) && k < |rows|
    ensures var lo, hi := rows[k].first, rows[k].first + rows[k].count;
            && hi <= |msgs|
            && (forall i :: 0 <= i < |msgs| ==> (msgs[i].setId == rows[k].setId <==> lo <= i < hi))
            && (forall i, j :: lo <= i < j < hi ==> msgs[i].msgId <= msgs[j].msgId)
  {
    ConsecutiveBound(rows, 0, |msgs|, k);
    var lo, hi := rows[k].first, rows[k].first + rows[k].count;
    assert RowExact(rows[k], sets[k], msgs);
    forall i, j | lo <= i < j < hi
      ensures msgs[i].msgId <= msgs[j].msgId
    {
      assert Ordered(msgs[i], msgs[j]);
    }
  }

  lemma {:induction false} SetWords(img: Bytes, rows: seq<SetEntry>, sets: seq<int>, msgs: seq<Msg>, strings: Bytes)
    requires Readable(img, rows, sets, msgs, strings)
    ensures |rows| == |sets| && |img| >= HEADER + 12 * |sets| && Word(img, 4) == |sets|
    ensures forall i :: 0 <= i < |sets| ==> rows[i].setId == sets[i] && Word(img, HEADER + 12 * i) == Unsigned(sets[i])
  {
    hide Word, Unsigned, MsgsEncoded, MsgsSorted, SetsSorted;
    RowIds(rows, sets, msgs);
  }

  /** The search among the messages of row `k`. */
  method FindInRow(img: Bytes, k: nat, msgId: nat, ghost rows: seq<SetEntry>, ghost sets: seq<int>,
                   ghost msgs: seq<Msg>, ghost strings: Bytes)
    returns (j: int)
    requires Readable(img, rows, sets, msgs, strings) && k < |rows|
    ensures j >= 0 ==> j < |msgs| && msgs[j].setId == rows[k].setId && msgs[j].msgId == msgId
    ensures j < 0 ==> forall i :: 0 <= i < |msgs| ==> !(msgs[i].setId == rows[k].setId && msgs[i].msgId == msgId)
  {
    RunInOrder(rows, sets, msgs, k);
    hide Word, Unsigned, Partition, MsgsSorted, SetsSorted;
    j := FindMsg(img, HEADER + Word(img, 12), Word(img, HEADER + 12 * k + 8), Word(img, HEADER + 12 * k + 4), msgId, msgs);
  }

  /** Locate a message: its index, or -1 when the sorted tables have no such pair. */
  method Locate(img: Bytes, setId: int, msgId: nat, ghost rows: seq<SetEntry>, ghost sets: seq<int>,
                ghost msgs: seq<Msg>, ghost strings: Bytes)
    returns (j: int)
    requires Readable(img, rows, sets, msgs, strings)
    requires IsInt(setId) && forall i :: 0 <= i < |sets| ==> IsInt(sets[i])
    ensures j >= 0 ==> Reached(sets, setId) && j < |msgs| && msgs[j].setId == setId && msgs[j].msgId == msgId
    ensures j < 0 && Reached(sets, setId) ==>
              forall i :: 0 <= i < |msgs| ==> !(msgs[i].setId == setId && msgs[i].msgId == msgId)
  {
    SetWords(img, rows, sets, msgs, strings);
    hide *;
    var k := FindSet(img, setId, sets);
    if k < 0 {
      return -1;
    }
    j := FindInRow(img, k, msgId, rows, sets, msgs, strings);
  }

  /**
    Compiler correctness. For every pair of ids, reading the emitted bytes finds a
    message exactly when the source defines that pair and the search reaches its set,
    and then a text the source gave it.
   */
  method CatGets(img: Bytes, setId: int, msgId: nat, ghost sets: seq<int>, ghost msgs: seq<Msg>, ghost strings: Bytes,
                 ghost entries: seq<Entry>)
    returns (r: Option<Bytes>)
    requires Ready(sets, msgs, strings, entries) && img == Image(sets, msgs, strings) && IsInt(setId)
    ensures r.Some? <==> Reached(sets, setId) && exists e :: e in entries && e.setId == setId && e.msgId == msgId
    ensures r.Some? ==> Entry(setId, msgId, r.value) in entries
  {
    ImageReadable(sets, msgs, strings, entries);
    hide *;
    ghost var rows := SetTable(sets, msgs, 0);
    var j := Locate(img, setId, msgId, rows, sets, msgs, strings);
    if j < 0 {
      if Reached(sets, setId) {
        NoEntry(sets, msgs, strings, entries, setId, msgId);
      }
      return None;
    }
    ghost var e := EntryOf(sets, msgs, strings, entries, j);
    var text := ReadMessage(img, j, rows, sets, msgs, strings, e);
    r := Some(text);
  }

  lemma {:induction false} EntryOf(sets: seq<int>, msgs: seq<Msg>, strings: Bytes, entries: seq<Entry>,
                                   j: nat) returns (e: Entry)
    requires Ready(sets, msgs, strings, entries) && j < |msgs|
    ensures e in entries && Holds(strings, msgs[j], e) && 0 !in e.text
    ensures e == Entry(msgs[j].setId, msgs[j].msgId, e.text)
  {
    e := SomeEntry(msgs, strings, entries, j);
  }

  lemma {:induction false} SomeEntry(msgs: seq<Msg>, strings: Bytes, entries: seq<Entry>, j: nat) returns (e: Entry)
    requires Represents(msgs, strings, entries) && j < |msgs|
    ensures e in entries && Holds(strings, msgs[j], e)
  {
    hide Holds;
    var m := msgs[j];
    assert exists x :: x in entries && Holds(strings, m, x);
    e :| e in entries && Holds(strings, m, e);
  }

  method ReadMessage(img: Bytes, j: nat, ghost rows: seq<SetEntry>, ghost sets: seq<int>, ghost msgs: seq<Msg>,
                     ghost strings: Bytes, ghost e: Entry)
    returns (text: Bytes)
    requires Readable(img, rows, sets, msgs, strings) && j < |msgs| && Holds(strings, msgs[j], e) && 0 !in e.text
    ensures text == e.text
  {
    MessageText(img, rows, msgs, strings, j, e);
    hide Holds, Partition, SetsEncoded, MsgsEncoded, MsgsSorted, SetsSorted, Word;
    var row := HEADER + Word(img, 12) + 12 * j;
    text := ReadString(img, HEADER + Word(img, 16) + Word(img, row + 8), e.text);
  }

  lemma {:induction false} NoEntry(sets: seq<int>, msgs: seq<Msg>, strings: Bytes, entries: seq<Entry>, setId: int,
                                   msgId: nat)
    requires Ready(sets, msgs, strings, entries)
    requires forall i :: 0 <= i < |msgs| ==> !(msgs[i].setId == setId && msgs[i].msgId == msgId)
    ensures forall e :: e in entries ==> !(e.setId == setId && e.msgId == msgId)
  {
  }

  /** The stored offset points at the entry's text, NUL-terminated. */
  lemma {:induction false} MessageText(img: Bytes, rows: seq<SetEntry>, msgs: seq<Msg>, strings: Bytes, j: nat,
                                       e: Entry)
    requires Encodes(img, rows, msgs, strings) && j < |msgs| && Holds(strings, msgs[j], e)
    ensures HEADER + Word(img, 12) + 12 * j + 12 <= |img|
    ensures var p := HEADER + Word(img, 16) + Word(img, HEADER + Word(img, 12) + 12 * j + 8);
            p + |e.text| < |img| && img[p..p + |e.text| + 1] == e.text + [0]
  {
  }

  /** With one text per pair, the text found is that text. */
  lemma {:induction false} UniqueText(entries: seq<Entry>, setId: int, msgId: nat, text: Bytes, found: Bytes)
    requires forall i, j :: 0 <= i < j < |entries| ==>
               !(entries[i].setId == entries[j].setId && entries[i].msgId == entries[j].msgId)
    requires Entry(setId, msgId, text) in entries && Entry(setId, msgId, found) in entries
    ensures found == text
  {
  }

  // ---- the whole program -------------------------------------------------

  /** main's parsing loop over the files named on the command line. */
  method ParseAll(files: seq<File>) returns (ok: bool, sets: seq<int>, msgs: seq<Msg>, strings: Bytes)
    ensures ok <==> Fits(Sets(files), Entries(files))
    ensures ok ==>
              && |sets| <= MAX_SETS && |msgs| <= MAX_MSGS && |strings| <= MAX_STRINGS
              && Distinct(sets) && Members(sets) == Sets(files) && Describes(msgs, strings, Entries(files))
  {
    var p := new Parser();
    var i := 0;
    while i < |files|
      invariant 0 <= i <= |files| && fresh(p) && p.Limits()
      invariant Describes(p.msgs, p.strings, Entries(files[..i])) && Members(p.sets) == Sets(files[..i])
    {
      hide Describes, FileEntries, FileSets, TextSize;
      assert files[..i + 1][..i] == files[..i];
      var more := p.ParseFile(files[i], Entries(files[..i]), Sets(files[..i]));
      i := i + 1;
      if !more {
        AllFitMonotone(files, i);
        return false, [], [], [];
      }
    }
    assert files[..|files|] == files;
    DistinctCount(p.sets);
    return true, p.sets, p.msgs, p.strings;
  }

  /** What does not fit after `n` files does not fit after all of them. */
  lemma {:induction false} AllFitMonotone(files: seq<File>, n: nat)
    requires n <= |files| && !Fits(Sets(files[..n]), Entries(files[..n]))
    ensures !Fits(Sets(files), Entries(files))
    decreases |files| - n
  {
    if n == |files| {
      assert files[..n] == files;
    } else {
      assert files[..n + 1][..n] == files[..n];
      var sets, entries, file := Sets(files[..n]), Entries(files[..n]), files[n];
      assert sets + {} == sets && entries + [] == entries;
      if Fits(sets + FileSets(file, |file|), entries + FileEntries(file, |file|)) {
        FitsMonotone(sets, entries, file, 0, |file|);
      }
      AllFitMonotone(files, n + 1);
    }
  }

  lemma {:induction false} DistinctMultiset(s: seq<int>, x: int)
    requires Distinct(s)
    ensures multiset(s)[x] <= 1
  {
    if s != [] {
      var t := s[..|s| - 1];
      assert s == t + [s[|s| - 1]];
      DistinctMultiset(t, x);
      if s[|s| - 1] == x {
        assert x !in t;
      }
    }
  }

  lemma {:induction false} RepeatedMultiset(s: seq<int>, i: nat, j: nat)
    requires i < j < |s| && s[i] == s[j]
    ensures multiset(s)[s[i]] >= 2
  {
    assert s == s[..j] + s[j..];
    assert s[..j][i] == s[i] && s[j..][0] == s[i];
    assert s[i] in multiset(s[..j]) && s[i] in multiset(s[j..]);
  }

  lemma {:induction false} SortedDistinct(sets: seq<int>, parsed: seq<int>)
    requires multiset(sets) == multiset(parsed) && Distinct(parsed)
    requires forall i, j :: 0 <= i < j < |sets| ==> sets[i] <= sets[j]
    ensures SetsSorted(sets) && Members(sets) == Members(parsed) && forall x :: x in sets <==> x in parsed
  {
    forall i, j | 0 <= i < j < |sets|
      ensures sets[i] < sets[j]
    {
      if sets[i] == sets[j] {
        RepeatedMultiset(sets, i, j);
        DistinctMultiset(parsed, sets[i]);
      }
    }
    forall x
      ensures x in sets <==> x in parsed
    {
      assert x in multiset(sets) <==> x in multiset(parsed);
    }
  }

  lemma {:induction false} FileEntryInSets(file: File, n: nat, e: Entry)
    requires n <= |file| && e in FileEntries(file, n)
    ensures e.setId in FileSets(file, n) && e.msgId <= LONG_MAX
  {
    if n > 0 {
      MessageIdSmall(file[n - 1]);
      hide Classify, MoreEntries, MoreSets, CurrentSet;
      var entries, sets := FileEntries(file, n - 1), FileSets(file, n - 1);
      if e in entries {
        FileEntryInSets(file, n - 1, e);
      }
      EntryStep(Classify(file[n - 1]), CurrentSet(file, n - 1), entries, sets, e);
    }
  }

  lemma {:induction false} EntryStep(item: Item, cur: int, entries: seq<Entry>, sets: set<int>, e: Entry)
    requires e in MoreEntries(item, cur, entries)
    requires item.Message? ==> item.msgId <= LONG_MAX
    requires e in entries ==> e.setId in sets && e.msgId <= LONG_MAX
    ensures e.setId in MoreSets(item, cur, sets) && e.msgId <= LONG_MAX
  {
  }

  lemma {:induction false} MessageIdSmall(line: Line)
    ensures Classify(line).Message? ==> Classify(line).msgId <= LONG_MAX
  {
    hide Stripped, SkipBlanks, Digits, Atoi, Number;
  }

  lemma {:induction false} EntryInSets(files: seq<File>, e: Entry)
    requires e in Entries(files)
    ensures e.setId in Sets(files) && e.msgId <= LONG_MAX
  {
    if files != [] {
      var last := files[|files| - 1];
      if e in FileEntries(last, |last|) {
        FileEntryInSets(last, |last|, e);
      } else {
        EntryInSets(files[..|files| - 1], e);
      }
    }
  }

  /** Any sorting permutation of the parsed tables is ready to be emitted. */
  lemma {:induction false} SortedIsReady(files: seq<File>, sets: seq<int>, msgs: seq<Msg>, parsedSets: seq<int>,
                                         parsedMsgs: seq<Msg>, strings: Bytes)
    requires forall s :: s in Sets(files) ==> IsInt(s)
    requires |parsedSets| <= MAX_SETS && |parsedMsgs| <= MAX_MSGS && |strings| <= MAX_STRINGS
    requires Distinct(parsedSets) && Members(parsedSets) == Sets(files)
    requires Describes(parsedMsgs, strings, Entries(files))
    requires Sorted(sets, msgs, parsedSets, parsedMsgs)
    ensures Ready(sets, msgs, strings, Entries(files)) && Members(sets) == Sets(files)
  {
    hide Sets, Entries, Describes, Represents, Distinct, Members;
    SortingKeepsMeaning(msgs, parsedMsgs, strings, Entries(files));
    SortedDistinct(sets, parsedSets);
    SetsInRange(files, sets, parsedSets);
    MsgsInRange(files, sets, msgs, strings);
    SameLength(sets, parsedSets);
    SameLength(msgs, parsedMsgs);
    forall e | e in Entries(files)
      ensures 0 !in e.text
    {
      TextsNoNul(files, e);
    }
  }

  lemma {:induction false} SetsInRange(files: seq<File>, sets: seq<int>, parsedSets: seq<int>)
    requires (forall x :: x in sets <==> x in parsedSets) && Members(parsedSets) == Sets(files)
    requires forall s :: s in Sets(files) ==> IsInt(s)
    ensures forall i :: 0 <= i < |sets| ==> IsInt(sets[i])
    ensures forall s :: s in Sets(files) ==> s in sets
  {
    hide Sets;
    forall i | 0 <= i < |sets|
      ensures IsInt(sets[i])
    {
      var x := sets[i];
      assert x in sets;
      assert x in Members(parsedSets);
    }
    forall s | s in Sets(files)
      ensures s in sets
    {
      assert s in Members(parsedSets);
    }
  }

  lemma {:induction false} MsgsInRange(files: seq<File>, sets: seq<int>, msgs: seq<Msg>, strings: Bytes)
    requires Represents(msgs, strings, Entries(files)) && forall s :: s in Sets(files) ==> s in sets
    ensures forall i :: 0 <= i < |msgs| ==>
              msgs[i].setId in sets && msgs[i].msgId <= LONG_MAX && msgs[i].off + msgs[i].len <= |strings|
  {
    hide Sets, Entries, Represents;
    forall i | 0 <= i < |msgs|
      ensures msgs[i].setId in sets && msgs[i].msgId <= LONG_MAX && msgs[i].off + msgs[i].len <= |strings|
    {
      var e := SomeEntry(msgs, strings, Entries(files), i);
      EntryInSets(files, e);
    }
  }

  /** No comparison of these ids by subtraction leaves the range of int. */
  predicate Comparable(ids: set<int>)
  {
    forall a, b :: a in ids && b in ids ==> IsInt(a) && a - b <= LONG_MAX
  }

  function SetIds(msgs: seq<Msg>): set<int>
  {
    set m | m in msgs :: m.setId
  }

  /** What main relies on qsort for. */
  ghost predicate SortsSets(qsort: seq<int> -> seq<int>)
  {
    forall s :: Comparable(Members(s)) ==> multiset(qsort(s)) == multiset(s) && NotDescending(qsort(s))
  }

  predicate NotDescending(s: seq<int>)
  {
    forall i, j :: 0 <= i < j < |s| ==> s[i] <= s[j]
  }

  ghost predicate SortsMsgs(qsort: seq<Msg> -> seq<Msg>)
  {
    forall s :: Comparable(SetIds(s)) ==> multiset(qsort(s)) == multiset(s) && MsgsSorted(qsort(s))
  }

  lemma {:induction false} MsgsComparable(files: seq<File>, msgs: seq<Msg>, strings: Bytes)
    requires Describes(msgs, strings, Entries(files)) && Comparable(Sets(files))
    ensures Comparable(SetIds(msgs))
  {
    hide Sets, Entries;
    forall s | s in SetIds(msgs)
      ensures s in Sets(files)
    {
      var i :| 0 <= i < |msgs| && msgs[i].setId == s;
      EntryInSets(files, Entries(files)[i]);
    }
  }

  /** Where all set ids have one sign, every set with an entry is reached. */
  lemma {:induction false} SameSignSource(files: seq<File>, sets: seq<int>, e: Entry)
    requires SetsSorted(sets) && Members(sets) == Sets(files) && Comparable(Sets(files))
    requires SameSign(Sets(files)) && e in Entries(files)
    ensures Reached(sets, e.setId)
  {
    hide Sets, Entries, Reached, SameSign;
    forall i | 0 <= i < |sets|
      ensures IsInt(sets[i])
    {
      assert sets[i] in Members(sets);
    }
    AllReachedIff(sets);
    EntryInSets(files, e);
  }

  /**
    The whole program against the whole source: parse the files, sort the tables by any
    qsort, emit the bytes, look a pair up in them, and get what the source says, if and
    only if the search reaches the set. It reaches every set exactly when the ids have
    one sign (`AllReachedIff`).
   */
  method CompileAndLookup(files: seq<File>, setId: int, msgId: nat,
                          qsortSets: seq<int> -> seq<int>, qsortMsgs: seq<Msg> -> seq<Msg>)
    returns (ok: bool, r: Option<Bytes>, sets: seq<int>)
    requires SortsSets(qsortSets) && SortsMsgs(qsortMsgs)
    requires Comparable(Sets(files)) && IsInt(setId)
    ensures ok <==> Fits(Sets(files), Entries(files))
    ensures ok ==> SetsSorted(sets) && Members(sets) == Sets(files)
    ensures ok ==>
              (r.Some? <==> Reached(sets, setId) && exists e :: e in Entries(files) && e.setId == setId && e.msgId == msgId)
    ensures ok && r.Some? ==> Entry(setId, msgId, r.value) in Entries(files)
    ensures ok && SameSign(Sets(files)) ==>
              (r.Some? <==> exists e :: e in Entries(files) && e.setId == setId && e.msgId == msgId)
  {
    var parsedSets, parsedMsgs, strings;
    ok, parsedSets, parsedMsgs, strings := ParseAll(files);
    if !ok {
      return false, None, [];
    }
    MsgsComparable(files, parsedMsgs, strings);
    var msgs := qsortMsgs(parsedMsgs);
    sets := qsortSets(parsedSets);
    SortedIsReady(files, sets, msgs, parsedSets, parsedMsgs, strings);
    hide Sets, Entries, Describes, Represents, Image, Reached, SameSign;
    assert Members(sets) == Sets(files);
    var buf := Build(sets, msgs, strings);
    r := CatGets(buf[..], setId, msgId, sets, msgs, strings, Entries(files));
    if SameSign(Sets(files)) {
      forall e | e in Entries(files) && e.setId == setId && e.msgId == msgId
        ensures Reached(sets, setId)
      {
        SameSignSource(files, sets, e);
      }
    }
  }
}
