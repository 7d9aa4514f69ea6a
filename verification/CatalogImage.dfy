/**
  The binary catalog: the set table over the sorted messages, the documented layout,
  and gencat's emitter, which is proved to write that layout byte for byte.
 */
module CatalogImage {
  import opened Basics
  import opened CatalogSource

  const MAGIC := 0xff88ff89
  const HEADER := 20   // followed by rows of three words, 12 bytes each

  type u32 = v: int | 0 <= v < 0x1_0000_0000

  function Be32(v: u32): (b: Bytes)
    ensures |b| == 4
  {
    [v / 16777216, v / 65536 % 256, v / 256 % 256, v % 256]
  }

  function FromBe32(b: Bytes): u32
    requires |b| == 4
  {
    16777216 * (b[0] as int) + 65536 * (b[1] as int) + 256 * (b[2] as int) + (b[3] as int)
  }

  /** A C int, and the word `put32be` stores for it. */
  predicate IsInt(v: int)
  {
    -LONG_MAX - 1 <= v <= LONG_MAX
  }

  function Unsigned(v: int): u32
  {
    v % 0x1_0000_0000
  }

  lemma {:induction false} Be32RoundTrip(v: u32)
    ensures FromBe32(Be32(v)) == v
  {
    var a, b, c := v / 256, v / 65536, v / 16777216;
    assert v == 256 * a + v % 256;
    assert a == 256 * (a / 256) + a % 256 && a / 256 == b;
    assert b == 256 * (b / 256) + b % 256 && b / 256 == c;
  }

  // ---- the set table partitions the sorted messages ----------------------

  /** What qsort leaves: set ids ascending, messages by set id then message id. */
  predicate SetsSorted(sets: seq<int>)
  {
    forall i, j :: 0 <= i < j < |sets| ==> sets[i] < sets[j]
  }

  predicate Ordered(a: Msg, b: Msg)
  {
    a.setId < b.setId || (a.setId == b.setId && a.msgId <= b.msgId)
  }

  predicate MsgsSorted(msgs: seq<Msg>)
  {
    forall i, j :: 0 <= i < j < |msgs| ==> Ordered(msgs[i], msgs[j])
  }

  /** The inner while loop: consecutive messages of one set. */
  function RunLength(msgs: seq<Msg>, from: nat, setId: int): (n: nat)
    requires from <= |msgs|
    ensures from + n <= |msgs|
    ensures forall i :: from <= i < from + n ==> msgs[i].setId == setId
    ensures from + n < |msgs| ==> msgs[from + n].setId != setId
    decreases |msgs| - from
  {
    if from < |msgs| && msgs[from].setId == setId then 1 + RunLength(msgs, from + 1, setId) else 0
  }

  datatype SetEntry = SetEntry(setId: int, count: nat, first: nat)

  /** The set table, by one forward cursor over the messages. */
  function SetTable(sets: seq<int>, msgs: seq<Msg>, cursor: nat): (r: seq<SetEntry>)
    requires cursor <= |msgs|
    ensures |r| == |sets|
    decreases |sets|
  {
    if sets == [] then []
    else
      var n := RunLength(msgs, cursor, sets[0]);
      [SetEntry(sets[0], n, cursor)] + SetTable(sets[1..], msgs, cursor + n)
  }

  /** The messages from `cursor` on belong to `sets`, and those before it to smaller sets. */
  ghost predicate CursorOk(sets: seq<int>, msgs: seq<Msg>, cursor: nat)
  {
    && cursor <= |msgs|
    && (forall i :: cursor <= i < |msgs| ==> msgs[i].setId in sets)
    && (forall i, k :: 0 <= i < cursor && 0 <= k < |sets| ==> msgs[i].setId < sets[k])
  }

  /** The cursor never sticks: past a set's run, the rest belongs to the later sets. */
  lemma {:induction false} CursorAdvances(sets: seq<int>, msgs: seq<Msg>, cursor: nat)
    requires SetsSorted(sets) && MsgsSorted(msgs) && sets != [] && CursorOk(sets, msgs, cursor)
    ensures CursorOk(sets[1..], msgs, cursor + RunLength(msgs, cursor, sets[0]))
    ensures forall i :: 0 <= i < |msgs| ==>
              (msgs[i].setId == sets[0] <==> cursor <= i < cursor + RunLength(msgs, cursor, sets[0]))
  {
    hide RunLength;
    var end := cursor + RunLength(msgs, cursor, sets[0]);
    forall i | end <= i < |msgs|
      ensures msgs[i].setId in sets[1..] && msgs[i].setId > sets[0]
    {
      BehindRun(sets, msgs, end, i);
    }
    assert forall k :: 0 <= k < |sets| - 1 ==> sets[1..][k] == sets[k + 1];
  }

  /** Behind the run of the first set stand messages of later sets. */
  lemma {:induction false} BehindRun(sets: seq<int>, msgs: seq<Msg>, end: nat, i: nat)
    requires SetsSorted(sets) && MsgsSorted(msgs) && sets != [] && end <= i < |msgs|
    requires msgs[end].setId in sets && msgs[i].setId in sets && msgs[end].setId != sets[0]
    ensures msgs[i].setId in sets[1..] && msgs[i].setId > sets[0]
  {
    var e :| 0 <= e < |sets| && sets[e] == msgs[end].setId;
    assert sets[0] < sets[e];
    assert i == end || Ordered(msgs[end], msgs[i]);
    var k :| 0 <= k < |sets| && sets[k] == msgs[i].setId;
    assert k > 0 && sets[1..][k - 1] == sets[k];
  }

  /** The row's range holds exactly the messages of its set. */
  ghost predicate RowExact(r: SetEntry, setId: int, msgs: seq<Msg>)
  {
    && r.setId == setId
    && forall i :: 0 <= i < |msgs| ==> (msgs[i].setId == setId <==> r.first <= i < r.first + r.count)
  }

  /** Ids as given, ranges exact and consecutive from `cursor` to the last message. */
  ghost predicate Partition(rows: seq<SetEntry>, sets: seq<int>, msgs: seq<Msg>, cursor: nat)
  {
    && |rows| == |sets|
    && (forall k :: 0 <= k < |rows| ==> RowExact(rows[k], sets[k], msgs))
    && Consecutive(rows, cursor, |msgs|)
  }

  predicate Consecutive(rows: seq<SetEntry>, from: nat, end: nat)
  {
    if rows == [] then from == end
    else rows[0].first == from && Consecutive(rows[1..], from + rows[0].count, end)
  }

  /**
    The emitted set table partitions the messages: ids ascending, ranges
    consecutive up to the last message, each exactly the messages of its set (an
    empty set gets an empty range).
   */
  lemma {:induction false} SetTablePartitions(sets: seq<int>, msgs: seq<Msg>, cursor: nat)
    requires SetsSorted(sets) && MsgsSorted(msgs) && CursorOk(sets, msgs, cursor)
    ensures Partition(SetTable(sets, msgs, cursor), sets, msgs, cursor)
    decreases |sets|
  {
    hide RowExact, RunLength, Consecutive, CursorOk, MsgsSorted, SetsSorted, Partition;
    if sets == [] {
      NoRows(sets, msgs, cursor);
    } else {
      FirstRow(sets, msgs, cursor);
      var n := RunLength(msgs, cursor, sets[0]);
      SetTablePartitions(sets[1..], msgs, cursor + n);
      PartitionCons(SetEntry(sets[0], n, cursor), SetTable(sets[1..], msgs, cursor + n), sets, msgs, cursor);
    }
  }

  lemma {:induction false} UnreadHasSet(sets: seq<int>, msgs: seq<Msg>, cursor: nat)
    requires CursorOk(sets, msgs, cursor)
    ensures cursor < |msgs| ==> sets != []
  {
    if cursor < |msgs| {
      assert msgs[cursor].setId in sets;
    }
  }

  lemma {:induction false} NoRows(sets: seq<int>, msgs: seq<Msg>, cursor: nat)
    requires CursorOk(sets, msgs, cursor) && sets == []
    ensures Partition([], sets, msgs, cursor)
  {
    UnreadHasSet(sets, msgs, cursor);
  }

  lemma {:induction false} FirstRow(sets: seq<int>, msgs: seq<Msg>, cursor: nat)
    requires SetsSorted(sets) && MsgsSorted(msgs) && sets != [] && CursorOk(sets, msgs, cursor)
    ensures CursorOk(sets[1..], msgs, cursor + RunLength(msgs, cursor, sets[0])) && SetsSorted(sets[1..])
    ensures RowExact(SetEntry(sets[0], RunLength(msgs, cursor, sets[0]), cursor), sets[0], msgs)
  {
    CursorAdvances(sets, msgs, cursor);
  }

  lemma {:induction false} PartitionCons(row: SetEntry, rest: seq<SetEntry>, sets: seq<int>, msgs: seq<Msg>,
                                         cursor: nat)
    requires sets != [] && row.first == cursor && RowExact(row, sets[0], msgs)
    requires Partition(rest, sets[1..], msgs, cursor + row.count)
    ensures Partition([row] + rest, sets, msgs, cursor)
  {
  }

  // ---- the bytes ---------------------------------------------------------

  datatype Row = Row(a: u32, b: u32, c: u32)

  function RowBytes(r: Row): (b: Bytes)
    ensures |b| == 12
  {
    Be32(r.a) + Be32(r.b) + Be32(r.c)
  }

  function TableBytes(rows: seq<Row>): (b: Bytes)
    ensures |b| == 12 * |rows|
  {
    if rows == [] then [] else TableBytes(rows[..|rows| - 1]) + RowBytes(rows[|rows| - 1])
  }

  /** The big-endian word at `p`. */
  function Word(img: Bytes, p: nat): u32
    requires p + 4 <= |img|
  {
    FromBe32(img[p..p + 4])
  }

  ghost predicate RowAt(img: Bytes, p: nat, r: Row)
  {
    p + 12 <= |img| && Word(img, p) == r.a && Word(img, p + 4) == r.b && Word(img, p + 8) == r.c
  }

  lemma {:induction false} RowBytesAt(img: Bytes, p: nat, r: Row)
    requires p + 12 <= |img| && img[p..p + 12] == RowBytes(r)
    ensures RowAt(img, p, r)
  {
    var b := img[p..p + 12];
    SubSlice(img, p, p + 12, 0, 4);
    SubSlice(img, p, p + 12, 4, 8);
    SubSlice(img, p, p + 12, 8, 12);
    assert b[0..4] == Be32(r.a) && b[4..8] == Be32(r.b) && b[8..12] == Be32(r.c);
    Be32RoundTrip(r.a);
    Be32RoundTrip(r.b);
    Be32RoundTrip(r.c);
  }

  lemma {:induction false} TableRows(img: Bytes, p: nat, rows: seq<Row>, i: nat)
    requires p + 12 * |rows| <= |img| && img[p..p + 12 * |rows|] == TableBytes(rows)
    requires i < |rows|
    ensures RowAt(img, p + 12 * i, rows[i])
    decreases |rows|
  {
    hide RowBytes, RowAt;
    var n := |rows| - 1;
    var table := img[p..p + 12 * |rows|];
    SubSlice(img, p, p + 12 * |rows|, 0, 12 * n);
    assert table[0..12 * n] == TableBytes(rows[..n]);
    if i < n {
      TableRows(img, p, rows[..n], i);
    } else {
      SubSlice(img, p, p + 12 * |rows|, 12 * n, 12 * n + 12);
      assert table[12 * n..12 * n + 12] == RowBytes(rows[n]);
      RowBytesAt(img, p + 12 * n, rows[n]);
    }
  }

  /** Tables within gencat's limits. */
  ghost predicate Emittable(sets: seq<int>, msgs: seq<Msg>, strings: Bytes)
  {
    && |sets| <= MAX_SETS && |msgs| <= MAX_MSGS && |strings| <= MAX_STRINGS
    && (forall i :: 0 <= i < |sets| ==> IsInt(sets[i]))
    && (forall i :: 0 <= i < |msgs| ==> msgs[i].msgId <= LONG_MAX && msgs[i].off + msgs[i].len <= |strings|)
  }

  function MsgRow(m: Msg): Row
    requires m.msgId <= LONG_MAX && m.off + m.len <= MAX_STRINGS
  {
    Row(m.msgId, m.len, m.off)
  }

  /** Entry `i` of the set table, and where the next one starts. */
  lemma {:induction false} SetEntryAt(sets: seq<int>, msgs: seq<Msg>, cursor: nat, i: nat)
    requires cursor <= |msgs| && i < |sets|
    ensures var all := SetTable(sets, msgs, cursor);
            && (i == 0 ==> all[0].first == cursor)
            && all[i].first <= |msgs| && all[i] == SetEntry(sets[i], RunLength(msgs, all[i].first, sets[i]), all[i].first)
            && (i + 1 < |sets| ==> all[i + 1].first == all[i].first + all[i].count)
    decreases |sets|
  {
    var n := RunLength(msgs, cursor, sets[0]);
    if i > 0 {
      SetEntryAt(sets[1..], msgs, cursor + n, i - 1);
    } else if |sets| > 1 {
      SetEntryAt(sets[1..], msgs, cursor + n, 0);
    }
  }

  predicate Storable(e: SetEntry)
  {
    IsInt(e.setId) && e.count <= MAX_MSGS && e.first <= MAX_MSGS
  }

  function SetRow(e: SetEntry): Row
    requires Storable(e)
  {
    Row(Unsigned(e.setId), e.count, e.first)
  }

  lemma {:induction false} TableStorable(sets: seq<int>, msgs: seq<Msg>)
    requires |msgs| <= MAX_MSGS && forall i :: 0 <= i < |sets| ==> IsInt(sets[i])
    ensures forall i :: 0 <= i < |sets| ==> Storable(SetTable(sets, msgs, 0)[i])
  {
    hide SetTable, RunLength;
    forall i | 0 <= i < |sets|
      ensures Storable(SetTable(sets, msgs, 0)[i])
    {
      SetEntryAt(sets, msgs, 0, i);
    }
  }

  /** The rows the emitter writes: those of the set table. */
  ghost function SetRows(sets: seq<int>, msgs: seq<Msg>): (r: seq<Row>)
    requires |msgs| <= MAX_MSGS && forall i :: 0 <= i < |sets| ==> IsInt(sets[i])
    ensures |r| == |sets|
    ensures forall i :: 0 <= i < |sets| ==> Storable(SetTable(sets, msgs, 0)[i]) && r[i] == SetRow(SetTable(sets, msgs, 0)[i])
  {
    TableStorable(sets, msgs);
    var t := SetTable(sets, msgs, 0);
    seq(|t|, i requires 0 <= i < |t| && Storable(t[i]) => SetRow(t[i]))
  }

  function MsgRows(msgs: seq<Msg>): (r: seq<Row>)
    requires forall i :: 0 <= i < |msgs| ==> msgs[i].msgId <= LONG_MAX && msgs[i].off + msgs[i].len <= MAX_STRINGS
    ensures |r| == |msgs| && forall i :: 0 <= i < |msgs| ==> r[i] == MsgRow(msgs[i])
  {
    seq(|msgs|, i requires 0 <= i < |msgs| => MsgRow(msgs[i]))
  }

  function HeaderBytes(nsets: nat, nmsgs: nat, nstrings: nat): (b: Bytes)
    requires nsets <= MAX_SETS && nmsgs <= MAX_MSGS && nstrings <= MAX_STRINGS
    ensures |b| == HEADER
  {
    Be32(MAGIC) + Be32(nsets) + Be32(12 * nsets + 12 * nmsgs + nstrings) + Be32(12 * nsets)
    + Be32(12 * nsets + 12 * nmsgs)
  }

  /** The whole file, as the layout comment describes it. */
  ghost function Image(sets: seq<int>, msgs: seq<Msg>, strings: Bytes): (b: Bytes)
    requires Emittable(sets, msgs, strings)
    ensures |b| == HEADER + 12 * |sets| + 12 * |msgs| + |strings|
  {
    HeaderBytes(|sets|, |msgs|, |strings|) + TableBytes(SetRows(sets, msgs)) + TableBytes(MsgRows(msgs)) + strings
  }

  /** The rows of a set table at the head of the file, word by word. */
  ghost predicate SetsEncoded(img: Bytes, rows: seq<SetEntry>)
  {
    && HEADER + 12 * |rows| <= |img|
    && forall k :: 0 <= k < |rows| ==>
         && Word(img, HEADER + 12 * k) == Unsigned(rows[k].setId)
         && Word(img, HEADER + 12 * k + 4) == rows[k].count && Word(img, HEADER + 12 * k + 8) == rows[k].first
  }

  ghost predicate MsgsEncoded(img: Bytes, m: nat, msgs: seq<Msg>)
  {
    && m + 12 * |msgs| <= |img|
    && forall j :: 0 <= j < |msgs| ==>
         && Word(img, m + 12 * j) == msgs[j].msgId
         && Word(img, m + 12 * j + 4) == msgs[j].len && Word(img, m + 12 * j + 8) == msgs[j].off
  }

  /** What a reader sees in the file. */
  ghost predicate Encodes(img: Bytes, rows: seq<SetEntry>, msgs: seq<Msg>, strings: Bytes)
  {
    var m, s := HEADER + 12 * |rows|, HEADER + 12 * |rows| + 12 * |msgs|;
    && |img| == s + |strings|
    && Word(img, 4) == |rows| && HEADER + Word(img, 12) == m && HEADER + Word(img, 16) == s
    && SetsEncoded(img, rows) && MsgsEncoded(img, m, msgs)
    && img[s..] == strings
  }

  lemma {:induction false} HeaderWords(img: Bytes, a: u32, b: u32, c: u32, d: u32, e: u32)
    requires Be32(a) + Be32(b) + Be32(c) + Be32(d) + Be32(e) <= img
    ensures Word(img, 4) == b && Word(img, 12) == d && Word(img, 16) == e
  {
    var h := Be32(a) + Be32(b) + Be32(c) + Be32(d) + Be32(e);
    assert img[4..8] == h[4..8] == Be32(b);
    assert img[12..16] == h[12..16] == Be32(d);
    assert img[16..20] == h[16..20] == Be32(e);
    Be32RoundTrip(b);
    Be32RoundTrip(d);
    Be32RoundTrip(e);
  }

  lemma {:induction false} SetRowsEncoded(img: Bytes, sets: seq<int>, msgs: seq<Msg>)
    requires |msgs| <= MAX_MSGS && forall i :: 0 <= i < |sets| ==> IsInt(sets[i])
    requires HEADER + 12 * |sets| <= |img|
    requires img[HEADER..HEADER + 12 * |sets|] == TableBytes(SetRows(sets, msgs))
    ensures SetsEncoded(img, SetTable(sets, msgs, 0))
  {
    hide TableBytes, Word, SetRows, SetTable;
    var rows := SetTable(sets, msgs, 0);
    forall k | 0 <= k < |rows|
      ensures Storable(rows[k]) && RowAt(img, HEADER + 12 * k, SetRow(rows[k]))
    {
      assert SetRows(sets, msgs)[k] == SetRow(rows[k]);
      TableRows(img, HEADER, SetRows(sets, msgs), k);
    }
  }

  lemma {:induction false} MsgRowsEncoded(img: Bytes, m: nat, msgs: seq<Msg>)
    requires forall i :: 0 <= i < |msgs| ==> msgs[i].msgId <= LONG_MAX && msgs[i].off + msgs[i].len <= MAX_STRINGS
    requires m + 12 * |msgs| <= |img| && img[m..m + 12 * |msgs|] == TableBytes(MsgRows(msgs))
    ensures MsgsEncoded(img, m, msgs)
  {
    hide TableBytes, Word;
    forall j | 0 <= j < |msgs|
      ensures RowAt(img, m + 12 * j, MsgRow(msgs[j]))
    {
      TableRows(img, m, MsgRows(msgs), j);
    }
  }

  lemma {:induction false} HeaderEncoded(img: Bytes, nsets: nat, nmsgs: nat, nstrings: nat)
    requires nsets <= MAX_SETS && nmsgs <= MAX_MSGS && nstrings <= MAX_STRINGS
    requires HeaderBytes(nsets, nmsgs, nstrings) <= img
    ensures Word(img, 4) == nsets && Word(img, 12) == 12 * nsets && Word(img, 16) == 12 * nsets + 12 * nmsgs
  {
    hide Word, Be32;
    HeaderWords(img, MAGIC, nsets, 12 * nsets + 12 * nmsgs + nstrings, 12 * nsets, 12 * nsets + 12 * nmsgs);
  }

  lemma {:induction false} ImageEncodes(sets: seq<int>, msgs: seq<Msg>, strings: Bytes)
    requires Emittable(sets, msgs, strings)
    ensures Encodes(Image(sets, msgs, strings), SetTable(sets, msgs, 0), msgs, strings)
  {
    hide HeaderBytes, TableBytes, Word, SetsEncoded, MsgsEncoded, SetTable, SetRows, MsgRows;
    var img := Image(sets, msgs, strings);
    var h, st, mt := HeaderBytes(|sets|, |msgs|, |strings|), TableBytes(SetRows(sets, msgs)), TableBytes(MsgRows(msgs));
    Parts(h, st, mt, strings);
    HeaderEncoded(img, |sets|, |msgs|, |strings|);
    SetRowsEncoded(img, sets, msgs);
    MsgRowsEncoded(img, HEADER + 12 * |sets|, msgs);
  }

  /** Where each part of a concatenation lies. */
  lemma {:induction false} Parts(h: Bytes, a: Bytes, b: Bytes, c: Bytes)
    ensures var img := h + a + b + c;
            && h <= img && img[|h|..|h| + |a|] == a
            && img[|h| + |a|..|h| + |a| + |b|] == b && img[|h| + |a| + |b|..] == c
  {
  }

  // ---- the emitter -------------------------------------------------------

  /** put32be at a moving pointer: the bytes before it are untouched. */
  method Put32be(buf: array<byte>, p: nat, v: u32)
    requires p + 4 <= buf.Length
    modifies buf
    ensures buf[..p + 4] == old(buf[..p]) + Be32(v)
  {
    buf[p] := v / 16777216;
    buf[p + 1] := v / 65536 % 256;
    buf[p + 2] := v / 256 % 256;
    buf[p + 3] := v % 256;
  }

  method PutRow(buf: array<byte>, p: nat, r: Row)
    requires p + 12 <= buf.Length
    modifies buf
    ensures buf[..p + 12] == old(buf[..p]) + RowBytes(r)
  {
    hide Be32;
    Put32be(buf, p, r.a);
    Put32be(buf, p + 4, r.b);
    Put32be(buf, p + 8, r.c);
  }

  method PutHeader(buf: array<byte>, nsets: nat, nmsgs: nat, nstrings: nat)
    requires nsets <= MAX_SETS && nmsgs <= MAX_MSGS && nstrings <= MAX_STRINGS && HEADER <= buf.Length
    modifies buf
    ensures buf[..HEADER] == HeaderBytes(nsets, nmsgs, nstrings)
  {
    hide Be32;
    Put32be(buf, 0, MAGIC);
    Put32be(buf, 4, nsets);
    Put32be(buf, 8, 12 * nsets + 12 * nmsgs + nstrings);
    Put32be(buf, 12, 12 * nsets);
    Put32be(buf, 16, 12 * nsets + 12 * nmsgs);
  }

  lemma {:induction false} TableAppend(rows: seq<Row>, r: Row)
    ensures TableBytes(rows + [r]) == TableBytes(rows) + RowBytes(r)
  {
  }

  /** Row `i` of a table whose first `i` rows are already behind the pointer. */
  method PutNextRow(buf: array<byte>, p: nat, r: Row, ghost head: Bytes, ghost rows: seq<Row>, ghost i: nat)
    requires i < |rows| && r == rows[i] && p + 12 <= buf.Length
    requires buf[..p] == head + TableBytes(rows[..i])
    modifies buf
    ensures buf[..p + 12] == head + TableBytes(rows[..i + 1])
  {
    hide RowBytes, TableBytes;
    TableAppend(rows[..i], r);
    assert rows[..i] + [r] == rows[..i + 1];
    Assoc(head, TableBytes(rows[..i]), RowBytes(r));
    PutRow(buf, p, r);
  }

  /** The inner while loop: skip the run of one set. */
  method SkipRun(msgs: seq<Msg>, from: nat, setId: int) returns (idx: nat, count: nat)
    requires from <= |msgs|
    ensures count == RunLength(msgs, from, setId) && idx == from + count
  {
    idx, count := from, 0;
    while idx < |msgs| && msgs[idx].setId == setId
      invariant from <= idx <= |msgs| && idx == from + count
      invariant RunLength(msgs, from, setId) == count + RunLength(msgs, idx, setId)
    {
      idx := idx + 1;
      count := count + 1;
    }
  }

  /** The row of set `i` runs from its cursor. */
  lemma {:induction false} SetRowAt(sets: seq<int>, msgs: seq<Msg>, i: nat)
    requires |msgs| <= MAX_MSGS && (forall i :: 0 <= i < |sets| ==> IsInt(sets[i])) && i < |sets|
    ensures SetTable(sets, msgs, 0)[i].first <= |msgs|
    ensures var t, n := SetTable(sets, msgs, 0), RunLength(msgs, SetTable(sets, msgs, 0)[i].first, sets[i]);
            && t[i].first + n <= |msgs| && SetRows(sets, msgs)[i] == Row(Unsigned(sets[i]), n, t[i].first)
            && (i == 0 ==> t[i].first == 0) && (i + 1 < |sets| ==> t[i + 1].first == t[i].first + n)
  {
    SetEntryAt(sets, msgs, 0, i);
    hide SetTable, RunLength;
    assert SetRows(sets, msgs)[i] == SetRow(SetTable(sets, msgs, 0)[i]);
  }

  /** One turn of the sets loop: the row of set `i`, and the cursor behind its run. */
  method PutSet(buf: array<byte>, sp: nat, sets: seq<int>, msgs: seq<Msg>, i: nat, msgIdx: nat, ghost head: Bytes)
    returns (idx: nat)
    requires |msgs| <= MAX_MSGS && (forall i :: 0 <= i < |sets| ==> IsInt(sets[i])) && i < |sets|
    requires sp + 12 <= buf.Length && buf[..sp] == head + TableBytes(SetRows(sets, msgs)[..i])
    requires msgIdx == SetTable(sets, msgs, 0)[i].first
    modifies buf
    ensures buf[..sp + 12] == head + TableBytes(SetRows(sets, msgs)[..i + 1])
    ensures idx <= |msgs| && (i + 1 < |sets| ==> idx == SetTable(sets, msgs, 0)[i + 1].first)
  {
    SetRowAt(sets, msgs, i);
    hide RowBytes, TableBytes, SetRows, SetTable, RunLength, SetRow, Storable, Unsigned, IsInt;
    var count;
    idx, count := SkipRun(msgs, msgIdx, sets[i]);
    PutNextRow(buf, sp, Row(Unsigned(sets[i]), count, msgIdx), head, SetRows(sets, msgs), i);
  }

  /** The sets loop: one forward cursor over the messages, one row per set. */
  method PutSets(buf: array<byte>, sets: seq<int>, msgs: seq<Msg>)
    requires |sets| <= MAX_SETS && |msgs| <= MAX_MSGS && forall i :: 0 <= i < |sets| ==> IsInt(sets[i])
    requires HEADER + 12 * |sets| <= buf.Length
    modifies buf
    ensures buf[..HEADER + 12 * |sets|] == old(buf[..HEADER]) + TableBytes(SetRows(sets, msgs))
  {
    ghost var head, all := buf[..HEADER], SetRows(sets, msgs);
    assert head + TableBytes([]) == head;
    if sets != [] {
      SetRowAt(sets, msgs, 0);
    }
    hide TableBytes, SetRows, SetTable, IsInt;
    var sp, msgIdx: nat := HEADER, 0;
    var i := 0;
    while i < |sets|
      invariant 0 <= i <= |sets| && msgIdx <= |msgs| && sp == HEADER + 12 * i
      invariant i < |sets| ==> msgIdx == SetTable(sets, msgs, 0)[i].first
      invariant buf[..sp] == head + TableBytes(all[..i])
    {
      msgIdx := PutSet(buf, sp, sets, msgs, i, msgIdx, head);
      sp := sp + 12;
      i := i + 1;
    }
    assert all[..|sets|] == all;
  }

  method PutMsgs(buf: array<byte>, base: nat, msgs: seq<Msg>)
    requires |msgs| <= MAX_MSGS
    requires forall i :: 0 <= i < |msgs| ==> msgs[i].msgId <= LONG_MAX && msgs[i].off + msgs[i].len <= MAX_STRINGS
    requires base + 12 * |msgs| <= buf.Length
    modifies buf
    ensures buf[..base + 12 * |msgs|] == old(buf[..base]) + TableBytes(MsgRows(msgs))
  {
    var i := 0;
    ghost var head, rows := buf[..base], MsgRows(msgs);
    assert head + TableBytes([]) == head;
    hide RowBytes, TableBytes;
    var mp := base;
    while i < |msgs|
      invariant 0 <= i <= |msgs| && mp == base + 12 * i
      invariant buf[..mp] == head + TableBytes(rows[..i])
    {
      PutNextRow(buf, mp, MsgRow(msgs[i]), head, rows, i);
      mp := mp + 12;
      i := i + 1;
    }
    assert rows[..|msgs|] == rows;
  }

  /** The emitting half of main. */
  method Build(sets: seq<int>, msgs: seq<Msg>, strings: Bytes) returns (buf: array<byte>)
    requires Emittable(sets, msgs, strings)
    ensures fresh(buf) && buf[..] == Image(sets, msgs, strings)
  {
    hide HeaderBytes, TableBytes, SetRows, MsgRows, IsInt;
    var setsSize, msgsSize := 12 * |sets|, 12 * |msgs|;
    buf := new byte[HEADER + setsSize + msgsSize + |strings|](_ => 0);
    PutHeader(buf, |sets|, |msgs|, |strings|);
    PutSets(buf, sets, msgs);
    PutMsgs(buf, HEADER + setsSize, msgs);
    PutStrings(buf, HEADER + setsSize + msgsSize, strings);
  }

  /** The memcpy of the string area, up to the end of the buffer. */
  method PutStrings(buf: array<byte>, base: nat, strings: Bytes)
    requires base + |strings| == buf.Length
    modifies buf
    ensures buf[..] == old(buf[..base]) + strings
  {
    forall i | 0 <= i < |strings| {
      buf[base + i] := strings[i];
    }
  }

  /** Words go highest byte first: the magic number, and -1 as it is stored. */
  lemma {:induction false} KnownWords()
    ensures Be32(MAGIC) == [0xff, 0x88, 0xff, 0x89] && Be32(258) == [0, 0, 1, 2]
    ensures Be32(Unsigned(-1)) == [0xff, 0xff, 0xff, 0xff]
  {
    assert Unsigned(-1) == 0xffff_ffff;
  }
}
