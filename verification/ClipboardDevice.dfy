/**
  /dev/kandelo/clipboard and the half of kclipd that reads it.

  The host may offer new text between any two of the agent's reads, and any read
  may be cut short or interrupted. The main result, `HandleOffer`, says that none of
  this shows: the agent takes nothing or one whole record, the record is an offer
  exactly as the host made it, and the stream is back on a record boundary.
 */
module ClipboardDevice {
  import opened Basics

  const RECORD_VERSION := 1
  const KIND_OFFER_TEXT := 1
  const KIND_GUEST_TEXT := 2
  const MAX_TEXT_BYTES := 1048576
  const HEADER_SIZE := 16
  const ACK_SIZE := 8
  const I32_MAX := 2147483647
  const ENXIO := 6
  const ENOMEM := 12
  const EINVAL := 22
  const EMSGSIZE := 90

  const ACK_PENDING := 1
  const ACK_UNKNOWN_SEQ := -2

  // ---- little-endian words and records -----------------------------------

  type u32 = v: int | 0 <= v < 0x1_0000_0000

  function Le32(v: u32): (b: Bytes)
    ensures |b| == 4
  {
    [v % 256, v / 256 % 256, v / 65536 % 256, v / 16777216]
  }

  function FromLe32(b: Bytes): u32
    requires |b| == 4
  {
    (b[0] as int) + 256 * (b[1] as int) + 65536 * (b[2] as int) + 16777216 * (b[3] as int)
  }

  lemma {:induction false} Le32RoundTrip(v: u32)
    ensures FromLe32(Le32(v)) == v
  {
    var a, b, c := v / 256, v / 65536, v / 16777216;
    assert v == 256 * a + v % 256;
    assert a == 256 * (a / 256) + a % 256 && a / 256 == b;
    assert b == 256 * (b / 256) + b % 256 && b / 256 == c;
  }

  function Header(kind: u32, seqno: u32, len: u32): (b: Bytes)
    ensures |b| == HEADER_SIZE
  {
    Le32(RECORD_VERSION) + Le32(kind) + Le32(seqno) + Le32(len)
  }

  function Word(b: Bytes, i: nat): u32
    requires 4 * i + 4 <= |b|
  {
    FromLe32(b[4 * i..4 * i + 4])
  }

  lemma {:induction false} HeaderWords(kind: u32, seqno: u32, len: u32, rest: Bytes)
    ensures var b := Header(kind, seqno, len) + rest;
            Word(b, 0) == RECORD_VERSION && Word(b, 1) == kind && Word(b, 2) == seqno && Word(b, 3) == len
  {
    var b := Header(kind, seqno, len) + rest;
    assert b[0..4] == Le32(RECORD_VERSION);
    assert b[4..8] == Le32(kind);
    assert b[8..12] == Le32(seqno);
    assert b[12..16] == Le32(len);
    Le32RoundTrip(RECORD_VERSION);
    Le32RoundTrip(kind);
    Le32RoundTrip(seqno);
    Le32RoundTrip(len);
  }

  /** The sequence number of the k-th offer: they stay positive as 32-bit signed integers. */
  function SeqOf(k: nat): (s: u32)
    ensures 1 <= s <= I32_MAX
  {
    k % I32_MAX + 1
  }

  type Text = t: Bytes | |t| <= MAX_TEXT_BYTES

  function OfferRecord(k: nat, text: Text): Bytes
  {
    Header(KIND_OFFER_TEXT, SeqOf(k), |text|) + text
  }

  // ---- the device --------------------------------------------------------

  datatype Outcome = Pending | Acked(status: int)
  datatype Offer = Offer(seqno: u32, text: Text)
  datatype Reading = Reading(record: Bytes, cursor: nat)
  datatype Ack = Ack(seqno: u32, status: int)
  datatype ReadResult = Data(bytes: Bytes) | Again
  datatype OfferResult = Accepted(seqno: u32) | Refused(errno: int)

  /** What happens around one read(): host offers first, then the read itself. */
  datatype Turn = Turn(offers: seq<Text>, interrupted: bool, limit: nat)

  datatype Exact = Whole(data: Bytes) | NothingThere

  datatype Handled = Nothing | Installed | OutOfMemory | Failed

  datatype Begun = Idle | Unsupported | Begun(seqno: u32, len: u32)

  /** The record in progress `pos` bytes in: its end is a record boundary. */
  function Rest(record: Bytes, pos: nat): Option<Reading>
  {
    if pos == |record| then None else Some(Reading(record, pos))
  }

  class Device {
    var pending: Option<Offer>
    var reading: Option<Reading>
    var latestSeq: nat
    var latest: Outcome

    // History: every offer made, the offers the agent took, its acknowledgements.
    ghost var offers: seq<Text>
    ghost var taken: seq<nat>
    ghost var acks: seq<Ack>
    ghost var record: Bytes  // the record of the offer taken last

    ghost predicate Valid()
      reads this
    {
      && latestSeq == (if offers == [] then 0 else SeqOf(|offers| - 1))
      && (forall i :: 0 <= i < |taken| ==> taken[i] < |offers|)
      && (forall i, j :: 0 <= i < j < |taken| ==> taken[i] < taken[j])
      && (pending.Some? <==> Unread())
      && (pending.Some? ==> pending.value == Offer(SeqOf(|offers| - 1), offers[|offers| - 1]))
      && (reading.Some? ==>
            taken != [] && reading.value.record == record && reading.value.cursor < |record|)
    }

    /** The newest offer has not been taken. */
    ghost predicate Unread()
      reads this
      requires forall i :: 0 <= i < |taken| ==> taken[i] < |offers|
    {
      offers != [] && (taken == [] || taken[|taken| - 1] < |offers| - 1)
    }

    /** On a record boundary, with one acknowledgement per record taken, in order. */
    ghost predicate Settled()
      reads this
    {
      && Valid() && reading.None?
      && |acks| == |taken|
      && (forall i :: 0 <= i < |taken| ==> acks[i].seqno == SeqOf(taken[i]))
    }

    constructor ()
      ensures Settled() && offers == [] && taken == []
    {
      pending, reading, latestSeq, latest := None, None, 0, Pending;
      offers, taken, acks, record := [], [], [], [];
    }

    /**
      offer: the newest text replaces an unread one; a record being read is left alone.
      `agent` tells whether an agent holds the device, `utf8` whether the text is UTF-8.
     */
    method OfferText(text: Bytes, agent: bool, utf8: bool) returns (r: OfferResult)
      requires Valid()
      modifies `pending, `latestSeq, `latest, `offers
      ensures Valid() && reading == old(reading)
      ensures r.Refused? <==> !agent || |text| > MAX_TEXT_BYTES || !utf8
      ensures r.Refused? ==> r.errno == if !agent then ENXIO else if |text| > MAX_TEXT_BYTES then EMSGSIZE else EINVAL
      ensures r.Refused? ==> unchanged(this)
      ensures r.Accepted? ==> offers == old(offers) + [text] && r.seqno == SeqOf(|offers| - 1)
      ensures r.Accepted? ==> latest == Pending && Unread()
    {
      if !agent {
        return Refused(ENXIO);
      }
      if |text| > MAX_TEXT_BYTES {
        return Refused(EMSGSIZE);
      }
      if !utf8 {
        return Refused(EINVAL);
      }
      var seqno := if latestSeq >= I32_MAX then 1 else latestSeq + 1;
      latestSeq := seqno;
      latest := Pending;
      pending := Some(Offer(seqno, text));
      offers := offers + [text];
      r := Accepted(seqno);
    }

    /** read_into: never bytes from two records, and EAGAIN only between records. */
    method ReadInto(want: nat) returns (r: ReadResult)
      requires Valid()
      modifies `pending, `reading, `taken, `record
      ensures Valid() && (r.Again? <==> old(reading.None? && !Unread()))
      ensures r.Again? ==> reading.None? && taken == old(taken) && !Unread()
      ensures old(reading).Some? ==> taken == old(taken) && record == old(record)
      ensures r.Data? && old(reading).None? ==>
                && offers != [] && taken == old(taken) + [|offers| - 1]
                && record == OfferRecord(|offers| - 1, offers[|offers| - 1])
      ensures r.Data? ==>
                && var from := if old(reading).Some? then old(reading).value.cursor else 0;
                && |r.bytes| <= want && (want > 0 ==> |r.bytes| > 0) && from + |r.bytes| <= |record|
                && r.bytes == record[from..from + |r.bytes|]
                && reading == Rest(record, from + |r.bytes|)
    {
      if reading.None? {
        if pending.None? {
          return Again;
        }
        var o := pending.value;
        reading := Some(Reading(Header(KIND_OFFER_TEXT, o.seqno, |o.text|) + o.text, 0));
        pending := None;
        taken := taken + [|offers| - 1];
        record := reading.value.record;
      }
      var Reading(rec, cursor) := reading.value;
      var n := if want < |rec| - cursor then want else |rec| - cursor;
      r := Data(rec[cursor..cursor + n]);
      reading := Rest(rec, cursor + n);
    }

    /** write_ack: only the newest offer's first answer is kept; a positive status is refused. */
    method WriteAck(seqno: u32, status: int) returns (ok: bool)
      requires Valid()
      modifies `latest, `acks
      ensures ok <==> status <= 0
      ensures acks == if ok then old(acks) + [Ack(seqno, status)] else old(acks)
      ensures latest == if ok && seqno != 0 && seqno == latestSeq && old(latest) == Pending then Acked(status)
                        else old(latest)
    {
      if status > 0 {
        return false;
      }
      if seqno != 0 && seqno == latestSeq && latest == Pending {
        latest := Acked(status);
      }
      acks := acks + [Ack(seqno, status)];
      ok := true;
    }
  }

  // ---- kclipd's reader ---------------------------------------------------

  /** The host's offers of one turn. */
  method HostTurn(dev: Device, texts: seq<Text>)
    requires dev.Valid()
    modifies dev`pending, dev`latestSeq, dev`latest, dev`offers
    ensures dev.Valid() && dev.offers == old(dev.offers) + texts
    ensures dev.reading == old(dev.reading)
  {
    var i := 0;
    while i < |texts|
      invariant 0 <= i <= |texts| && dev.Valid()
      invariant dev.offers == old(dev.offers) + texts[..i]
      invariant dev.reading == old(dev.reading)
    {
      var _ := dev.OfferText(texts[i], true, true);
      i := i + 1;
    }
  }

  /** One read() inside a record, after the host's turn: the next bytes of that record, or EINTR. */
  method ReadMore(dev: Device, turn: Turn, want: nat) returns (bytes: Bytes)
    requires dev.Valid() && dev.reading.Some? && want > 0
    modifies dev`pending, dev`reading, dev`latestSeq, dev`latest, dev`offers, dev`taken, dev`record
    ensures dev.Valid() && old(dev.offers) <= dev.offers && dev.taken == old(dev.taken) && dev.record == old(dev.record)
    ensures var from := old(dev.reading).value.cursor;
            && |bytes| <= want && from + |bytes| <= |dev.record|
            && (bytes == [] <==> turn.interrupted)
            && bytes == dev.record[from..from + |bytes|]
            && dev.reading == Rest(dev.record, from + |bytes|)
  {
    HostTurn(dev, turn.offers);
    if turn.interrupted {
      return [];
    }
    var r := dev.ReadInto(if 0 < turn.limit < want then turn.limit else want);
    bytes := r.bytes;
  }

  lemma {:induction false} RecordHeld(dev: Device)
    requires dev.Valid() && dev.reading.Some?
    ensures dev.reading == Rest(dev.record, dev.reading.value.cursor)
  {
  }

  /**
    read_exact inside a record: whatever the host offers meanwhile, and however
    the reads are cut, it returns exactly the next `len` bytes of that record.
   */
  method ReadRest(dev: Device, turns: seq<Turn>, len: nat) returns (data: Bytes, rest: seq<Turn>)
    requires dev.Valid() && dev.reading.Some?
    requires dev.reading.value.cursor + len <= |dev.record|
    modifies dev`pending, dev`reading, dev`latestSeq, dev`latest, dev`offers, dev`taken, dev`record
    ensures dev.Valid() && old(dev.offers) <= dev.offers && dev.taken == old(dev.taken) && dev.record == old(dev.record)
    ensures var from := old(dev.reading).value.cursor;
            data == dev.record[from..from + len] && dev.reading == Rest(dev.record, from + len)
  {
    data, rest := [], turns;
    ghost var from, record := dev.reading.value.cursor, dev.record;
    RecordHeld(dev);
    hide Device.Valid;
    while |data| < len
      invariant dev.Valid() && old(dev.offers) <= dev.offers && dev.taken == old(dev.taken) && dev.record == record
      invariant |data| <= len && data == record[from..from + |data|]
      invariant dev.reading == Rest(record, from + |data|)
      decreases |rest|, len - |data|
    {
      var turn := if rest == [] then Turn([], false, 0) else rest[0];
      rest := if rest == [] then [] else rest[1..];
      var bytes := ReadMore(dev, turn, len - |data|);
      SliceJoin(record, from, from + |data|, from + |data| + |bytes|);
      data := data + bytes;
    }
  }

  /** One read() on a record boundary, after the host's turn: nothing, or the newest offer begins. */
  method ReadFirst(dev: Device, turn: Turn) returns (r: ReadResult)
    requires dev.Valid() && dev.reading.None?
    modifies dev`pending, dev`reading, dev`latestSeq, dev`latest, dev`offers, dev`taken, dev`record
    ensures dev.Valid() && old(dev.offers) <= dev.offers
    ensures r.Again? ==> dev.reading.None? && dev.taken == old(dev.taken) && !dev.Unread()
    ensures r.Data? ==>
              && dev.offers != [] && dev.taken == old(dev.taken) + [|dev.offers| - 1]
              && dev.record == OfferRecord(|dev.offers| - 1, dev.offers[|dev.offers| - 1])
              && 0 < |r.bytes| <= HEADER_SIZE && r.bytes == dev.record[..|r.bytes|]
              && dev.reading == Rest(dev.record, |r.bytes|)
  {
    HostTurn(dev, turn.offers);
    r := dev.ReadInto(if 0 < turn.limit < HEADER_SIZE then turn.limit else HEADER_SIZE);
  }

  /** The interruptions before the first bytes of a record. */
  method SkipInterrupts(dev: Device, turns: seq<Turn>) returns (turn: Turn, rest: seq<Turn>)
    requires dev.Valid() && dev.reading.None?
    modifies dev`pending, dev`latestSeq, dev`latest, dev`offers
    ensures dev.Valid() && old(dev.offers) <= dev.offers && dev.reading.None?
  {
    rest := turns;
    while rest != [] && rest[0].interrupted
      invariant dev.Valid() && old(dev.offers) <= dev.offers && dev.reading.None?
    {
      HostTurn(dev, rest[0].offers);
      rest := rest[1..];
    }
    turn := if rest == [] then Turn([], false, 0) else rest[0];
    rest := if rest == [] then [] else rest[1..];
  }

  /**
    read_exact of a header on a record boundary: nothing is there, or one offer
    has been taken and its header read, payload next.
   */
  method ReadHeader(dev: Device, turns: seq<Turn>) returns (r: Exact, rest: seq<Turn>)
    requires dev.Valid() && dev.reading.None?
    modifies dev`pending, dev`reading, dev`latestSeq, dev`latest, dev`offers, dev`taken, dev`record
    ensures dev.Valid() && old(dev.offers) <= dev.offers
    ensures r.NothingThere? ==> dev.reading.None? && dev.taken == old(dev.taken) && !dev.Unread()
    ensures r.Whole? ==> exists k: nat :: Taken(dev, old(dev.taken), old(|dev.offers|), k)
    ensures r.Whole? ==>
              && HEADER_SIZE <= |dev.record| && r.data == dev.record[..HEADER_SIZE]
              && dev.reading == Rest(dev.record, HEADER_SIZE)
  {
    var turn;
    turn, rest := SkipInterrupts(dev, turns);
    var first := ReadFirst(dev, turn);
    if first.Again? {
      return NothingThere, rest;
    }
    ghost var k := |dev.offers| - 1;
    assert Taken(dev, old(dev.taken), old(|dev.offers|), k);
    var data := first.bytes;
    if |data| < HEADER_SIZE {
      var more;
      more, rest := ReadRest(dev, rest, HEADER_SIZE - |data|);
      SliceJoin(dev.record, 0, |data|, HEADER_SIZE);
      data := data + more;
      assert Taken(dev, old(dev.taken), old(|dev.offers|), k);
    }
    r := Whole(data);
  }

  /** Offer `k`, no older than the newest at the start, has just been taken. */
  ghost predicate Taken(dev: Device, before: seq<nat>, offered: nat, k: nat)
    reads dev
  {
    && dev.taken == before + [k]
    && offered <= k + 1 <= |dev.offers|
    && dev.record == OfferRecord(k, dev.offers[k])
  }

  /** The payload of a record whose header was just read. */
  method ReadPayload(dev: Device, turns: seq<Turn>, len: nat) returns (text: Bytes, rest: seq<Turn>)
    requires dev.Valid() && HEADER_SIZE + len == |dev.record| && dev.reading == Rest(dev.record, HEADER_SIZE)
    modifies dev`pending, dev`reading, dev`latestSeq, dev`latest, dev`offers, dev`taken, dev`record
    ensures dev.Valid() && old(dev.offers) <= dev.offers && dev.taken == old(dev.taken) && dev.record == old(dev.record)
    ensures dev.reading.None? && text == dev.record[HEADER_SIZE..]
  {
    text, rest := [], turns;
    if len > 0 {
      text, rest := ReadRest(dev, turns, len);
    }
  }

  /** The out-of-memory path: drain the payload through a 4096-byte sink. */
  method DrainPayload(dev: Device, turns: seq<Turn>, len: nat) returns (rest: seq<Turn>)
    requires dev.Valid() && HEADER_SIZE + len == |dev.record| && dev.reading == Rest(dev.record, HEADER_SIZE)
    modifies dev`pending, dev`reading, dev`latestSeq, dev`latest, dev`offers, dev`taken, dev`record
    ensures dev.Valid() && old(dev.offers) <= dev.offers && dev.taken == old(dev.taken) && dev.record == old(dev.record)
    ensures dev.reading.None?
  {
    var left := len;
    rest := turns;
    while left > 0
      invariant dev.Valid() && old(dev.offers) <= dev.offers && dev.taken == old(dev.taken) && dev.record == old(dev.record)
      invariant 0 <= left <= len && dev.reading == Rest(dev.record, |dev.record| - left)
    {
      var n := if left < 4096 then left else 4096;
      var _, more := ReadRest(dev, rest, n);
      rest := more;
      left := left - n;
    }
  }

  method Acknowledge(dev: Device, ghost k: nat, seqno: u32, status: int)
    requires dev.Valid() && dev.reading.None? && dev.taken != [] && k == dev.taken[|dev.taken| - 1]
    requires |dev.acks| + 1 == |dev.taken| && seqno == SeqOf(k) && status <= 0
    requires forall i :: 0 <= i < |dev.acks| ==> dev.acks[i].seqno == SeqOf(dev.taken[i])
    modifies dev`latest, dev`acks
    ensures dev.Settled() && dev.acks == old(dev.acks) + [Ack(seqno, status)]
  {
    var _ := dev.WriteAck(seqno, status);
  }

  /** The head of handle_offer: read a header and check it. No header is ever refused. */
  method BeginOffer(dev: Device, turns: seq<Turn>) returns (b: Begun, rest: seq<Turn>, ghost k: nat)
    requires dev.Valid() && dev.reading.None?
    modifies dev`pending, dev`reading, dev`latestSeq, dev`latest, dev`offers, dev`taken, dev`record
    ensures dev.Valid() && old(dev.offers) <= dev.offers
    ensures b.Idle? || b.Begun?
    ensures b.Idle? ==> dev.reading.None? && dev.taken == old(dev.taken) && !dev.Unread()
    ensures b.Begun? ==>
              && dev.taken == old(dev.taken) + [k] && old(|dev.offers|) <= k + 1 <= |dev.offers|
              && HEADER_SIZE <= |dev.record| && dev.record[HEADER_SIZE..] == dev.offers[k]
              && b.seqno == SeqOf(k) && b.len == |dev.offers[k]|
              && dev.reading == Rest(dev.record, HEADER_SIZE)
  {
    var header;
    k := 0;
    header, rest := ReadHeader(dev, turns);
    if header.NothingThere? {
      return Idle, rest, k;
    }
    k :| Taken(dev, old(dev.taken), old(|dev.offers|), k);
    HeaderOf(k, dev.offers[k]);
    var data := header.data;
    if Word(data, 0) != RECORD_VERSION || Word(data, 1) != KIND_OFFER_TEXT || Word(data, 3) > MAX_TEXT_BYTES {
      return Unsupported, rest, k;
    }
    b := Begun(Word(data, 2), Word(data, 3));
  }

  lemma {:induction false} HeaderOf(k: nat, text: Text)
    ensures var record := OfferRecord(k, text);
            && |record| == HEADER_SIZE + |text| && record[HEADER_SIZE..] == text
            && var h := record[..HEADER_SIZE];
            && Word(h, 0) == RECORD_VERSION && Word(h, 1) == KIND_OFFER_TEXT
            && Word(h, 2) == SeqOf(k) && Word(h, 3) == |text|
  {
    var h := Header(KIND_OFFER_TEXT, SeqOf(k), |text|);
    assert OfferRecord(k, text)[..HEADER_SIZE] == h == h + [];
    HeaderWords(KIND_OFFER_TEXT, SeqOf(k), |text|, []);
  }

  /** The rest of handle_offer: the payload of the record in hand, and its answer. */
  method FinishOffer(dev: Device, turns: seq<Turn>, seqno: u32, len: nat, textMemory: bool, sourceMemory: bool,
                     connected: bool, during: seq<Text>, ghost k: nat)
    returns (r: Handled, text: Bytes)
    requires dev.Valid() && HEADER_SIZE + len == |dev.record| && dev.reading == Rest(dev.record, HEADER_SIZE)
    requires dev.taken != [] && k == dev.taken[|dev.taken| - 1] && |dev.acks| + 1 == |dev.taken| && seqno == SeqOf(k)
    requires forall i :: 0 <= i < |dev.acks| ==> dev.acks[i].seqno == SeqOf(dev.taken[i])
    modifies dev
    ensures dev.Valid() && old(dev.offers) <= dev.offers && dev.taken == old(dev.taken) && dev.reading.None?
    ensures r == if !textMemory || !sourceMemory then OutOfMemory else if connected then Installed else Failed
    ensures r.Installed? || r.OutOfMemory? ==>
              dev.Settled() && dev.acks == old(dev.acks) + [Ack(seqno, if r.Installed? then 0 else -ENOMEM)]
    ensures r.Failed? ==> dev.acks == old(dev.acks)
    ensures r.Installed? || r.Failed? ==> text == old(dev.record)[HEADER_SIZE..]
  {
    text := [];
    var rest;
    if !textMemory {
      rest := DrainPayload(dev, turns, len);
      Acknowledge(dev, k, seqno, -ENOMEM);
      return OutOfMemory, text;
    }
    text, rest := ReadPayload(dev, turns, len);
    if !sourceMemory {
      Acknowledge(dev, k, seqno, -ENOMEM);
      return OutOfMemory, text;
    }
    HostTurn(dev, during);
    if !connected {
      return Failed, text;
    }
    Acknowledge(dev, k, seqno, 0);
    r := Installed;
  }

  /**
    handle_offer. `textMemory`, `sourceMemory` and `connected` are the answers of
    malloc, calloc and the compositor roundtrip; `turns` and `during` carry the
    host's interleaved offers. An offer that waits is taken, and the answers alone
    decide what becomes of it. Status 0 goes out only behind a finished roundtrip, and
    nothing at all when the connection is lost: the framing never breaks.
   */
  method HandleOffer(dev: Device, turns: seq<Turn>, textMemory: bool, sourceMemory: bool, connected: bool,
                     during: seq<Text>)
    returns (r: Handled, text: Bytes, ghost k: nat)
    requires dev.Settled()
    modifies dev
    ensures old(dev.offers) <= dev.offers && dev.Valid()
    ensures r.Nothing? ==> dev.Settled() && dev.taken == old(dev.taken) && dev.acks == old(dev.acks) && !dev.Unread()
    ensures old(dev.Unread()) ==> !r.Nothing?
    ensures !r.Nothing? ==>
              && r == (if !textMemory || !sourceMemory then OutOfMemory else if connected then Installed else Failed)
              && dev.reading.None? && dev.taken == old(dev.taken) + [k] && old(|dev.offers|) <= k + 1 <= |dev.offers|
    ensures r.Installed? || r.OutOfMemory? ==>
              dev.Settled() && dev.acks == old(dev.acks) + [Ack(SeqOf(k), if r.Installed? then 0 else -ENOMEM)]
    ensures r.Failed? ==> dev.acks == old(dev.acks)
    ensures r.Installed? || r.Failed? ==> text == dev.offers[k]
  {
    var b, rest;
    text := [];
    b, rest, k := BeginOffer(dev, turns);
    if b.Idle? {
      return Nothing, text, k;
    }
    r, text := FinishOffer(dev, rest, b.seqno, b.len, textMemory, sourceMemory, connected, during, k);
  }

  /** Words go lowest byte first: the header of a five-byte text with sequence number 258. */
  lemma {:induction false} KnownHeader()
    ensures Header(KIND_OFFER_TEXT, 258, 5) == [1, 0, 0, 0] + [1, 0, 0, 0] + [2, 1, 0, 0] + [5, 0, 0, 0]
  {
    assert Le32(1) == [1, 0, 0, 0] && Le32(258) == [2, 1, 0, 0] && Le32(5) == [5, 0, 0, 0];
  }
}
