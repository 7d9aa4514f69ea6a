/**
  Copy-out: a foreign selection read through a pipe and reported to the host.

  The source's client writes into the pipe and closes it in its own time, and the
  agent reads in pieces of any size. Over every run a report is the whole content of one
  closed pipe, never a mixture or a text over the cap, and each pipe is reported at most
  once. `EveryPipeAccounted` adds which ones are: every pipe is reported, still being
  read, or lost, for one of four causes. What the pipes hold is the subject of
  ForeignCopies.
 */
module CopyOut {
  import opened Basics
  import Dev = ClipboardDevice

  const CHUNK := 16384

  /** A pipe: what was written, how much was read, and whether its write end is closed. */
  datatype Pipe = Pipe(data: Bytes, pos: nat, closed: bool)

  /** One answer of read(), with the fate of the realloc that follows it. */
  datatype ReadAnswer = Ready(n: nat, grows: bool) | Interrupted | WouldBlock | Failed

  datatype Drained =
    | Waiting(pipe: Pipe, buf: Bytes)
    | Complete(text: Bytes)
    | Abandoned

  /** How many bytes a ready read() returns. */
  function Count(pipe: Pipe, n: nat): (m: nat)
    requires pipe.pos <= |pipe.data|
    ensures m <= CHUNK && pipe.pos + m <= |pipe.data|
    ensures m == 0 <==> pipe.pos == |pipe.data|
  {
    var left := |pipe.data| - pipe.pos;
    var want := if n == 0 || n > CHUNK then CHUNK else n;
    if left < want then left else want
  }

  /** The effect of reader_pump's loop; a finished script blocks. */
  function Drain(pipe: Pipe, buf: Bytes, script: seq<ReadAnswer>): Drained
    requires pipe.pos <= |pipe.data|
    decreases |script|
  {
    if script == [] then Waiting(pipe, buf)
    else match script[0]
      case Interrupted => Drain(pipe, buf, script[1..])
      case WouldBlock => Waiting(pipe, buf)
      case Failed => Abandoned
      case Ready(n, grows) =>
        var m := Count(pipe, n);
        if m == 0 then (if pipe.closed then Complete(buf) else Waiting(pipe, buf))
        else if |buf| + m > Dev.MAX_TEXT_BYTES || !grows then Abandoned
        else Drain(pipe.(pos := pipe.pos + m), buf + pipe.data[pipe.pos..pipe.pos + m], script[1..])
  }

  /** The buffer is what the pipe has delivered, and it fits the cap. */
  predicate InStep(pipe: Pipe, buf: Bytes)
  {
    pipe.pos <= |pipe.data| && buf == pipe.data[..pipe.pos] && |buf| <= Dev.MAX_TEXT_BYTES
  }

  /** A failing answer is reached: a read error, or no memory for what was read. */
  predicate Fails(pipe: Pipe, script: seq<ReadAnswer>)
    requires pipe.pos <= |pipe.data|
    decreases |script|
  {
    script != [] &&
    match script[0]
    case Interrupted => Fails(pipe, script[1..])
    case WouldBlock => false
    case Failed => true
    case Ready(n, grows) =>
      var m := Count(pipe, n);
      && m > 0 && pipe.pos + m <= Dev.MAX_TEXT_BYTES
      && (!grows || Fails(pipe.(pos := pipe.pos + m), script[1..]))
  }

  /**
    All or nothing: the loop completes only with the whole of a closed pipe, within the
    cap, and gives up only on a failing answer or over the cap.
   */
  lemma {:induction false} DrainWhole(pipe: Pipe, buf: Bytes, script: seq<ReadAnswer>)
    requires InStep(pipe, buf)
    ensures match Drain(pipe, buf, script)
            case Complete(text) =>
              !Fails(pipe, script) && text == pipe.data && pipe.closed && |pipe.data| <= Dev.MAX_TEXT_BYTES
            case Waiting(pipe', buf') => !Fails(pipe, script) && pipe' == pipe.(pos := pipe'.pos) && InStep(pipe', buf')
            case Abandoned => Fails(pipe, script) || |pipe.data| > Dev.MAX_TEXT_BYTES
    decreases |script|
  {
    if script != [] {
      match script[0]
      case Interrupted => DrainWhole(pipe, buf, script[1..]);
      case WouldBlock =>
      case Failed =>
      case Ready(n, grows) =>
        var m := Count(pipe, n);
        if m == 0 {
          assert pipe.data[..pipe.pos] == pipe.data;
        } else if |buf| + m <= Dev.MAX_TEXT_BYTES && grows {
          SliceJoin(pipe.data, 0, pipe.pos, pipe.pos + m);
          DrainWhole(pipe.(pos := pipe.pos + m), buf + pipe.data[pipe.pos..pipe.pos + m], script[1..]);
        }
    }
  }

  /** The record reader_pump writes to the device: sequence 0, the text's own length. */
  function GuestRecord(text: Dev.Text): Bytes
  {
    Dev.Header(Dev.KIND_GUEST_TEXT, 0, |text|) + text
  }

  /** What the device makes of a write that is not an acknowledgement (write_from_agent). */
  function AcceptGuestText(buf: Bytes, utf8: bool): Option<Bytes>
  {
    if |buf| == Dev.ACK_SIZE || |buf| < Dev.HEADER_SIZE then None
    else if Dev.Word(buf, 0) != Dev.RECORD_VERSION || Dev.Word(buf, 1) != Dev.KIND_GUEST_TEXT
            || Dev.Word(buf, 3) != |buf| - Dev.HEADER_SIZE then None
    else if Dev.Word(buf, 3) > Dev.MAX_TEXT_BYTES || !utf8 then None
    else Some(buf[Dev.HEADER_SIZE..])
  }

  /** The device stores exactly the reported text, and refuses only what is not UTF-8. */
  lemma {:induction false} GuestRecordAccepted(text: Dev.Text, utf8: bool)
    ensures AcceptGuestText(GuestRecord(text), utf8) == if utf8 then Some(text) else None
  {
    Dev.HeaderWords(Dev.KIND_GUEST_TEXT, 0, |text|, text);
    assert GuestRecord(text)[Dev.HEADER_SIZE..] == text;
  }

  // ---- the reader, updated in place --------------------------------------

  class Reader {
    var open: bool       // reader_fd >= 0
    var buf: Bytes       // reader_buf, reader_len
    var pipe: Pipe       // the kernel's side of reader_fd

    ghost predicate Valid()
      reads this
    {
      open ==> InStep(pipe, buf)
    }

    constructor ()
      ensures Valid() && !open
    {
      open, buf, pipe := false, [], Pipe([], 0, false);
    }

    /** reader_abandon. */
    method Abandon()
      modifies `open, `buf
      ensures !open && buf == []
    {
      open, buf := false, [];
    }

    /** The tail of device_selection: a newer selection replaces a read in progress. */
    method Open()
      modifies this
      ensures open && buf == [] && pipe == Pipe([], 0, false) && Valid()
    {
      Abandon();
      open, pipe := true, Pipe([], 0, false);
    }

    /** reader_pump: at end of file, one record with the whole text; `memory` is malloc's answer. */
    method Pump(script: seq<ReadAnswer>, memory: bool) returns (report: Option<Bytes>)
      requires Valid() && open
      modifies this
      ensures Valid()
      ensures match Drain(old(pipe), old(buf), script)
              case Waiting(pipe', buf') => open && pipe == pipe' && buf == buf' && report.None?
              case Abandoned => !open && report.None?
              case Complete(text) =>
                !open && text == old(pipe).data && old(pipe).closed && |text| <= Dev.MAX_TEXT_BYTES
                && report == if memory then Some(GuestRecord(text)) else None
    {
      DrainWhole(pipe, buf, script);
      var rest := script;
      report := None;
      while true
        invariant open && InStep(pipe, buf)
        invariant Drain(pipe, buf, rest) == Drain(old(pipe), old(buf), script)
        decreases |rest|
      {
        if rest == [] { return; }
        var answer := rest[0];
        rest := rest[1..];
        match answer {
          case Interrupted => continue;
          case WouldBlock => return;
          case Failed => Abandon(); return;
          case Ready(n, grows) =>
            var m := Count(pipe, n);
            if m == 0 {
              if !pipe.closed { return; }
              break;
            }
            if |buf| + m > Dev.MAX_TEXT_BYTES || !grows {
              Abandon();
              return;
            }
            SliceJoin(pipe.data, 0, pipe.pos, pipe.pos + m);
            buf := buf + pipe.data[pipe.pos..pipe.pos + m];
            pipe := pipe.(pos := pipe.pos + m);
        }
      }
      if memory {
        report := Some(GuestRecord(buf));
      }
      Abandon();
    }
  }

  // ---- whole runs --------------------------------------------------------

  datatype Report = Report(session: nat, record: Bytes)

  /** A pipe as its writers see it. */
  datatype Session = Session(data: Bytes, closed: bool)

  /** `sessions[k]` is the k-th pipe opened; only the last one can still be read. */
  datatype CopyState = CopyState(sessions: seq<Session>, reading: Option<Reading>, reports: seq<Report>)

  datatype Reading = Reading(pos: nat, buf: Bytes)

  datatype Action =
    | Selected                                         // a foreign text offer is opened
    | Written(k: nat, bytes: Bytes)                    // bytes arrive in pipe k
    | HungUp(k: nat)                                   // its write end is closed
    | Readable(script: seq<ReadAnswer>, memory: bool)  // the pipe polls readable

  function Current(c: CopyState): Pipe
    requires c.reading.Some? && c.sessions != []
  {
    var last := c.sessions[|c.sessions| - 1];
    Pipe(last.data, c.reading.value.pos, last.closed)
  }

  function Next(c: CopyState, a: Action): CopyState
  {
    match a
    case Selected => c.(sessions := c.sessions + [Session([], false)], reading := Some(Reading(0, [])))
    case Written(k, bytes) =>
      if k >= |c.sessions| || c.sessions[k].closed then c
      else c.(sessions := c.sessions[k := Session(c.sessions[k].data + bytes, false)])
    case HungUp(k) =>
      if k >= |c.sessions| then c else c.(sessions := c.sessions[k := c.sessions[k].(closed := true)])
    case Readable(script, memory) =>
      if c.reading.None? || c.sessions == [] || Current(c).pos > |Current(c).data| then c
      else match Drain(Current(c), c.reading.value.buf, script)
        case Waiting(pipe, buf) => c.(reading := Some(Reading(pipe.pos, buf)))
        case Abandoned => c.(reading := None)
        case Complete(text) =>
          if memory && |text| <= Dev.MAX_TEXT_BYTES
          then c.(reading := None, reports := c.reports + [Report(|c.sessions| - 1, GuestRecord(text))])
          else c.(reading := None)
  }

  function Run(c: CopyState, actions: seq<Action>): CopyState
    decreases |actions|
  {
    if actions == [] then c else Run(Next(c, actions[0]), actions[1..])
  }

  const START := CopyState([], None, [])

  /** A report carries the whole text of its own session, which is closed. */
  ghost predicate Faithful(c: CopyState, r: Report)
  {
    && r.session < |c.sessions| && c.sessions[r.session].closed
    && |c.sessions[r.session].data| <= Dev.MAX_TEXT_BYTES
    && r.record == GuestRecord(c.sessions[r.session].data)
  }

  ghost predicate Inv(c: CopyState)
  {
    && (c.reading.Some? ==> c.sessions != [] && InStep(Current(c), c.reading.value.buf))
    && (forall i :: 0 <= i < |c.reports| ==> Faithful(c, c.reports[i]))
    && (forall i, j :: 0 <= i < j < |c.reports| ==> c.reports[i].session < c.reports[j].session)
    && (forall i :: 0 <= i < |c.reports| && c.reading.Some? ==> c.reports[i].session < |c.sessions| - 1)
  }

  lemma {:induction false} NextKeepsInv(c: CopyState, a: Action)
    requires Inv(c)
    ensures Inv(Next(c, a))
  {
    hide GuestRecord, Drain;
    if a.Readable? && c.reading.Some? {
      DrainWhole(Current(c), c.reading.value.buf, a.script);
    }
  }

  lemma {:induction false} RunKeepsInv(c: CopyState, actions: seq<Action>)
    requires Inv(c)
    ensures Inv(Run(c, actions))
    decreases |actions|
  {
    if actions != [] {
      NextKeepsInv(c, actions[0]);
      RunKeepsInv(Next(c, actions[0]), actions[1..]);
    }
  }

  /** Over every run each report is one whole selection, and no selection is reported twice. */
  lemma {:induction false} CopyOutAllOrNothing(actions: seq<Action>)
    ensures var c := Run(START, actions);
            && (forall i :: 0 <= i < |c.reports| ==> Faithful(c, c.reports[i]))
            && (forall i, j :: 0 <= i < j < |c.reports| ==> c.reports[i].session < c.reports[j].session)
  {
    RunKeepsInv(START, actions);
  }

  /** A selection over the cap is never reported, in whole or in part. */
  lemma {:induction false} OversizeNeverReported(actions: seq<Action>, k: nat)
    requires var c := Run(START, actions); k < |c.sessions| && |c.sessions[k].data| > Dev.MAX_TEXT_BYTES
    ensures forall r :: r in Run(START, actions).reports ==> r.session != k
  {
    RunKeepsInv(START, actions);
  }

  /** At least `n` ready answers with memory, of any size, come before an EAGAIN or a failure. */
  predicate Enough(script: seq<ReadAnswer>, n: nat)
    decreases |script|
  {
    n == 0 || (script != [] &&
               match script[0]
               case Interrupted => Enough(script[1..], n)
               case Ready(_, grows) => grows && Enough(script[1..], n - 1)
               case _ => false)
  }

  /** Enough answers read a closed pipe to its end, if it fits the cap, and give up otherwise. */
  lemma {:induction false} DrainEnds(pipe: Pipe, buf: Bytes, script: seq<ReadAnswer>)
    requires InStep(pipe, buf) && pipe.closed && Enough(script, |pipe.data| - pipe.pos + 1)
    ensures Drain(pipe, buf, script) == if |pipe.data| <= Dev.MAX_TEXT_BYTES then Complete(pipe.data) else Abandoned
    decreases |script|
  {
    match script[0]
    case Interrupted => DrainEnds(pipe, buf, script[1..]);
    case Ready(n, _) =>
      var m := Count(pipe, n);
      if m == 0 {
        assert pipe.data[..pipe.pos] == pipe.data;
      } else if |buf| + m <= Dev.MAX_TEXT_BYTES {
        SliceJoin(pipe.data, 0, pipe.pos, pipe.pos + m);
        EnoughLess(script[1..], |pipe.data| - pipe.pos, |pipe.data| - pipe.pos - m + 1);
        DrainEnds(pipe.(pos := pipe.pos + m), buf + pipe.data[pipe.pos..pipe.pos + m], script[1..]);
      }
  }

  lemma {:induction false} EnoughLess(script: seq<ReadAnswer>, n: nat, m: nat)
    requires Enough(script, n) && m <= n
    ensures Enough(script, m)
    decreases |script|
  {
    if m > 0 {
      EnoughLess(script[1..], if script[0].Interrupted? then n else n - 1, if script[0].Interrupted? then m else m - 1);
    }
  }

  /** Session `k` was reported with this text. */
  ghost predicate Reported(c: CopyState, k: nat, text: Bytes)
  {
    |text| <= Dev.MAX_TEXT_BYTES && Report(k, GuestRecord(text)) in c.reports
  }

  /** Reading on in a closed pipe reports its whole content exactly when that fits the cap. */
  lemma {:induction false} ClosedPipeReported(c: CopyState, script: seq<ReadAnswer>, text: Bytes)
    requires Inv(c) && c.reading.Some? && c.sessions[|c.sessions| - 1].closed
    requires Enough(script, |c.sessions[|c.sessions| - 1].data| - c.reading.value.pos + 1)
    ensures var k, data := |c.sessions| - 1, c.sessions[|c.sessions| - 1].data;
            Reported(Next(c, Readable(script, true)), k, text) <==> text == data && |data| <= Dev.MAX_TEXT_BYTES
  {
    hide Drain, Enough;
    var k, data := |c.sessions| - 1, c.sessions[|c.sessions| - 1].data;
    DrainEnds(Current(c), c.reading.value.buf, script);
    if |text| <= Dev.MAX_TEXT_BYTES && |data| <= Dev.MAX_TEXT_BYTES && text != data {
      RecordsDiffer(data, text);
    }
    hide GuestRecord;
    assert forall r :: r in c.reports ==> r.session < k;
  }

  lemma {:induction false} RecordsDiffer(a: Bytes, b: Bytes)
    requires |a| <= Dev.MAX_TEXT_BYTES && |b| <= Dev.MAX_TEXT_BYTES && a != b
    ensures GuestRecord(a) != GuestRecord(b)
  {
    assert GuestRecord(a)[Dev.HEADER_SIZE..] == a && GuestRecord(b)[Dev.HEADER_SIZE..] == b;
  }

  // ---- every pipe is accounted for ---------------------------------------

  /** Why a read in progress ends without a report. */
  datatype Cause = Replaced | ReadFailed | OverCap | NoMemory

  function LossIn(c: CopyState, a: Action): (r: Option<Cause>)
    ensures r.Some? ==> c.reading.Some? && c.sessions != []
  {
    if c.reading.None? || c.sessions == [] || Current(c).pos > |Current(c).data| then None
    else match a
      case Selected => Some(Replaced)
      case Readable(script, memory) =>
        if Fails(Current(c), script) then Some(ReadFailed)
        else (
          match Drain(Current(c), c.reading.value.buf, script)
          case Abandoned => Some(OverCap)
          case Complete(_) => if memory then None else Some(NoMemory)
          case Waiting(_, _) => None)
      case _ => None
  }

  function Loss(c: CopyState, a: Action): map<nat, Cause>
  {
    match LossIn(c, a)
    case None => map[]
    case Some(cause) => map[|c.sessions| - 1 := cause]
  }

  /** The pipes lost in a run, each with its cause. */
  function Lost(c: CopyState, actions: seq<Action>): map<nat, Cause>
    decreases |actions|
  {
    if actions == [] then map[] else Loss(c, actions[0]) + Lost(Next(c, actions[0]), actions[1..])
  }

  predicate IsReported(c: CopyState, k: nat)
  {
    exists i :: 0 <= i < |c.reports| && c.reports[i].session == k
  }

  predicate BeingRead(c: CopyState, k: nat)
  {
    c.reading.Some? && k == |c.sessions| - 1
  }

  /** Exactly one of the three. */
  predicate One(a: bool, b: bool, c: bool)
  {
    (a || b || c) && !(a && b) && !(a && c) && !(b && c)
  }

  /** A pipe over the cap is that; a replaced one has a successor. */
  predicate CauseOk(c: CopyState, k: nat, cause: Cause)
  {
    && k < |c.sessions| && (cause == OverCap ==> |c.sessions[k].data| > Dev.MAX_TEXT_BYTES)
    && (cause == Replaced ==> k + 1 < |c.sessions|)
  }

  ghost predicate Accounted(c: CopyState, lost: map<nat, Cause>)
  {
    && (forall k: nat :: k < |c.sessions| ==> One(IsReported(c, k), BeingRead(c, k), k in lost))
    && (forall k :: k in lost ==> CauseOk(c, k, lost[k]))
  }

  /** What one action does to the three groups. */
  lemma {:induction false} NextMoves(c: CopyState, a: Action, k: nat)
    requires Inv(c) && k < |Next(c, a).sessions|
    ensures var c' := Next(c, a);
            && (IsReported(c', k) <==> IsReported(c, k) || (BeingRead(c, k) && !BeingRead(c', k) && k !in Loss(c, a)))
            && (k in Loss(c, a) ==> BeingRead(c, k) && !BeingRead(c', k))
            && (BeingRead(c', k) <==> k == |c.sessions| || (BeingRead(c, k) && k !in Loss(c, a) && !IsReported(c', k)))
  {
    hide GuestRecord, Drain, Fails;
    if a.Readable? && c.reading.Some? {
      DrainWhole(Current(c), c.reading.value.buf, a.script);
      var c' := Next(c, a);
      if |c'.reports| > |c.reports| {
        assert c'.reports[|c.reports|].session == |c.sessions| - 1;
      }
      assert forall i :: 0 <= i < |c.reports| ==> c'.reports[i] == c.reports[i];
    }
  }

  lemma {:induction false} CausesKept(c: CopyState, a: Action, lost: map<nat, Cause>, k: nat)
    requires Inv(c) && Accounted(c, lost) && k in lost + Loss(c, a)
    ensures CauseOk(Next(c, a), k, (lost + Loss(c, a))[k])
  {
    hide GuestRecord, Drain, Fails, IsReported, One;
    if a.Readable? && c.reading.Some? {
      DrainWhole(Current(c), c.reading.value.buf, a.script);
    }
    if k !in Loss(c, a) {
      assert CauseOk(c, k, lost[k]);
    }
  }

  lemma {:induction false} NextAccounted(c: CopyState, a: Action, lost: map<nat, Cause>)
    requires Inv(c) && Accounted(c, lost)
    ensures Accounted(Next(c, a), lost + Loss(c, a))
  {
    var c' := Next(c, a);
    forall k: nat | k < |c'.sessions|
      ensures One(IsReported(c', k), BeingRead(c', k), k in lost + Loss(c, a))
    {
      NextMoves(c, a, k);
      NewPipeUnknown(c, lost, k);
    }
    forall k | k in lost + Loss(c, a)
      ensures CauseOk(c', k, (lost + Loss(c, a))[k])
    {
      CausesKept(c, a, lost, k);
    }
  }

  lemma {:induction false} NewPipeUnknown(c: CopyState, lost: map<nat, Cause>, k: nat)
    requires Inv(c) && Accounted(c, lost)
    ensures k >= |c.sessions| ==> !IsReported(c, k) && k !in lost
  {
  }

  lemma {:induction false} RunAccounted(c: CopyState, actions: seq<Action>, lost: map<nat, Cause>)
    requires Inv(c) && Accounted(c, lost)
    ensures Inv(Run(c, actions)) && Accounted(Run(c, actions), lost + Lost(c, actions))
    decreases |actions|
  {
    hide Inv, Accounted, Next, Loss;
    if actions == [] {
      assert lost + map[] == lost;
    } else {
      var a, rest := actions[0], actions[1..];
      NextKeepsInv(c, a);
      NextAccounted(c, a, lost);
      RunAccounted(Next(c, a), rest, lost + Loss(c, a));
      assert lost + Loss(c, a) + Lost(Next(c, a), rest) == lost + (Loss(c, a) + Lost(Next(c, a), rest));
    }
  }

  /**
    Over every run each pipe opened is exactly one of reported, being read, and lost:
    replaced while it was read, by a failed read or allocation, or over the cap.
   */
  lemma {:induction false} EveryPipeAccounted(actions: seq<Action>, k: nat)
    requires k < |Run(START, actions).sessions|
    ensures var c, lost := Run(START, actions), Lost(START, actions);
            && One(IsReported(c, k), BeingRead(c, k), k in lost)
            && (k in lost ==> CauseOk(c, k, lost[k]))
  {
    RunAccounted(START, actions, map[]);
    assert map[] + Lost(START, actions) == Lost(START, actions);
  }

  /** No read error, and memory for everything that is asked for. */
  predicate Flawless(a: Action)
  {
    a.Readable? ==> a.memory && forall i :: 0 <= i < |a.script| ==> a.script[i] != Failed && (a.script[i].Ready? ==> a.script[i].grows)
  }

  lemma {:induction false} FlawlessReads(pipe: Pipe, script: seq<ReadAnswer>)
    requires pipe.pos <= |pipe.data| && Flawless(Readable(script, true))
    ensures !Fails(pipe, script)
    decreases |script|
  {
    if script != [] {
      assert forall i :: 0 <= i < |script| - 1 ==> script[1..][i] == script[i + 1];
      match script[0]
      case Interrupted => FlawlessReads(pipe, script[1..]);
      case Ready(n, _) => FlawlessReads(pipe.(pos := pipe.pos + Count(pipe, n)), script[1..]);
      case _ =>
    }
  }

  /** Without failures a pipe is lost only by being replaced or over the cap. */
  lemma {:induction false} FlawlessLosses(c: CopyState, actions: seq<Action>, k: nat)
    requires (forall i :: 0 <= i < |actions| ==> Flawless(actions[i])) && k in Lost(c, actions)
    ensures Lost(c, actions)[k] in {Replaced, OverCap}
    decreases |actions|
  {
    hide Next, Drain, Fails, Flawless;
    var a, rest := actions[0], actions[1..];
    if k in Lost(Next(c, a), rest) {
      FlawlessLosses(Next(c, a), rest, k);
    } else {
      assert Flawless(a);
      FlawlessLoss(c, a);
    }
  }

  lemma {:induction false} FlawlessLoss(c: CopyState, a: Action)
    requires Flawless(a) && LossIn(c, a).Some?
    ensures LossIn(c, a).value in {Replaced, OverCap}
  {
    if a.Readable? {
      FlawlessReads(Current(c), a.script);
    }
  }

  /** In every run on from here, the pipe now being read is reported with its content, still read, or lost. */
  lemma {:induction false} ReadAccounted(c: CopyState, actions: seq<Action>, k: nat, text: Bytes)
    requires Inv(c) && BeingRead(c, k) && k < |Run(c, actions).sessions|
    ensures var d, lost := Run(c, actions), Lost(c, actions);
            && One(IsReported(d, k), BeingRead(d, k), k in lost)
            && (k in lost ==> CauseOk(d, k, lost[k]))
            && (Reported(d, k, text) <==> IsReported(d, k) && text == d.sessions[k].data)
  {
    var before := Earlier(c);
    RunAccounted(c, actions, before);
    ReportedIs(Run(c, actions), k, text);
  }

  /** The pipes before the one being read that were not reported. */
  ghost function Earlier(c: CopyState): (lost: map<nat, Cause>)
    requires Inv(c) && c.reading.Some?
    ensures Accounted(c, lost) && |c.sessions| - 1 !in lost
  {
    map k: nat | k < |c.sessions| - 1 && !IsReported(c, k) :: ReadFailed
  }

  lemma {:induction false} ReportedIs(c: CopyState, k: nat, text: Bytes)
    requires Inv(c) && k < |c.sessions|
    ensures Reported(c, k, text) <==> IsReported(c, k) && text == c.sessions[k].data
  {
    hide GuestRecord;
    var data := c.sessions[k].data;
    if Reported(c, k, text) {
      var i :| 0 <= i < |c.reports| && c.reports[i] == Report(k, GuestRecord(text));
      assert Faithful(c, c.reports[i]);
      if text != data {
        RecordsDiffer(text, data);
      }
    }
    if IsReported(c, k) {
      var i :| 0 <= i < |c.reports| && c.reports[i].session == k;
      assert Faithful(c, c.reports[i]);
      assert c.reports[i] == Report(k, GuestRecord(data));
    }
  }
}
