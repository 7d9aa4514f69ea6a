/**
  Pastes in flight: kclipd's reference-counted texts and its table of writers.

  Allocated texts and sources are maps from address to content, so reading or
  releasing one demands a proof that it has not been freed; addresses may be
  reused. The rest is history: `offered` is the text each source was made for,
  `pipes` what each pasting client has been sent so far and `promised` the text it
  asked for, which outlives the source it came from.
 */
module PasteTable {
  import opened Basics

  const MAX_WRITERS := 16

  datatype TextCell = TextCell(refs: int, bytes: Bytes)
  datatype Writer = Writer(fd: nat, text: nat, off: nat)

  /** One answer of write(): a count (possibly short), EINTR, EAGAIN, or failure. */
  datatype WriteResult = Wrote(n: nat) | Interrupted | WouldBlock | Broken

  datatype Pastes = Pastes(
    texts: map<nat, TextCell>,
    sources: map<nat, nat>,
    writers: seq<Writer>,
    offered: map<nat, Bytes>,
    pipes: map<nat, Bytes>,
    promised: map<nat, Bytes>)

  // ---- one writer --------------------------------------------------------

  datatype Pumped = Pumped(done: bool, off: nat)

  /** writer_pump meets a write that fails before the end of the text. */
  predicate Fails(len: nat, off: nat, script: seq<WriteResult>)
    requires off <= len
    decreases |script|
  {
    if off == len || script == [] then false
    else match script[0]
      case Wrote(n) => n == 0 || Fails(len, off + if n < len - off then n else len - off, script[1..])
      case Interrupted => Fails(len, off, script[1..])
      case WouldBlock => false
      case Broken => true
  }

  /** The effect of writer_pump on a text of `len` bytes; a finished script blocks. */
  function Pump(len: nat, off: nat, script: seq<WriteResult>): (r: Pumped)
    requires off <= len
    ensures off <= r.off <= len
    ensures r.done <==> r.off == len || Fails(len, off, script)
    ensures Fails(len, off, script) ==> r.off < len
    decreases |script|
  {
    if off == len then Pumped(true, off)
    else if script == [] then Pumped(false, off)
    else match script[0]
      case Wrote(n) =>
        if n == 0 then Pumped(true, off)
        else Pump(len, off + if n < len - off then n else len - off, script[1..])
      case Interrupted => Pump(len, off, script[1..])
      case WouldBlock => Pumped(false, off)
      case Broken => Pumped(true, off)
  }

  /** writer_pump itself: one write() per turn, each sending the next bytes of the text. */
  method WriterPump(bytes: Bytes, start: nat, script: seq<WriteResult>) returns (done: bool, off: nat, sent: Bytes)
    requires start <= |bytes|
    ensures Pumped(done, off) == Pump(|bytes|, start, script)
    ensures start <= off <= |bytes| && sent == bytes[start..off]
  {
    off, sent := start, [];
    var rest := script;
    while off < |bytes|
      invariant start <= off <= |bytes| && sent == bytes[start..off]
      invariant Pump(|bytes|, off, rest) == Pump(|bytes|, start, script)
      decreases |rest|, |bytes| - off
    {
      if rest == [] { return false, off, sent; }
      var answer := rest[0];
      rest := rest[1..];
      match answer {
        case Wrote(n) =>
          if n == 0 { return true, off, sent; }
          var m := if n < |bytes| - off then n else |bytes| - off;
          SliceJoin(bytes, start, off, off + m);
          sent := sent + bytes[off..off + m];
          off := off + m;
        case Interrupted =>
        case WouldBlock => return false, off, sent;
        case Broken => return true, off, sent;
      }
    }
    done := true;
  }

  // ---- reference counts --------------------------------------------------

  /** How many writers hold text `t`. */
  function Holders(ws: seq<Writer>, t: nat): nat
  {
    if ws == [] then 0 else (if ws[0].text == t then 1 else 0) + Holders(ws[1..], t)
  }

  lemma {:induction false} HoldersConcat(a: seq<Writer>, b: seq<Writer>, t: nat)
    ensures Holders(a + b, t) == Holders(a, t) + Holders(b, t)
  {
    if a == [] {
      assert a + b == b;
    } else {
      assert (a + b)[1..] == a[1..] + b;
      HoldersConcat(a[1..], b, t);
    }
  }

  lemma {:induction false} HoldersPositive(ws: seq<Writer>, i: nat)
    requires i < |ws|
    ensures Holders(ws, ws[i].text) > 0
  {
    if i > 0 {
      HoldersPositive(ws[1..], i - 1);
    }
  }

  /** writer_close's table update: the last writer moves into the hole. */
  function SwapRemove(ws: seq<Writer>, i: nat): seq<Writer>
    requires i < |ws|
  {
    ws[i := ws[|ws| - 1]][..|ws| - 1]
  }

  /** Slots below `i` stay put, and above it only the writer in slot `i` is gone. */
  lemma {:induction false} SwapRemoveParts(ws: seq<Writer>, i: nat)
    requires i < |ws|
    ensures SwapRemove(ws, i)[..i] == ws[..i]
    ensures multiset(SwapRemove(ws, i)[i..]) == multiset(ws[i + 1..])
  {
    var r, n := SwapRemove(ws, i), |ws| - 1;
    if i < n {
      assert r[i..] == [ws[n]] + ws[i + 1..n];
      assert ws[i + 1..] == ws[i + 1..n] + [ws[n]];
    } else {
      assert r[i..] == [] == ws[i + 1..];
    }
  }

  lemma {:induction false} HoldersAt(ws: seq<Writer>, i: nat, t: nat)
    requires i < |ws|
    ensures Holders(ws, t) == Holders(ws[..i], t) + (if ws[i].text == t then 1 else 0) + Holders(ws[i + 1..], t)
  {
    assert ws == ws[..i] + ws[i..];
    HoldersConcat(ws[..i], ws[i..], t);
    assert ws[i..][1..] == ws[i + 1..];
  }

  lemma {:induction false} SwapRemoveHolders(ws: seq<Writer>, i: nat, t: nat)
    requires i < |ws|
    ensures Holders(SwapRemove(ws, i), t) == Holders(ws, t) - if ws[i].text == t then 1 else 0
  {
    var r, n := SwapRemove(ws, i), |ws| - 1;
    HoldersAt(ws, i, t);
    if i < n {
      HoldersAt(r, i, t);
      HoldersAt(ws[i + 1..], n - i - 1, t);
      assert ws[i + 1..][..n - i - 1] == ws[i + 1..n];
      assert r[i + 1..] == ws[i + 1..n];
      assert ws[i + 1..][n - i..] == [];
      assert r[..i] == ws[..i];
    } else {
      assert r == ws[..i];
    }
  }

  /** One for the live source, one for each writer. */
  function RefsDue(p: Pastes, t: nat): nat
  {
    (if t in p.sources.Values then 1 else 0) + Holders(p.writers, t)
  }

  ghost predicate RefsExact(p: Pastes)
  {
    && (forall t :: t in p.texts ==> p.texts[t].refs == RefsDue(p, t) > 0)
    && (forall s :: s in p.sources ==>
          p.sources[s] in p.texts && s in p.offered && p.texts[p.sources[s]].bytes == p.offered[s])
    && (forall s, s' :: s in p.sources && s' in p.sources && p.sources[s] == p.sources[s'] ==> s == s')
  }

  /** Every writer is unfinished, holds an allocated text, and has sent a prefix of what was promised. */
  ghost predicate WritersOk(p: Pastes)
  {
    && |p.writers| <= MAX_WRITERS
    && (forall i :: 0 <= i < |p.writers| ==> WriterOk(p, p.writers[i]))
    && (forall i, j :: 0 <= i < j < |p.writers| ==> p.writers[i].fd != p.writers[j].fd)
  }

  ghost predicate WriterOk(p: Pastes, w: Writer)
  {
    && w.text in p.texts && w.fd in p.promised && w.fd in p.pipes
    && p.promised[w.fd] == p.texts[w.text].bytes
    && w.off < |p.texts[w.text].bytes|
    && p.pipes[w.fd] == p.texts[w.text].bytes[..w.off]
  }

  /** Every client has received a prefix of the text it was promised. */
  ghost predicate PipesOk(p: Pastes)
  {
    && p.pipes.Keys == p.promised.Keys
    && forall fd :: fd in p.pipes ==> p.pipes[fd] <= p.promised[fd]
  }

  ghost predicate Inv(p: Pastes)
  {
    RefsExact(p) && WritersOk(p) && PipesOk(p)
  }

  // ---- the operations ----------------------------------------------------

  /** text_unref: freed exactly when the count reaches zero. */
  function Unref(texts: map<nat, TextCell>, t: nat): map<nat, TextCell>
    requires t in texts
  {
    var refs := texts[t].refs - 1;
    if refs == 0 then texts - {t} else texts[t := texts[t].(refs := refs)]
  }

  /** handle_offer's allocations: a text with one reference, held by its source. */
  function Allocate(p: Pastes, t: nat, s: nat, bytes: Bytes): Pastes
    requires t !in p.texts && s !in p.sources
  {
    p.(texts := p.texts[t := TextCell(1, bytes)], sources := p.sources[s := t],
       offered := p.offered[s := bytes])
  }

  /** source_cancelled. */
  function Cancel(p: Pastes, s: nat): Pastes
    requires s in p.sources && p.sources[s] in p.texts
  {
    p.(texts := Unref(p.texts, p.sources[s]), sources := p.sources - {s})
  }

  /** source_send: a new paste, dropped when the table is full, kept only if unfinished. */
  function Send(p: Pastes, s: nat, fd: nat, script: seq<WriteResult>): Pastes
    requires s in p.sources && p.sources[s] in p.texts && fd !in p.pipes
  {
    var t := p.sources[s];
    var bytes := p.texts[t].bytes;
    var p' := p.(promised := p.promised[fd := bytes]);
    if |p.writers| == MAX_WRITERS then p'.(pipes := p.pipes[fd := []])
    else
      var r := Pump(|bytes|, 0, script);
      var sent := p'.(pipes := p.pipes[fd := bytes[..r.off]]);
      if r.done then sent
      else sent.(texts := p.texts[t := p.texts[t].(refs := p.texts[t].refs + 1)],
                 writers := p.writers + [Writer(fd, t, r.off)])
  }

  /** Pump the writer in slot `i`, closing it when it is done. */
  function PumpSlot(p: Pastes, i: nat, script: seq<WriteResult>): Pastes
    requires i < |p.writers| && WriterOk(p, p.writers[i])
  {
    var w := p.writers[i];
    var bytes := p.texts[w.text].bytes;
    var r := Pump(|bytes|, w.off, script);
    var p' := p.(pipes := p.pipes[w.fd := bytes[..r.off]]);
    if r.done then p'.(texts := Unref(p.texts, w.text), writers := SwapRemove(p.writers, i))
    else p'.(writers := p.writers[i := w.(off := r.off)])
  }

  // ---- every operation keeps the counts exact ----------------------------

  lemma {:induction false} AllocateKeepsInv(p: Pastes, t: nat, s: nat, bytes: Bytes)
    requires Inv(p) && t !in p.texts && s !in p.sources
    ensures Inv(Allocate(p, t, s, bytes))
  {
    AllocateRefs(p, t, s, bytes);
    hide RefsExact;
    var q := Allocate(p, t, s, bytes);
    forall i | 0 <= i < |q.writers|
      ensures WriterOk(q, q.writers[i])
    {
      assert WriterOk(p, p.writers[i]);
    }
  }

  lemma {:induction false} AllocateRefs(p: Pastes, t: nat, s: nat, bytes: Bytes)
    requires RefsExact(p) && WritersOk(p) && t !in p.texts && s !in p.sources
    ensures RefsExact(Allocate(p, t, s, bytes))
  {
    var q := Allocate(p, t, s, bytes);
    NoHolders(p, t);
    hide WritersOk;
    assert q.sources[s] == t && t in q.sources.Values;
    forall u | u in q.texts
      ensures q.texts[u].refs == RefsDue(q, u) > 0
    {
      if u != t {
        assert u in q.sources.Values <==> u in p.sources.Values by {
          ValuesUpdate(p.sources, s, t, u);
        }
      }
    }
  }

  lemma {:induction false} ValuesUpdate(m: map<nat, nat>, s: nat, t: nat, u: nat)
    requires s !in m && u != t
    ensures u in m[s := t].Values <==> u in m.Values
  {
    if u in m.Values {
      var k :| k in m && m[k] == u;
      assert m[s := t][k] == u;
    }
  }

  lemma {:induction false} NoHolders(p: Pastes, t: nat)
    requires WritersOk(p) && t !in p.texts
    ensures Holders(p.writers, t) == 0
  {
    NoHoldersIn(p.writers, t);
  }

  lemma {:induction false} NoHoldersIn(ws: seq<Writer>, t: nat)
    requires forall i :: 0 <= i < |ws| ==> ws[i].text != t
    ensures Holders(ws, t) == 0
  {
    if ws != [] {
      NoHoldersIn(ws[1..], t);
    }
  }

  lemma {:induction false} CancelKeepsInv(p: Pastes, s: nat)
    requires Inv(p) && s in p.sources
    ensures Inv(Cancel(p, s))
  {
    var q, t := Cancel(p, s), p.sources[s];
    assert t in p.sources.Values;
    forall u | u in q.texts
      ensures q.texts[u].refs == RefsDue(q, u) > 0
    {
      ValuesRemove(p.sources, s, u);
    }
    ValuesRemove(p.sources, s, t);
    forall i | 0 <= i < |q.writers|
      ensures WriterOk(q, q.writers[i])
    {
      assert WriterOk(p, p.writers[i]);
      HoldersPositive(p.writers, i);
    }
  }

  lemma {:induction false} ValuesRemove(m: map<nat, nat>, s: nat, u: nat)
    requires s in m
    requires forall k, k' :: k in m && k' in m && m[k] == m[k'] ==> k == k'
    ensures u in (m - {s}).Values <==> u in m.Values && u != m[s]
  {
    if u in m.Values && u != m[s] {
      var k :| k in m && m[k] == u;
      assert (m - {s})[k] == u;
    }
  }

  /** Taking one more reference for one more writer. */
  lemma {:induction false} AppendWriterRefs(p: Pastes, w: Writer)
    requires RefsExact(p) && w.text in p.texts
    ensures RefsExact(p.(texts := p.texts[w.text := p.texts[w.text].(refs := p.texts[w.text].refs + 1)],
                         writers := p.writers + [w]))
  {
    forall u
      ensures Holders(p.writers + [w], u) == Holders(p.writers, u) + if w.text == u then 1 else 0
    {
      HoldersConcat(p.writers, [w], u);
    }
  }

  /** The part of source_send that leaves table and counts alone. */
  lemma {:induction false} NewPipeKeepsInv(p: Pastes, fd: nat, bytes: Bytes, n: nat)
    requires Inv(p) && fd !in p.pipes && n <= |bytes|
    ensures Inv(p.(promised := p.promised[fd := bytes], pipes := p.pipes[fd := bytes[..n]]))
  {
    var q := p.(promised := p.promised[fd := bytes], pipes := p.pipes[fd := bytes[..n]]);
    forall i | 0 <= i < |q.writers|
      ensures WriterOk(q, q.writers[i])
    {
      assert WriterOk(p, p.writers[i]);
    }
  }

  lemma {:induction false} FreshFd(p: Pastes, fd: nat)
    requires WritersOk(p) && fd !in p.pipes
    ensures forall i :: 0 <= i < |p.writers| ==> p.writers[i].fd != fd
  {
  }

  lemma {:induction false} SendKeepsInv(p: Pastes, s: nat, fd: nat, script: seq<WriteResult>)
    requires Inv(p) && s in p.sources && fd !in p.pipes
    ensures Inv(Send(p, s, fd, script))
    ensures p.writers <= Send(p, s, fd, script).writers && fd !in p.promised
    ensures s in p.offered && Send(p, s, fd, script).promised == p.promised[fd := p.offered[s]]
  {
    var t := p.sources[s];
    var bytes := p.texts[t].bytes;
    if |p.writers| == MAX_WRITERS {
      assert bytes[..0] == [];
      NewPipeKeepsInv(p, fd, bytes, 0);
    } else {
      var r := Pump(|bytes|, 0, script);
      NewPipeKeepsInv(p, fd, bytes, r.off);
      if !r.done {
        FreshFd(p, fd);
        AppendKeepsInv(p.(promised := p.promised[fd := bytes], pipes := p.pipes[fd := bytes[..r.off]]),
                       Writer(fd, t, r.off));
      }
    }
  }

  lemma {:induction false} AppendKeepsInv(p: Pastes, w: Writer)
    requires Inv(p) && |p.writers| < MAX_WRITERS && WriterOk(p, w)
    requires forall i :: 0 <= i < |p.writers| ==> p.writers[i].fd != w.fd
    ensures Inv(p.(texts := p.texts[w.text := p.texts[w.text].(refs := p.texts[w.text].refs + 1)],
                   writers := p.writers + [w]))
  {
    AppendWriterRefs(p, w);
    AppendedWritersOk(p, p.(texts := p.texts[w.text := p.texts[w.text].(refs := p.texts[w.text].refs + 1)],
                            writers := p.writers + [w]), w);
  }

  lemma {:induction false} AppendedWritersOk(p: Pastes, q: Pastes, w: Writer)
    requires Inv(p) && |p.writers| < MAX_WRITERS && WriterOk(p, w)
    requires forall i :: 0 <= i < |p.writers| ==> p.writers[i].fd != w.fd
    requires q == p.(texts := p.texts[w.text := p.texts[w.text].(refs := p.texts[w.text].refs + 1)],
                     writers := p.writers + [w])
    ensures WritersOk(q) && PipesOk(q)
  {
  }

  /** A pump moves bytes only within its own text, and leaves every other writer alone. */
  lemma {:induction false} PumpSlotKeepsOthers(p: Pastes, i: nat, script: seq<WriteResult>, w: Writer)
    requires Inv(p) && i < |p.writers| && WriterOk(p, p.writers[i])
    requires w in p.writers && w.fd != p.writers[i].fd
    ensures WriterOk(PumpSlot(p, i, script), w)
  {
    SharedText(p, i, w);
    hide Pump, SwapRemove, RefsExact, WritersOk, PipesOk;
  }

  /** A text that another writer also holds has a reference to spare. */
  lemma {:induction false} SharedText(p: Pastes, i: nat, w: Writer)
    requires Inv(p) && i < |p.writers| && w in p.writers && w.fd != p.writers[i].fd
    ensures WriterOk(p, w) && (w.text == p.writers[i].text ==> p.texts[w.text].refs >= 2)
  {
    var j :| 0 <= j < |p.writers| && p.writers[j] == w;
    assert WriterOk(p, p.writers[j]);
    if w.text == p.writers[i].text {
      TwoHolders(p.writers, i, j);
    }
  }

  lemma {:induction false} TwoHolders(ws: seq<Writer>, i: nat, j: nat)
    requires i < |ws| && j < |ws| && i != j && ws[i].text == ws[j].text
    ensures Holders(ws, ws[i].text) >= 2
  {
    var a, b := if i < j then i else j, if i < j then j else i;
    assert ws == ws[..b] + ws[b..];
    HoldersConcat(ws[..b], ws[b..], ws[i].text);
    HoldersPositive(ws[..b], a);
    HoldersPositive(ws[b..], 0);
  }

  lemma {:induction false} PumpSlotRefs(p: Pastes, i: nat, script: seq<WriteResult>)
    requires Inv(p) && i < |p.writers| && WriterOk(p, p.writers[i])
    ensures RefsExact(PumpSlot(p, i, script))
  {
    var q, w := PumpSlot(p, i, script), p.writers[i];
    forall u
      ensures Holders(q.writers, u) ==
              Holders(p.writers, u) - if w.text == u && |q.writers| < |p.writers| then 1 else 0
    {
      if |q.writers| < |p.writers| {
        SwapRemoveHolders(p.writers, i, u);
      } else {
        HoldersAt(p.writers, i, u);
        HoldersAt(q.writers, i, u);
        assert q.writers[..i] == p.writers[..i] && q.writers[i + 1..] == p.writers[i + 1..];
      }
    }
    HoldersPositive(p.writers, i);
    if w.text !in q.texts {
      assert RefsDue(p, w.text) == 1;
      forall s | s in q.sources
        ensures q.sources[s] in q.texts && s in q.offered && q.texts[q.sources[s]].bytes == q.offered[s]
      {
        assert p.sources[s] in p.sources.Values;
      }
    }
  }

  lemma {:induction false} PumpSlotWriters(p: Pastes, i: nat, script: seq<WriteResult>)
    requires Inv(p) && i < |p.writers| && WriterOk(p, p.writers[i])
    ensures WritersOk(PumpSlot(p, i, script))
  {
    var q, w := PumpSlot(p, i, script), p.writers[i];
    PumpSlotFds(p, i, script);
    forall j | 0 <= j < |q.writers|
      ensures WriterOk(q, q.writers[j])
    {
      if q.writers[j].fd == w.fd {
        PumpSlotStays(p, i, script, j);
      } else {
        PumpSlotMoves(p, i, script, j);
        PumpSlotKeepsOthers(p, i, script, q.writers[j]);
      }
    }
  }

  /** Every writer left is one of before, or the pumped one in its slot. */
  lemma {:induction false} PumpSlotMoves(p: Pastes, i: nat, script: seq<WriteResult>, j: nat)
    requires i < |p.writers| && WriterOk(p, p.writers[i]) && j < |PumpSlot(p, i, script).writers|
    ensures var q := PumpSlot(p, i, script); q.writers[j].fd != p.writers[i].fd ==> q.writers[j] in p.writers
  {
    hide Pump, Unref;
  }

  /** Descriptors stay distinct, and a writer that is done is the only one to go. */
  lemma {:induction false} PumpSlotFds(p: Pastes, i: nat, script: seq<WriteResult>)
    requires WritersOk(p) && i < |p.writers| && WriterOk(p, p.writers[i])
    ensures var q := PumpSlot(p, i, script);
            && |q.writers| <= MAX_WRITERS
            && (forall j, k :: 0 <= j < k < |q.writers| ==> q.writers[j].fd != q.writers[k].fd)
  {
    hide Pump, Unref, WriterOk;
  }

  lemma {:induction false} PumpSlotStays(p: Pastes, i: nat, script: seq<WriteResult>, j: nat)
    requires WritersOk(p) && i < |p.writers| && WriterOk(p, p.writers[i]) && j < |PumpSlot(p, i, script).writers|
    requires PumpSlot(p, i, script).writers[j].fd == p.writers[i].fd
    ensures WriterOk(PumpSlot(p, i, script), PumpSlot(p, i, script).writers[j])
  {
    hide Fails, Unref;
  }

  lemma {:induction false} PumpSlotPipes(p: Pastes, i: nat, script: seq<WriteResult>)
    requires Inv(p) && i < |p.writers| && WriterOk(p, p.writers[i])
    ensures PipesOk(PumpSlot(p, i, script))
  {
    hide WritersOk, RefsExact, Unref, SwapRemove;
  }

  lemma {:induction false} PumpSlotKeepsInv(p: Pastes, i: nat, script: seq<WriteResult>)
    requires Inv(p) && i < |p.writers| && WriterOk(p, p.writers[i])
    ensures Inv(PumpSlot(p, i, script))
  {
    PumpSlotRefs(p, i, script);
    PumpSlotWriters(p, i, script);
    PumpSlotPipes(p, i, script);
  }

  // ---- one pass over the polled writers ----------------------------------

  lemma {:induction false} PumpSlotInPass(p: Pastes, i: nat, script: seq<WriteResult>)
    requires Inv(p) && i < |p.writers|
    ensures WriterOk(p, p.writers[i])
    ensures var q := PumpSlot(p, i, script);
            Inv(q) && i <= |q.writers| && q.promised == p.promised && q.sources == p.sources
  {
    PumpSlotKeepsInv(p, i, script);
  }

  /** The loop at the end of main's poll: slots `n - 1` down to 0, each by its own readiness. */
  ghost function Pass(p: Pastes, n: nat, ready: seq<bool>, scripts: seq<seq<WriteResult>>): (q: Pastes)
    requires Inv(p) && n <= |p.writers| && n <= |ready| && n <= |scripts|
    ensures Inv(q) && q.promised == p.promised && q.sources == p.sources
    decreases n
  {
    hide Inv, WriterOk, PumpSlot;
    if n == 0 then p
    else if ready[n - 1] then
      PumpSlotInPass(p, n - 1, scripts[n - 1]);
      Pass(PumpSlot(p, n - 1, scripts[n - 1]), n - 1, ready, scripts)
    else Pass(p, n - 1, ready, scripts)
  }

  /** What one polled writer should become: itself, a later offset, or nothing. */
  function Survivor(w: Writer, text: Bytes, ready: bool, script: seq<WriteResult>): multiset<Writer>
    requires w.off <= |text|
  {
    if !ready then multiset{w}
    else
      var r := Pump(|text|, w.off, script);
      if r.done then multiset{} else multiset{w.(off := r.off)}
  }

  lemma {:induction false} UnpolledSurvives(w: Writer, text: Bytes, script: seq<WriteResult>)
    requires w.off <= |text|
    ensures Survivor(w, text, false, script) == multiset{w}
  {
  }

  ghost predicate Pumpable(ws: seq<Writer>, promised: map<nat, Bytes>)
  {
    forall i :: 0 <= i < |ws| ==> ws[i].fd in promised && ws[i].off <= |promised[ws[i].fd]|
  }

  /** The survivors of `ws`, each pumped at most once, with its own readiness and script. */
  ghost function Survivors(ws: seq<Writer>, promised: map<nat, Bytes>, ready: seq<bool>, scripts: seq<seq<WriteResult>>)
    : multiset<Writer>
    requires Pumpable(ws, promised) && |ws| <= |ready| && |ws| <= |scripts|
    decreases |ws|
  {
    if ws == [] then multiset{}
    else
      var n := |ws| - 1;
      Survivors(ws[..n], promised, ready, scripts) + Survivor(ws[n], promised[ws[n].fd], ready[n], scripts[n])
  }

  lemma {:induction false} SlotOk(p: Pastes, i: nat)
    requires Inv(p) && i < |p.writers|
    ensures WriterOk(p, p.writers[i])
  {
  }

  lemma {:induction false} InvPumpable(p: Pastes, n: nat)
    requires Inv(p) && n <= |p.writers|
    ensures Pumpable(p.writers[..n], p.promised)
  {
  }

  /** Pumping slot `i` keeps the slots below aligned and touches no slot above but by the swap. */
  lemma {:induction false} PumpSlotParts(p: Pastes, i: nat, script: seq<WriteResult>)
    requires Inv(p) && i < |p.writers| && WriterOk(p, p.writers[i])
    ensures var q := PumpSlot(p, i, script);
            && i <= |q.writers| && q.writers[..i] == p.writers[..i]
            && multiset(q.writers[i..]) ==
               Survivor(p.writers[i], p.promised[p.writers[i].fd], true, script) + multiset(p.writers[i + 1..])
  {
    var q := PumpSlot(p, i, script);
    if |q.writers| < |p.writers| {
      SwapRemoveParts(p.writers, i);
    } else {
      assert q.writers[i..] == [q.writers[i]] + p.writers[i + 1..];
    }
  }

  /**
    One pass, exactly: the polled writers become their survivors and the writers
    appended after the poll are kept as they were; none is lost or pumped twice.
   */
  lemma {:induction false} PassSurvivors(p: Pastes, n: nat, ready: seq<bool>, scripts: seq<seq<WriteResult>>)
    requires Inv(p) && n <= |p.writers| && n <= |ready| && n <= |scripts|
    ensures Pumpable(p.writers[..n], p.promised)
    ensures multiset(Pass(p, n, ready, scripts).writers) ==
            Survivors(p.writers[..n], p.promised, ready, scripts) + multiset(p.writers[n..])
    decreases n
  {
    hide Inv, WriterOk, PumpSlot, Survivor, Pump;
    InvPumpable(p, n);
    if n == 0 {
      assert p.writers[0..] == p.writers;
    } else {
      var i := n - 1;
      SlotOk(p, i);
      assert p.writers[..n][..i] == p.writers[..i];
      if ready[i] {
        var q := PumpSlot(p, i, scripts[i]);
        PumpSlotKeepsInv(p, i, scripts[i]);
        PumpSlotParts(p, i, scripts[i]);
        PassSurvivors(q, i, ready, scripts);
      } else {
        PassSurvivors(p, i, ready, scripts);
        UnpolledSurvives(p.writers[i], p.promised[p.writers[i].fd], scripts[i]);
        assert p.writers[i..] == [p.writers[i]] + p.writers[n..];
      }
    }
  }

  // ---- whole runs --------------------------------------------------------

  datatype Action =
    | Offered(t: nat, s: nat, bytes: Bytes)
    | SourceCancelled(s: nat)
    | SourceSend(s: nat, fd: nat, script: seq<WriteResult>)

  /** One callback, or `None` where its source is not live or an address is taken. */
  function Apply(p: Pastes, a: Action): Option<Pastes>
  {
    match a
    case Offered(t, s, bytes) =>
      if t !in p.texts && s !in p.sources then Some(Allocate(p, t, s, bytes)) else None
    case SourceCancelled(s) =>
      if s in p.sources && p.sources[s] in p.texts then Some(Cancel(p, s)) else None
    case SourceSend(s, fd, script) =>
      if s in p.sources && p.sources[s] in p.texts && fd !in p.pipes then Some(Send(p, s, fd, script)) else None
  }

  /** A turn of the poll loop: callbacks dispatched after the poll, then the pass. */
  datatype Turn = Turn(dispatched: seq<Action>, ready: seq<bool>, scripts: seq<seq<WriteResult>>)

  function ApplyAll(p: Pastes, acts: seq<Action>): Option<Pastes>
    decreases |acts|
  {
    if acts == [] then Some(p)
    else match Apply(p, acts[0])
      case None => None
      case Some(q) => ApplyAll(q, acts[1..])
  }

  lemma {:induction false} ApplyKeepsInv(p: Pastes, a: Action)
    requires Inv(p) && Apply(p, a).Some?
    ensures var q := Apply(p, a).value;
            && Inv(q) && p.writers <= q.writers
            && p.promised.Keys <= q.promised.Keys && forall fd :: fd in p.promised ==> q.promised[fd] == p.promised[fd]
  {
    hide Inv, Pump, Unref;
    match a
    case Offered(t, s, bytes) => AllocateKeepsInv(p, t, s, bytes);
    case SourceCancelled(s) => CancelKeepsInv(p, s);
    case SourceSend(s, fd, script) => SendKeepsInv(p, s, fd, script);
  }

  lemma {:induction false} DispatchAppends(p: Pastes, acts: seq<Action>)
    requires Inv(p) && ApplyAll(p, acts).Some?
    ensures var q := ApplyAll(p, acts).value;
            && Inv(q) && p.writers <= q.writers
            && p.promised.Keys <= q.promised.Keys && forall fd :: fd in p.promised ==> q.promised[fd] == p.promised[fd]
    decreases |acts|
  {
    hide Inv;
    if acts != [] {
      ApplyKeepsInv(p, acts[0]);
      DispatchAppends(Apply(p, acts[0]).value, acts[1..]);
    }
  }

  /** The state after one turn; `None` if some callback named a dead source. */
  ghost function TakeTurn(p: Pastes, turn: Turn): (r: Option<Pastes>)
    requires Inv(p)
    ensures r.Some? ==> Inv(r.value)
  {
    match ApplyAll(p, turn.dispatched)
    case None => None
    case Some(q) =>
      DispatchAppends(p, turn.dispatched);
      if |turn.ready| < |p.writers| || |turn.scripts| < |p.writers| then None
      else Some(Pass(q, |p.writers|, turn.ready, turn.scripts))
  }

  const EMPTY := Pastes(map[], map[], [], map[], map[], map[])

  ghost function TakeTurns(p: Pastes, turns: seq<Turn>): (r: Option<Pastes>)
    requires Inv(p)
    ensures r.Some? ==> Inv(r.value)
    decreases |turns|
  {
    if turns == [] then Some(p)
    else match TakeTurn(p, turns[0])
      case None => None
      case Some(q) => TakeTurns(q, turns[1..])
  }

  /** A turn uses the poll's own view of the table although dispatch has added to it since. */
  lemma {:induction false} TurnSurvivors(p: Pastes, turn: Turn)
    requires Inv(p) && TakeTurn(p, turn).Some?
    ensures Pumpable(p.writers, p.promised) && |p.writers| <= |turn.ready| && |p.writers| <= |turn.scripts|
    ensures p.writers <= ApplyAll(p, turn.dispatched).value.writers
    ensures multiset(TakeTurn(p, turn).value.writers) ==
            Survivors(p.writers, p.promised, turn.ready, turn.scripts)
            + multiset(ApplyAll(p, turn.dispatched).value.writers[|p.writers|..])
  {
    hide Inv;
    var q, n := ApplyAll(p, turn.dispatched).value, |p.writers|;
    DispatchAppends(p, turn.dispatched);
    PassSurvivors(q, n, turn.ready, turn.scripts);
    InvPumpable(p, n);
    assert p.writers[..n] == p.writers == q.writers[..n];
    SurvivorsAgree(p.writers, p.promised, q.promised, turn.ready, turn.scripts);
  }

  lemma {:induction false} SurvivorsAgree(ws: seq<Writer>, a: map<nat, Bytes>, b: map<nat, Bytes>,
                                          ready: seq<bool>, scripts: seq<seq<WriteResult>>)
    requires Pumpable(ws, a) && Pumpable(ws, b) && |ws| <= |ready| && |ws| <= |scripts|
    requires forall fd :: fd in a ==> fd in b && a[fd] == b[fd]
    ensures Survivors(ws, a, ready, scripts) == Survivors(ws, b, ready, scripts)
    decreases |ws|
  {
    if ws != [] {
      SurvivorsAgree(ws[..|ws| - 1], a, b, ready, scripts);
    }
  }

  /**
    Over every run of the poll loop: counts are exact and positive, so a text is
    freed exactly when its last holder goes, at most 16 pastes are in flight, and
    every client has received a prefix of the text it asked for.
   */
  lemma {:induction false} RunsKeepCountsExact(turns: seq<Turn>)
    requires TakeTurns(EMPTY, turns).Some?
    ensures var p := TakeTurns(EMPTY, turns).value;
            && (forall t :: t in p.texts ==>
                  p.texts[t].refs == (if t in p.sources.Values then 1 else 0) + Holders(p.writers, t) > 0)
            && (forall s :: s in p.sources ==>
                  p.sources[s] in p.texts && s in p.offered && p.texts[p.sources[s]].bytes == p.offered[s])
            && (forall i :: 0 <= i < |p.writers| ==> p.writers[i].text in p.texts)
            && |p.writers| <= MAX_WRITERS
            && (forall fd :: fd in p.pipes ==> fd in p.promised && p.pipes[fd] <= p.promised[fd])
  {
    var p := TakeTurns(EMPTY, turns).value;
    assert Inv(p);
    forall i | 0 <= i < |p.writers|
      ensures p.writers[i].text in p.texts
    {
      assert WriterOk(p, p.writers[i]);
    }
  }

  // ---- pastes that have left the table -----------------------------------

  /** The paste a callback loses: the table is full, or its first writes fail. */
  function LostInSend(p: Pastes, s: nat, fd: nat, script: seq<WriteResult>): set<nat>
    requires s in p.sources && p.sources[s] in p.texts
  {
    if |p.writers| == MAX_WRITERS || Fails(|p.texts[p.sources[s]].bytes|, 0, script) then {fd} else {}
  }

  function LostInPump(p: Pastes, i: nat, script: seq<WriteResult>): set<nat>
    requires i < |p.writers| && WriterOk(p, p.writers[i])
  {
    var w := p.writers[i];
    if Fails(|p.texts[w.text].bytes|, w.off, script) then {w.fd} else {}
  }

  predicate Writing(p: Pastes, fd: nat)
  {
    exists i :: 0 <= i < |p.writers| && p.writers[i].fd == fd
  }

  /** A client whose writer has left the table has its whole text, unless the paste was lost. */
  ghost predicate Delivers(p: Pastes, lost: set<nat>)
  {
    forall fd :: fd in p.pipes && fd in p.promised && !Writing(p, fd) && fd !in lost ==> p.pipes[fd] == p.promised[fd]
  }

  lemma {:induction false} WritingGrows(p: Pastes, q: Pastes, fd: nat)
    requires p.writers <= q.writers && Writing(p, fd)
    ensures Writing(q, fd)
  {
    var i :| 0 <= i < |p.writers| && p.writers[i].fd == fd;
    assert q.writers[i] == p.writers[i];
  }

  lemma {:induction false} SendDelivers(p: Pastes, s: nat, fd: nat, script: seq<WriteResult>, lost: set<nat>)
    requires Inv(p) && Delivers(p, lost) && s in p.sources && fd !in p.pipes
    ensures p.sources[s] in p.texts && Delivers(Send(p, s, fd, script), lost + LostInSend(p, s, fd, script))
  {
    assert p.sources[s] in p.texts;
    var q := Send(p, s, fd, script);
    hide Inv, Send, LostInSend;
    forall x | x in q.pipes && x in q.promised && !Writing(q, x) && x !in lost + LostInSend(p, s, fd, script)
      ensures q.pipes[x] == q.promised[x]
    {
      if x == fd {
        SendWhole(p, s, fd, script);
      } else {
        SendKeeps(p, s, fd, script, x);
      }
    }
  }

  /** A paste that is not lost is whole at once, or has its writer. */
  lemma {:induction false} SendWhole(p: Pastes, s: nat, fd: nat, script: seq<WriteResult>)
    requires s in p.sources && p.sources[s] in p.texts && fd !in p.pipes
    requires fd !in LostInSend(p, s, fd, script)
    ensures var q := Send(p, s, fd, script);
            fd in q.pipes && fd in q.promised && (Writing(q, fd) || q.pipes[fd] == q.promised[fd])
  {
    hide Fails;
    var q, bytes := Send(p, s, fd, script), p.texts[p.sources[s]].bytes;
    if |q.writers| > |p.writers| {
      assert q.writers[|p.writers|].fd == fd;
    }
    assert bytes[..|bytes|] == bytes;
  }

  /** The other clients keep their writers and what they have. */
  lemma {:induction false} SendKeeps(p: Pastes, s: nat, fd: nat, script: seq<WriteResult>, x: nat)
    requires s in p.sources && p.sources[s] in p.texts && fd !in p.pipes && x != fd
    ensures var q := Send(p, s, fd, script);
            && (Writing(p, x) ==> Writing(q, x))
            && (x in q.pipes ==> x in p.pipes && q.pipes[x] == p.pipes[x])
            && (x in q.promised ==> x in p.promised && q.promised[x] == p.promised[x])
  {
    hide Pump;
    if Writing(p, x) {
      WritingGrows(p, Send(p, s, fd, script), x);
    }
  }

  lemma {:induction false} PumpDelivers(p: Pastes, i: nat, script: seq<WriteResult>, lost: set<nat>)
    requires Inv(p) && Delivers(p, lost) && i < |p.writers| && WriterOk(p, p.writers[i])
    ensures Delivers(PumpSlot(p, i, script), lost + LostInPump(p, i, script))
  {
    var q, w := PumpSlot(p, i, script), p.writers[i];
    var bytes := p.texts[w.text].bytes;
    hide Inv, Pump, Fails;
    assert bytes[..|bytes|] == bytes;
    if |q.writers| == |p.writers| {
      assert q.writers[i].fd == w.fd;
    }
    forall x | x in q.pipes && x in q.promised && !Writing(q, x) && x !in lost + LostInPump(p, i, script)
      ensures q.pipes[x] == q.promised[x]
    {
      if x != w.fd {
        if Writing(p, x) {
          StillWriting(p, i, script, x);
        }
      }
    }
  }

  /** Pumping slot `i` takes no other client's writer away. */
  lemma {:induction false} StillWriting(p: Pastes, i: nat, script: seq<WriteResult>, fd: nat)
    requires i < |p.writers| && WriterOk(p, p.writers[i]) && Writing(p, fd) && fd != p.writers[i].fd
    ensures Writing(PumpSlot(p, i, script), fd)
  {
    hide Pump;
    var q, n := PumpSlot(p, i, script), |p.writers| - 1;
    var j :| 0 <= j < |p.writers| && p.writers[j].fd == fd;
    if |q.writers| == |p.writers| {
      assert q.writers[j].fd == fd;
    } else if j == n {
      assert q.writers[i].fd == fd;
    } else {
      assert q.writers[j].fd == fd;
    }
  }

  // ---- and over whole runs -----------------------------------------------

  function ApplyLost(p: Pastes, a: Action): set<nat>
  {
    if a.SourceSend? && a.s in p.sources && p.sources[a.s] in p.texts then LostInSend(p, a.s, a.fd, a.script) else {}
  }

  function DispatchLost(p: Pastes, acts: seq<Action>): set<nat>
    decreases |acts|
  {
    if acts == [] then {}
    else match Apply(p, acts[0])
      case None => {}
      case Some(q) => ApplyLost(p, acts[0]) + DispatchLost(q, acts[1..])
  }

  ghost function PassLost(p: Pastes, n: nat, ready: seq<bool>, scripts: seq<seq<WriteResult>>): set<nat>
    requires Inv(p) && n <= |p.writers| && n <= |ready| && n <= |scripts|
    decreases n
  {
    hide Inv, WriterOk, PumpSlot;
    if n == 0 then {}
    else if ready[n - 1] then
      PumpSlotInPass(p, n - 1, scripts[n - 1]);
      LostInPump(p, n - 1, scripts[n - 1]) + PassLost(PumpSlot(p, n - 1, scripts[n - 1]), n - 1, ready, scripts)
    else PassLost(p, n - 1, ready, scripts)
  }

  lemma {:induction false} ApplyDelivers(p: Pastes, a: Action, lost: set<nat>)
    requires Inv(p) && Delivers(p, lost) && Apply(p, a).Some?
    ensures Delivers(Apply(p, a).value, lost + ApplyLost(p, a))
  {
    if a.SourceSend? {
      SendDelivers(p, a.s, a.fd, a.script, lost);
    } else {
      var q := Apply(p, a).value;
      assert q.writers == p.writers && q.pipes == p.pipes && q.promised == p.promised;
      forall fd
        ensures Writing(q, fd) <==> Writing(p, fd)
      {
      }
    }
  }

  lemma {:induction false} DispatchDelivers(p: Pastes, acts: seq<Action>, lost: set<nat>)
    requires Inv(p) && Delivers(p, lost) && ApplyAll(p, acts).Some?
    ensures Delivers(ApplyAll(p, acts).value, lost + DispatchLost(p, acts))
    decreases |acts|
  {
    hide Inv, Delivers, Apply, ApplyLost;
    if acts == [] {
      assert lost + {} == lost;
    } else {
      ApplyKeepsInv(p, acts[0]);
      ApplyDelivers(p, acts[0], lost);
      var q := Apply(p, acts[0]).value;
      DispatchDelivers(q, acts[1..], lost + ApplyLost(p, acts[0]));
      assert lost + ApplyLost(p, acts[0]) + DispatchLost(q, acts[1..])
          == lost + (ApplyLost(p, acts[0]) + DispatchLost(q, acts[1..]));
    }
  }

  lemma {:induction false} PassDelivers(p: Pastes, n: nat, ready: seq<bool>, scripts: seq<seq<WriteResult>>, lost: set<nat>)
    requires Inv(p) && Delivers(p, lost) && n <= |p.writers| && n <= |ready| && n <= |scripts|
    ensures Delivers(Pass(p, n, ready, scripts), lost + PassLost(p, n, ready, scripts))
    decreases n
  {
    hide Inv, Delivers, WriterOk, PumpSlot, LostInPump;
    if n == 0 {
      assert lost + {} == lost;
    } else if ready[n - 1] {
      PumpSlotInPass(p, n - 1, scripts[n - 1]);
      PumpDelivers(p, n - 1, scripts[n - 1], lost);
      var q, more := PumpSlot(p, n - 1, scripts[n - 1]), LostInPump(p, n - 1, scripts[n - 1]);
      PassDelivers(q, n - 1, ready, scripts, lost + more);
      assert lost + more + PassLost(q, n - 1, ready, scripts) == lost + (more + PassLost(q, n - 1, ready, scripts));
    } else {
      PassDelivers(p, n - 1, ready, scripts, lost);
    }
  }

  ghost function TurnLost(p: Pastes, turn: Turn): set<nat>
    requires Inv(p)
  {
    match ApplyAll(p, turn.dispatched)
    case None => {}
    case Some(q) =>
      DispatchAppends(p, turn.dispatched);
      if |turn.ready| < |p.writers| || |turn.scripts| < |p.writers| then {}
      else DispatchLost(p, turn.dispatched) + PassLost(q, |p.writers|, turn.ready, turn.scripts)
  }

  /** The pastes lost in a run: dropped by a full table, or ended by a failed write. */
  ghost function RunLost(p: Pastes, turns: seq<Turn>): set<nat>
    requires Inv(p)
    decreases |turns|
  {
    if turns == [] then {}
    else match TakeTurn(p, turns[0])
      case None => {}
      case Some(q) => TurnLost(p, turns[0]) + RunLost(q, turns[1..])
  }

  lemma {:induction false} TurnDelivers(p: Pastes, turn: Turn, lost: set<nat>)
    requires Inv(p) && Delivers(p, lost) && TakeTurn(p, turn).Some?
    ensures Delivers(TakeTurn(p, turn).value, lost + TurnLost(p, turn))
  {
    hide Inv, Delivers, Pass, PassLost, DispatchLost;
    var q := ApplyAll(p, turn.dispatched).value;
    DispatchAppends(p, turn.dispatched);
    DispatchDelivers(p, turn.dispatched, lost);
    var first := DispatchLost(p, turn.dispatched);
    PassDelivers(q, |p.writers|, turn.ready, turn.scripts, lost + first);
    var more := PassLost(q, |p.writers|, turn.ready, turn.scripts);
    assert lost + first + more == lost + (first + more);
  }

  lemma {:induction false} TurnsDeliver(p: Pastes, turns: seq<Turn>, lost: set<nat>)
    requires Inv(p) && Delivers(p, lost) && TakeTurns(p, turns).Some?
    ensures Delivers(TakeTurns(p, turns).value, lost + RunLost(p, turns))
    decreases |turns|
  {
    hide Inv, Delivers, TakeTurn, TurnLost;
    if turns == [] {
      assert lost + {} == lost;
    } else {
      TurnDelivers(p, turns[0], lost);
      var q, more := TakeTurn(p, turns[0]).value, TurnLost(p, turns[0]);
      TurnsDeliver(q, turns[1..], lost + more);
      assert lost + more + RunLost(q, turns[1..]) == lost + (more + RunLost(q, turns[1..]));
    }
  }

  /**
    Over every run: a client whose writer has left the table holds the whole text it
    was promised, unless its paste was dropped by a full table or a write to it failed.
   */
  lemma {:induction false} FinishedPastesWhole(turns: seq<Turn>, fd: nat)
    requires TakeTurns(EMPTY, turns).Some?
    ensures var p := TakeTurns(EMPTY, turns).value;
            fd in p.pipes && !Writing(p, fd) && fd !in RunLost(EMPTY, turns)
            ==> fd in p.promised && p.pipes[fd] == p.promised[fd]
  {
    TurnsDeliver(EMPTY, turns, {});
    assert {} + RunLost(EMPTY, turns) == RunLost(EMPTY, turns);
  }

  // ---- how much a pass sends ---------------------------------------------

  /** How many bytes the answers take before one that blocks or fails. */
  function Taken(script: seq<WriteResult>): nat
  {
    if script == [] then 0
    else match script[0]
      case Wrote(n) => if n == 0 then 0 else n + Taken(script[1..])
      case Interrupted => Taken(script[1..])
      case WouldBlock => 0
      case Broken => 0
  }

  function Least(a: nat, b: nat): nat { if a < b then a else b }

  /** A pump sends exactly what write() takes, up to the end of the text. */
  lemma {:induction false} PumpSends(len: nat, off: nat, script: seq<WriteResult>)
    requires off <= len
    ensures Pump(len, off, script).off == Least(len, off + Taken(script))
    decreases |script|
  {
    hide Fails;
    if off < len && script != [] {
      match script[0]
      case Wrote(n) =>
        if n > 0 {
          PumpSends(len, off + if n < len - off then n else len - off, script[1..]);
        }
      case Interrupted => PumpSends(len, off, script[1..]);
      case _ =>
    }
  }

  lemma {:induction false} SlotSends(p: Pastes, i: nat, script: seq<WriteResult>, fd: nat)
    requires i < |p.writers| && WriterOk(p, p.writers[i]) && fd in p.pipes
    ensures var q, w := PumpSlot(p, i, script), p.writers[i]; var text := p.promised[w.fd];
            && fd in q.pipes
            && q.pipes[fd] == if fd == w.fd then text[..Least(|text|, w.off + Taken(script))] else p.pipes[fd]
  {
    var w := p.writers[i];
    PumpSends(|p.texts[w.text].bytes|, w.off, script);
    hide Pump, Unref, SwapRemove, Taken;
  }

  /** A pass leaves alone the clients of writers that were not polled. */
  lemma {:induction false} PassLeaves(p: Pastes, n: nat, ready: seq<bool>, scripts: seq<seq<WriteResult>>, fd: nat)
    requires Inv(p) && n <= |p.writers| && n <= |ready| && n <= |scripts|
    requires fd in p.pipes && forall j :: 0 <= j < n ==> p.writers[j].fd != fd
    ensures var q := Pass(p, n, ready, scripts); fd in q.pipes && q.pipes[fd] == p.pipes[fd]
    decreases n
  {
    hide Inv, WriterOk, PumpSlot, Survivor, Pump, Taken;
    if n > 0 {
      var i := n - 1;
      SlotOk(p, i);
      if ready[i] {
        var q := PumpSlot(p, i, scripts[i]);
        PumpSlotKeepsInv(p, i, scripts[i]);
        PumpSlotParts(p, i, scripts[i]);
        SlotSends(p, i, scripts[i], fd);
        assert forall j :: 0 <= j < i ==> q.writers[j] == q.writers[..i][j] == p.writers[..i][j] == p.writers[j];
        PassLeaves(q, i, ready, scripts, fd);
      } else {
        PassLeaves(p, i, ready, scripts, fd);
      }
    }
  }

  lemma {:induction false} OwnFd(p: Pastes, i: nat)
    requires Inv(p) && i < |p.writers|
    ensures var w := p.writers[i];
            && WriterOk(p, w) && w.fd in p.pipes && w.fd in p.promised && w.off < |p.promised[w.fd]|
            && p.pipes[w.fd] == p.promised[w.fd][..w.off]
            && forall j :: 0 <= j < i ==> p.writers[j].fd != w.fd
  {
  }

  /**
    One pass: the client of a polled writer has its text up to what its own answers
    took if the poll found it ready, and up to where it was otherwise.
   */
  lemma {:induction false} PassSends(p: Pastes, n: nat, ready: seq<bool>, scripts: seq<seq<WriteResult>>, i: nat)
    requires Inv(p) && i < n <= |p.writers| && n <= |ready| && n <= |scripts|
    ensures var q, w := Pass(p, n, ready, scripts), p.writers[i];
            && w.fd in p.promised && w.off < |p.promised[w.fd]| && w.fd in q.pipes
            && var text := p.promised[w.fd];
               q.pipes[w.fd] == text[..if ready[i] then Least(|text|, w.off + Taken(scripts[i])) else w.off]
    decreases n
  {
    hide Inv, WriterOk, PumpSlot, Survivor, Pump, Taken;
    var k, w := n - 1, p.writers[i];
    SlotOk(p, k);
    OwnFd(p, i);
    if ready[k] {
      var q := PumpSlot(p, k, scripts[k]);
      PumpSlotInPass(p, k, scripts[k]);
      PumpSlotParts(p, k, scripts[k]);
      SlotSends(p, k, scripts[k], w.fd);
      assert forall j :: 0 <= j < k ==> q.writers[j] == q.writers[..k][j] == p.writers[..k][j] == p.writers[j];
      if i == k {
        PassLeaves(q, k, ready, scripts, w.fd);
      } else {
        PassSends(q, k, ready, scripts, i);
      }
    } else if i == k {
      PassLeaves(p, k, ready, scripts, w.fd);
    } else {
      PassSends(p, k, ready, scripts, i);
    }
  }
}
