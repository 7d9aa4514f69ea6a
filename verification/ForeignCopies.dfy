/**
  Which foreign selections reach the host, and as what.

  The protocol and the copy-out reader run together. Each read the agent opens is a
  `receive` on its way to the compositor. When it is served the offer may no longer be
  the selection: the compositor then closes the pipe unread, and the agent finds an
  empty text in it. Otherwise the pipe goes to the source's client, which writes its
  text, or a part of it, and closes it. `ReportedExactly` says, for every continuation of
  every run, when the text of an announced foreign selection is reported.
 */
module ForeignCopies {
  import opened Basics
  import opened SelectionProtocol
  import opened SelectionSafety
  import opened SelectionTheorems
  import Dev = ClipboardDevice
  import CopyOut

  /** Where the write end of a pipe is: in a request, with the source's client, or closed unread. */
  datatype Fate = Asked | Sent | Stale

  /** `fates[k]` belongs to the k-th pipe opened; the first `served` have been served. */
  datatype Desk = Desk(sys: System, fates: seq<Fate>, served: nat, copy: CopyOut.CopyState)

  datatype Move =
    | Sys(action: Action)
    | Write(k: nat, n: nat)                                    // the client writes up to n bytes
    | Close(k: nat)                                            // the client closes, or exits
    | Read(script: seq<CopyOut.ReadAnswer>, memory: bool)

  /** The text of each foreign source. */
  type Texts = nat -> Bytes

  function Start(sel: Selection): Desk
  {
    Desk(Boot(sel), [], 0, CopyOut.START)
  }

  /** The dispatch that opens a copy-out read. */
  predicate Opens(s: System, a: Action)
  {
    a.Deliver? && a.pipeOk && s.evs != [] && s.evs[0].Announce? && s.agent.owned.None? && IsText(s.evs[0].sel)
  }

  /** offer_receive: the pipe goes to the current source's client, or is closed. */
  function FateOf(c: Compositor, src: Source): Fate
  {
    if c.sel.Selected? && c.sel.source == src then Sent else Stale
  }

  function TextOf(d: Desk, texts: Texts, k: nat): Bytes
  {
    if k < |d.sys.agent.copies| then texts(d.sys.agent.copies[k].id) else []
  }

  function Moved(d: Desk, m: Move, texts: Texts): Option<Desk>
  {
    match m
    case Sys(a) =>
      var next := Step(d.sys, a);
      if next.None? then None
      else if Opens(d.sys, a) then
        Some(Desk(next.value, d.fates + [Asked], d.served, CopyOut.Next(d.copy, CopyOut.Selected)))
      else if a.Serve? && d.sys.reqs[0].Receive? && d.served < |d.fates| then
        var fate := FateOf(d.sys.comp, d.sys.reqs[0].source);
        Some(Desk(next.value, d.fates[d.served := fate], d.served + 1,
                  if fate.Stale? then CopyOut.Next(d.copy, CopyOut.HungUp(d.served)) else d.copy))
      else Some(d.(sys := next.value))
    case Write(k, n) =>
      if k < |d.fates| && d.fates[k].Sent? && k < |d.copy.sessions| && |d.copy.sessions[k].data| < |TextOf(d, texts, k)| then
        var from, text := |d.copy.sessions[k].data|, TextOf(d, texts, k);
        var end := if from + n < |text| then from + n else |text|;
        Some(d.(copy := CopyOut.Next(d.copy, CopyOut.Written(k, text[from..end]))))
      else Some(d)
    case Close(k) =>
      if k < |d.fates| && d.fates[k].Sent?
      then Some(d.(copy := CopyOut.Next(d.copy, CopyOut.HungUp(k))))
      else Some(d)
    case Read(script, memory) => Some(d.(copy := CopyOut.Next(d.copy, CopyOut.Readable(script, memory))))
  }

  function Play(d: Desk, moves: seq<Move>, texts: Texts): Option<Desk>
    decreases |moves|
  {
    if moves == [] then Some(d)
    else match Moved(d, moves[0], texts)
      case None => None
      case Some(d') => Play(d', moves[1..], texts)
  }

  // ---- the invariant -----------------------------------------------------

  /** The sources of the reads still to be served, in order. */
  function Receives(reqs: seq<Request>): seq<Source>
  {
    if reqs == [] then []
    else if reqs[0].Receive? then [reqs[0].source] + Receives(reqs[1..])
    else Receives(reqs[1..])
  }

  /** What pipe `k` can hold. */
  predicate SessionOk(d: Desk, texts: Texts, k: nat)
    requires k < |d.fates| == |d.copy.sessions| == |d.sys.agent.copies|
  {
    var s := d.copy.sessions[k];
    match d.fates[k]
    case Asked => k >= d.served && s == CopyOut.Session([], false)
    case Stale => k < d.served && s == CopyOut.Session([], true)
    case Sent => k < d.served && s.data <= TextOf(d, texts, k)
  }

  ghost predicate SessionsOk(d: Desk, texts: Texts)
    requires |d.fates| == |d.copy.sessions| == |d.sys.agent.copies|
  {
    forall k :: 0 <= k < |d.fates| ==> SessionOk(d, texts, k)
  }

  ghost predicate DeskInv(d: Desk, texts: Texts)
  {
    && Inv(d.sys) && CopyOut.Inv(d.copy)
    && |d.fates| == |d.copy.sessions| == |d.sys.agent.copies| && d.served <= |d.fates|
    && Receives(d.sys.reqs) == d.sys.agent.copies[d.served..]
    && SessionsOk(d, texts)
    && (!d.sys.comp.bound ==> d.sys.evs == [] && d.sys.agent.copies == [])
  }

  lemma {:induction false} ReceivesAppend(reqs: seq<Request>, r: Request)
    ensures Receives(reqs + [r]) == if r.Receive? then Receives(reqs) + [r.source] else Receives(reqs)
  {
    if reqs == [] {
      assert reqs + [r] == [r] && [r][1..] == [];
    } else {
      assert (reqs + [r])[0] == reqs[0] && (reqs + [r])[1..] == reqs[1..] + [r];
      ReceivesAppend(reqs[1..], r);
    }
  }

  lemma {:induction false} StartInv(sel: Selection, texts: Texts)
    requires !(sel.Selected? && sel.source.Own?)
    ensures DeskInv(Start(sel), texts)
  {
    BootInv(sel);
    assert Receives([GetDevice, Sync]) == [] by {
      assert [GetDevice, Sync][1..] == [Sync] && [Sync][1..] == [];
    }
  }

  /** A dispatch adds at most one request; only an opening one adds a read. */
  lemma {:induction false} DispatchReceives(s: System, pipeOk: bool)
    requires s.evs != []
    ensures var s' := Delivered(s, pipeOk);
            && s'.comp == s.comp
            && (Opens(s, Deliver(pipeOk)) ==>
                  && s'.agent.copies == s.agent.copies + [s.evs[0].sel.source]
                  && Receives(s'.reqs) == Receives(s.reqs) + [s.evs[0].sel.source])
            && (!Opens(s, Deliver(pipeOk)) ==>
                  s'.agent.copies == s.agent.copies && Receives(s'.reqs) == Receives(s.reqs))
  {
    hide IsText;
    var rs := Dispatch(s.agent, s.evs[0], pipeOk).requests;
    if rs == [] {
      assert s.reqs + rs == s.reqs;
    } else {
      assert rs == [rs[0]];
      ReceivesAppend(s.reqs, rs[0]);
    }
  }

  // ---- every move keeps it -----------------------------------------------

  lemma {:induction false} SameSessions(d: Desk, d': Desk, texts: Texts)
    requires |d.fates| == |d.copy.sessions| == |d.sys.agent.copies| && SessionsOk(d, texts)
    requires d' == d.(sys := d'.sys) && d'.sys.agent.copies == d.sys.agent.copies
    ensures SessionsOk(d', texts)
  {
    forall k | 0 <= k < |d.fates|
      ensures SessionOk(d', texts, k)
    {
      assert SessionOk(d, texts, k);
    }
  }

  lemma {:induction false} OpenKeepsInv(d: Desk, texts: Texts)
    requires DeskInv(d, texts) && Opens(d.sys, Deliver(true))
    ensures DeskInv(Moved(d, Sys(Deliver(true)), texts).value, texts)
  {
    hide Inv, Dispatch, CopyOut.Inv, SessionOk;
    var d' := Moved(d, Sys(Deliver(true)), texts).value;
    assert d'.sys == Delivered(d.sys, true);
    DeliverKeepsInv(d.sys, true);
    DispatchReceives(d.sys, true);
    CopyOut.NextKeepsInv(d.copy, CopyOut.Selected);
    hide Delivered, Step, Receives;
    var n := |d.fates|;
    assert d'.sys.agent.copies[d.served..] == d.sys.agent.copies[d.served..] + [d.sys.evs[0].sel.source];
    forall k | 0 <= k <= n
      ensures SessionOk(d', texts, k)
    {
      NewSession(d, d', texts, k);
    }
  }

  lemma {:induction false} NewSession(d: Desk, d': Desk, texts: Texts, k: nat)
    requires |d.fates| == |d.copy.sessions| == |d.sys.agent.copies| && SessionsOk(d, texts) && d.served <= |d.fates|
    requires d'.fates == d.fates + [Asked] && d'.copy.sessions == d.copy.sessions + [CopyOut.Session([], false)]
    requires |d'.sys.agent.copies| == |d.fates| + 1 && d.sys.agent.copies <= d'.sys.agent.copies
    requires d'.served == d.served && k <= |d.fates|
    ensures SessionOk(d', texts, k)
  {
    if k < |d.fates| {
      assert SessionOk(d, texts, k);
      assert d'.sys.agent.copies[k] == d.sys.agent.copies[k];
    }
  }

  /** Steps that neither open a read nor serve one. */
  predicate Plain(s: System, a: Action)
  {
    !Opens(s, a) && !(a.Serve? && s.reqs != [] && s.reqs[0].Receive?)
  }

  lemma {:induction false} PlainReceives(s: System, a: Action)
    requires Inv(s) && Step(s, a).Some? && Plain(s, a)
    ensures var s' := Step(s, a).value; s'.agent.copies == s.agent.copies && Receives(s'.reqs) == Receives(s.reqs)
  {
    hide Inv, IsText;
    match a
    case OfferText =>
      var id := s.agent.next;
      ReceivesAppend(s.reqs, SetSelection(id));
      ReceivesAppend(s.reqs + [SetSelection(id)], Sync);
      assert s.reqs + [SetSelection(id), Sync] == s.reqs + [SetSelection(id)] + [Sync];
    case Deliver(pipeOk) =>
      assert Step(s, a).value == Delivered(s, pipeOk);
      DispatchReceives(s, pipeOk);
    case _ =>
  }

  /** Before the device is bound the agent hears nothing. */
  lemma {:induction false} UnboundQuiet(s: System, a: Action)
    requires Inv(s) && Step(s, a).Some? && !Step(s, a).value.comp.bound && s.evs == [] && s.agent.copies == []
    ensures !s.comp.bound && Step(s, a).value.evs == [] && Step(s, a).value.agent.copies == []
  {
    FirstControl(s.reqs);
    assert a.Serve? ==> Harmless(s.reqs[0], s.agent.live, s.agent.next);
    assert CancelOld(s.comp.sel) == [];
  }

  lemma {:induction false} PlainKeepsInv(d: Desk, a: Action, texts: Texts)
    requires DeskInv(d, texts) && Step(d.sys, a).Some? && Plain(d.sys, a)
    ensures DeskInv(Moved(d, Sys(a), texts).value, texts)
  {
    var s' := Step(d.sys, a).value;
    StepKeepsInv(d.sys, a);
    PlainReceives(d.sys, a);
    BoundStays(d.sys, a);
    if !s'.comp.bound {
      UnboundQuiet(d.sys, a);
    }
    hide Inv, Step, Receives, SessionsOk, CopyOut.Inv, Opens;
    assert Moved(d, Sys(a), texts).value == d.(sys := s');
    SameSessions(d, d.(sys := s'), texts);
  }

  lemma {:induction false} BoundStays(s: System, a: Action)
    requires Step(s, a).Some?
    ensures s.comp.bound ==> Step(s, a).value.comp.bound
  {
  }

  lemma {:induction false} ReceiveServed(d: Desk, texts: Texts)
    requires DeskInv(d, texts) && d.sys.reqs != [] && d.sys.reqs[0].Receive?
    ensures var s' := Served(d.sys);
            && d.served < |d.fates| && d.sys.agent.copies[d.served] == d.sys.reqs[0].source && d.sys.reqs[0].source.Foreign?
            && s' == d.sys.(reqs := d.sys.reqs[1..])
            && Receives(s'.reqs) == d.sys.agent.copies[d.served + 1..]
            && d.sys.comp.bound
  {
    var copies := d.sys.agent.copies;
    assert Harmless(d.sys.reqs[0], d.sys.agent.live, d.sys.agent.next);
    assert Receives(d.sys.reqs)[0] == d.sys.reqs[0].source;
    assert copies[d.served..][1..] == copies[d.served + 1..] && Receives(d.sys.reqs)[1..] == Receives(d.sys.reqs[1..]);
    assert d.sys.evs + [] == d.sys.evs;
  }

  lemma {:induction false} ServeKeepsInv(d: Desk, texts: Texts)
    requires DeskInv(d, texts) && d.sys.reqs != [] && d.sys.reqs[0].Receive?
    ensures DeskInv(Moved(d, Sys(Serve), texts).value, texts)
  {
    ReceiveServed(d, texts);
    StepKeepsInv(d.sys, Serve);
    CopyOut.NextKeepsInv(d.copy, CopyOut.HungUp(d.served));
    hide Inv, CopyOut.Inv, Receives;
    var d' := Moved(d, Sys(Serve), texts).value;
    assert d'.sys == Served(d.sys);
    forall k | 0 <= k < |d.fates|
      ensures SessionOk(d', texts, k)
    {
      assert SessionOk(d, texts, k);
      assert SessionOk(d, texts, d.served);
    }
  }

  /** A change of pipe `k` alone, or of none. */
  lemma {:induction false} PipeChanged(d: Desk, d': Desk, texts: Texts, k: nat)
    requires DeskInv(d, texts) && d' == d.(copy := d'.copy) && |d'.copy.sessions| == |d.copy.sessions|
    requires CopyOut.Inv(d'.copy) && (k < |d.fates| ==> SessionOk(d', texts, k))
    requires forall i :: 0 <= i < |d.fates| && i != k ==> d'.copy.sessions[i] == d.copy.sessions[i]
    ensures DeskInv(d', texts)
  {
    hide Inv, Receives, CopyOut.Inv;
    forall i | 0 <= i < |d.fates|
      ensures SessionOk(d', texts, i)
    {
      assert SessionOk(d, texts, i);
    }
  }

  lemma {:induction false} WriteKeepsInv(d: Desk, k: nat, n: nat, texts: Texts)
    requires DeskInv(d, texts)
    ensures DeskInv(Moved(d, Write(k, n), texts).value, texts)
  {
    hide Inv, Receives, CopyOut.Inv;
    var d' := Moved(d, Write(k, n), texts).value;
    if d' != d {
      var from, text := |d.copy.sessions[k].data|, TextOf(d, texts, k);
      var bytes := text[from..if from + n < |text| then from + n else |text|];
      assert SessionOk(d, texts, k);
      LongerPrefix(d.copy.sessions[k].data, text, |bytes|);
      CopyOut.NextKeepsInv(d.copy, CopyOut.Written(k, bytes));
      hide SessionsOk;
      PipeChanged(d, d', texts, k);
    }
  }

  lemma {:induction false} LongerPrefix(data: Bytes, text: Bytes, n: nat)
    requires data <= text && |data| + n <= |text|
    ensures data + text[|data|..|data| + n] <= text
  {
  }

  lemma {:induction false} CloseKeepsInv(d: Desk, k: nat, texts: Texts)
    requires DeskInv(d, texts)
    ensures DeskInv(Moved(d, Close(k), texts).value, texts)
  {
    CopyOut.NextKeepsInv(d.copy, CopyOut.HungUp(k));
    assert k < |d.fates| ==> SessionOk(d, texts, k);
    hide Inv, Receives, CopyOut.Inv, SessionsOk;
    PipeChanged(d, Moved(d, Close(k), texts).value, texts, k);
  }

  lemma {:induction false} ReadKeepsInv(d: Desk, script: seq<CopyOut.ReadAnswer>, memory: bool, texts: Texts)
    requires DeskInv(d, texts)
    ensures DeskInv(Moved(d, Read(script, memory), texts).value, texts)
  {
    CopyOut.NextKeepsInv(d.copy, CopyOut.Readable(script, memory));
    hide Inv, Receives, CopyOut.Inv, SessionsOk, CopyOut.Drain;
    PipeChanged(d, Moved(d, Read(script, memory), texts).value, texts, |d.fates|);
  }

  lemma {:induction false} PipeKeepsInv(d: Desk, m: Move, texts: Texts)
    requires DeskInv(d, texts) && !m.Sys?
    ensures Moved(d, m, texts).Some? && DeskInv(Moved(d, m, texts).value, texts)
  {
    hide DeskInv, CopyOut.Next;
    match m {
      case Write(k, n) => WriteKeepsInv(d, k, n, texts);
      case Close(k) => CloseKeepsInv(d, k, texts);
      case Read(script, memory) => ReadKeepsInv(d, script, memory, texts);
    }
  }

  lemma {:induction false} MoveKeepsInv(d: Desk, m: Move, texts: Texts)
    requires DeskInv(d, texts) && Moved(d, m, texts).Some?
    ensures DeskInv(Moved(d, m, texts).value, texts)
  {
    hide DeskInv, Moved;
    if !m.Sys? {
      PipeKeepsInv(d, m, texts);
    } else {
      SysEnabled(d, m.action, texts);
      if Opens(d.sys, m.action) {
        OpenKeepsInv(d, texts);
      } else if Plain(d.sys, m.action) {
        PlainKeepsInv(d, m.action, texts);
      } else {
        ServeKeepsInv(d, texts);
      }
    }
  }

  lemma {:induction false} SysEnabled(d: Desk, a: Action, texts: Texts)
    requires Moved(d, Sys(a), texts).Some?
    ensures Step(d.sys, a).Some? && (a.Serve? ==> d.sys.reqs != []) && (Opens(d.sys, a) ==> a == Deliver(true))
  {
  }

  lemma {:induction false} PlayKeepsInv(d: Desk, moves: seq<Move>, texts: Texts)
    requires DeskInv(d, texts) && Play(d, moves, texts).Some?
    ensures DeskInv(Play(d, moves, texts).value, texts)
    decreases |moves|
  {
    hide DeskInv, Moved;
    if moves != [] {
      MoveKeepsInv(d, moves[0], texts);
      PlayKeepsInv(Moved(d, moves[0], texts).value, moves[1..], texts);
    }
  }

  // ---- what a report holds -----------------------------------------------

  /** Some run of some desktop leads to `d`. */
  ghost predicate Reaches(d: Desk, texts: Texts)
  {
    exists sel: Selection, moves: seq<Move> ::
      !(sel.Selected? && sel.source.Own?) && Play(Start(sel), moves, texts) == Some(d)
  }

  lemma {:induction false} ReachesInv(d: Desk, texts: Texts)
    requires Reaches(d, texts)
    ensures DeskInv(d, texts)
  {
    var sel: Selection, moves: seq<Move> :|
      !(sel.Selected? && sel.source.Own?) && Play(Start(sel), moves, texts) == Some(d);
    StartInv(sel, texts);
    PlayKeepsInv(Start(sel), moves, texts);
  }

  /**
    Over every run each report carries what the client of its foreign source wrote before
    it closed the pipe, which is the start of that source's text, or an empty text when
    the compositor closed the pipe unread. It is the whole text exactly when the client
    wrote all of it.
   */
  lemma {:induction false} ReportsExactly(d: Desk, texts: Texts, r: CopyOut.Report)
    requires Reaches(d, texts) && r in d.copy.reports
    ensures r.session < d.served <= |d.fates| == |d.sys.agent.copies| == |d.copy.sessions|
    ensures d.sys.agent.copies[r.session].Foreign?
    ensures var s, text := d.copy.sessions[r.session], texts(d.sys.agent.copies[r.session].id);
            && s.closed && s.data <= text && (d.fates[r.session].Stale? ==> s.data == [])
            && |s.data| <= Dev.MAX_TEXT_BYTES && r.record == CopyOut.GuestRecord(s.data)
            && (|text| <= Dev.MAX_TEXT_BYTES ==> (r.record == CopyOut.GuestRecord(text) <==> |s.data| == |text|))
  {
    ReachesInv(d, texts);
    assert SessionOk(d, texts, r.session);
    var src := d.sys.agent.copies[r.session];
    assert src in d.sys.agent.copies;
    var data, text := d.copy.sessions[r.session].data, texts(src.id);
    if |data| <= Dev.MAX_TEXT_BYTES && |text| <= Dev.MAX_TEXT_BYTES && data != text {
      CopyOut.RecordsDiffer(data, text);
    }
    assert |data| == |text| ==> data == text;
  }

  /**
    A read is served too late if and only if the selection the agent will have seen,
    once it has dispatched everything queued, is another one.
   */
  lemma {:induction false} ServedUnreadExactly(d: Desk, texts: Texts)
    requires Reaches(d, texts) && d.sys.reqs != [] && d.sys.reqs[0].Receive?
    ensures d.served < |d.fates| && Moved(d, Sys(Serve), texts).Some?
    ensures var end := Replay(ViewOf(d.sys.agent), d.sys.evs).seen;
            Moved(d, Sys(Serve), texts).value.fates[d.served].Stale?
            <==> !(end.Selected? && end.source == d.sys.reqs[0].source)
  {
    ReachesInv(d, texts);
    ReceiveServed(d, texts);
  }

  // ---- a selection and its report ----------------------------------------

  lemma {:induction false} PlayConcat(d: Desk, first: seq<Move>, second: seq<Move>, texts: Texts)
    requires Play(d, first, texts).Some?
    ensures Play(d, first + second, texts) == Play(Play(d, first, texts).value, second, texts)
    decreases |first|
  {
    hide Moved;
    if first == [] {
      assert first + second == second;
    } else {
      assert (first + second)[0] == first[0] && (first + second)[1..] == first[1..] + second;
      PlayConcat(Moved(d, first[0], texts).value, first[1..], second, texts);
    }
  }

  /** While the flag is clear no request changes the selection. */
  lemma {:induction false} QuietServe(s: System)
    requires Inv(s) && s.agent.owned.None? && s.reqs != []
    ensures Served(s).comp.sel == s.comp.sel
  {
    FirstControl(s.reqs);
    ReplayShrinks(ViewOf(s.agent), s.evs);
    assert Residue(s) == {};
  }

  lemma {:induction false} ServeOne(d: Desk, texts: Texts)
    requires DeskInv(d, texts) && d.sys.reqs != []
    ensures Moved(d, Sys(Serve), texts).Some?
    ensures var e := Moved(d, Sys(Serve), texts).value;
            && e.sys.reqs == d.sys.reqs[1..] && e.sys.agent == d.sys.agent
            && (d.sys.agent.owned.None? ==> e.sys.comp.sel == d.sys.comp.sel)
            && e.copy.reading == d.copy.reading && |e.fates| == |d.fates| && |e.copy.sessions| == |d.copy.sessions|
            && (forall k :: 0 <= k < |d.fates| ==> e.copy.sessions[k].data == d.copy.sessions[k].data)
            && (forall k :: 0 <= k < |d.fates| && e.copy.sessions[k].closed ==> d.copy.sessions[k].closed || e.fates[k].Stale?)
            && d.served <= e.served <= d.served + 1
            && (forall k :: 0 <= k < |d.fates| && !(d.served <= k < e.served) ==> e.fates[k] == d.fates[k])
            && (e.served > d.served ==> e.fates[d.served] == FateOf(d.sys.comp, d.sys.agent.copies[d.served]))
  {
    if d.sys.reqs[0].Receive? {
      ReceiveServed(d, texts);
    }
    if d.sys.agent.owned.None? {
      QuietServe(d.sys);
    }
    assert Step(d.sys, Serve) == Some(Served(d.sys));
  }

  function Serves(n: nat): seq<Move>
  {
    seq(n, _ => Sys(Serve))
  }

  /** Serving everything queued decides every read, by what is selected now. */
  lemma {:induction false} ServeAll(d: Desk, texts: Texts, k: nat)
    requires DeskInv(d, texts) && k < |d.fates|
    ensures var n := |d.sys.reqs|; Play(d, Serves(n), texts).Some?
    ensures var e := Play(d, Serves(|d.sys.reqs|), texts).value;
            && DeskInv(e, texts) && e.sys.agent == d.sys.agent && |e.fates| == |d.fates|
            && e.copy.reading == d.copy.reading && e.copy.sessions[k].data == d.copy.sessions[k].data
            && (d.sys.agent.owned.None? && d.served <= k ==>
                  e.fates[k] == FateOf(d.sys.comp, d.sys.agent.copies[k]))
            && (k < d.served ==> e.fates[k] == d.fates[k])
            && (e.copy.sessions[k].closed ==> d.copy.sessions[k].closed || e.fates[k].Stale?)
    decreases |d.sys.reqs|
  {
    hide Moved, Inv, CopyOut.Inv, SessionsOk;
    var n := |d.sys.reqs|;
    if n == 0 {
      assert Serves(n) == [];
    } else {
      ServeOne(d, texts);
      MoveKeepsInv(d, Sys(Serve), texts);
      var e := Moved(d, Sys(Serve), texts).value;
      assert Serves(n)[0] == Sys(Serve) && Serves(n)[1..] == Serves(n - 1);
      ServeAll(e, texts, k);
      StaleServed(e, texts, k);
    }
  }

  lemma {:induction false} StaleServed(d: Desk, texts: Texts, k: nat)
    requires DeskInv(d, texts) && k < |d.fates|
    ensures d.fates[k].Stale? ==> k < d.served
  {
    assert SessionOk(d, texts, k);
  }

  lemma {:induction false} ServeNone(d: Desk, texts: Texts)
    requires DeskInv(d, texts) && d.fates == []
    ensures Play(d, Serves(|d.sys.reqs|), texts).Some?
    ensures var e := Play(d, Serves(|d.sys.reqs|), texts).value; DeskInv(e, texts) && |e.fates| == 0
    decreases |d.sys.reqs|
  {
    hide Moved, Inv, CopyOut.Inv, SessionsOk;
    var n := |d.sys.reqs|;
    if n == 0 {
      assert Serves(n) == [];
    } else {
      ServeOne(d, texts);
      MoveKeepsInv(d, Sys(Serve), texts);
      assert Serves(n)[0] == Sys(Serve) && Serves(n)[1..] == Serves(n - 1);
      ServeNone(Moved(d, Sys(Serve), texts).value, texts);
    }
  }

  /** The client of pipe `k` writes its whole text and closes; then the agent reads to the end. */
  function Finish(k: nat, n: nat): seq<Move>
  {
    [Write(k, n), Close(k), Read(seq(n + 1, _ => CopyOut.Ready(0, true)), true)]
  }

  /** The announcement is dispatched, everything queued is served, and the pipe is written and read. */
  function Prompt(d: Desk, text: Bytes): seq<Move>
    requires d.sys.evs != []
  {
    [Sys(Deliver(true))] + Serves(|Delivered(d.sys, true).reqs|) + Finish(|d.fates|, |text|)
  }

  lemma {:induction false} ReadyEnough(n: nat, m: nat)
    requires m <= n
    ensures CopyOut.Enough(seq(n, _ => CopyOut.Ready(0, true)), m)
    decreases n
  {
    if m > 0 {
      var script := seq(n, _ => CopyOut.Ready(0, true));
      assert script[0] == CopyOut.Ready(0, true) && script[1..] == seq(n - 1, _ => CopyOut.Ready(0, true));
      ReadyEnough(n - 1, m - 1);
    }
  }

  lemma {:induction false} PlayFinish(d: Desk, texts: Texts, k: nat, n: nat)
    requires DeskInv(d, texts)
    ensures Play(d, Finish(k, n), texts).Some?
    ensures var e := Moved(Moved(d, Write(k, n), texts).value, Close(k), texts).value;
            DeskInv(e, texts)
            && Play(d, Finish(k, n), texts)
               == Moved(e, Read(seq(n + 1, _ => CopyOut.Ready(0, true)), true), texts)
  {
    hide Moved, DeskInv;
    var ms := Finish(k, n);
    PipeKeepsInv(d, ms[0], texts);
    var a := Moved(d, ms[0], texts).value;
    PipeKeepsInv(a, ms[1], texts);
    var b := Moved(a, ms[1], texts).value;
    PipeKeepsInv(b, ms[2], texts);
    assert ms[1..][0] == ms[1] && ms[1..][1..] == [ms[2]];
    PlayOne(b, ms[2], texts);
    assert Play(a, ms[1..], texts) == Play(b, [ms[2]], texts);
  }

  lemma {:induction false} PlayOne(d: Desk, m: Move, texts: Texts)
    ensures Play(d, [m], texts) == Moved(d, m, texts)
  {
    hide Moved;
    assert [m][1..] == [];
    if Moved(d, m, texts).Some? {
      assert Play(Moved(d, m, texts).value, [], texts) == Moved(d, m, texts);
    }
  }

  /** Writing and closing leave pipe `k` closed with its text, or unread. */
  lemma {:induction false} Written(d: Desk, texts: Texts, k: nat)
    requires DeskInv(d, texts) && k < |d.fates| && !d.fates[k].Asked? && d.copy.sessions[k].data == []
    requires d.copy.sessions[k].closed ==> d.fates[k].Stale?
    ensures var e := Moved(Moved(d, Write(k, |TextOf(d, texts, k)|), texts).value, Close(k), texts).value;
            && e.copy.reading == d.copy.reading && |e.copy.sessions| == |d.copy.sessions|
            && e.copy.sessions[k] == CopyOut.Session(if d.fates[k].Sent? then TextOf(d, texts, k) else [], true)
  {
    hide Inv, CopyOut.Inv, Receives;
    assert SessionOk(d, texts, k);
    var text := TextOf(d, texts, k);
    assert [] + text[0..|text|] == text;
  }

  /** What the agent finds in the pipe of the announced source `f`. */
  function Found(s: System, f: nat, text: Bytes): Bytes
  {
    if FateOf(s.comp, Foreign(f)).Sent? then text else []
  }

  /** After the dispatch and the serving: pipe `k` is decided, still empty and unread. */
  lemma {:induction false} OpenedServed(d: Desk, texts: Texts, f: nat)
    requires DeskInv(d, texts) && Opens(d.sys, Deliver(true)) && d.sys.evs[0].sel.source == Foreign(f)
    ensures Moved(d, Sys(Deliver(true)), texts).Some?
    ensures var d1 := Moved(d, Sys(Deliver(true)), texts).value;
            && d1.sys == Delivered(d.sys, true) && Play(d1, Serves(|d1.sys.reqs|), texts).Some?
            && var d2, k := Play(d1, Serves(|d1.sys.reqs|), texts).value, |d.fates|;
               && DeskInv(d2, texts) && |d2.fates| == k + 1 && d2.fates[k] == FateOf(d.sys.comp, Foreign(f))
               && TextOf(d2, texts, k) == texts(f)
               && d2.copy.sessions[k].data == [] && (d2.copy.sessions[k].closed ==> d2.fates[k].Stale?)
               && d2.copy.reading == Some(CopyOut.Reading(0, []))
  {
    OpenKeepsInv(d, texts);
    DispatchReceives(d.sys, true);
    var d1, k := Moved(d, Sys(Deliver(true)), texts).value, |d.fates|;
    hide Inv, CopyOut.Inv, Receives, SessionsOk, Serves;
    assert d1.sys == Delivered(d.sys, true);
    assert d1.copy.sessions[k] == CopyOut.Session([], false) && d1.sys.agent.copies[k] == Foreign(f);
    OwnedKept(d.sys);
    hide Dispatch, Moved, Delivered;
    ServeAll(d1, texts, k);
  }

  lemma {:induction false} OwnedKept(s: System)
    requires Opens(s, Deliver(true))
    ensures Delivered(s, true).agent.owned.None?
  {
  }

  lemma {:induction false} OpenedReports(d: Desk, texts: Texts, f: nat, text: Bytes)
    requires DeskInv(d, texts) && Opens(d.sys, Deliver(true)) && d.sys.evs[0].sel.source == Foreign(f)
    ensures Play(d, Prompt(d, texts(f)), texts).Some?
    ensures CopyOut.Reported(Play(d, Prompt(d, texts(f)), texts).value.copy, |d.fates|, text)
            <==> text == Found(d.sys, f, texts(f)) && |text| <= Dev.MAX_TEXT_BYTES
  {
    var k, n := |d.fates|, |texts(f)|;
    OpenedServed(d, texts, f);
    PromptPlays(d, texts, texts(f));
    var d1 := Moved(d, Sys(Deliver(true)), texts).value;
    var d2 := Play(d1, Serves(|d1.sys.reqs|), texts).value;
    hide Inv, CopyOut.Inv, Receives, SessionsOk, Serves, Prompt, Delivered, Opens, TextOf, CopyOut.Reported;
    PlayFinish(d2, texts, k, n);
    Written(d2, texts, k);
    var d3 := Moved(Moved(d2, Write(k, n), texts).value, Close(k), texts).value;
    FinishReports(d2, d3, texts, k, n, text);
  }

  lemma {:induction false} FinishReports(d: Desk, e: Desk, texts: Texts, k: nat, n: nat, text: Bytes)
    requires DeskInv(e, texts) && |e.copy.sessions| == k + 1 && e.copy.reading == Some(CopyOut.Reading(0, []))
    requires e.copy.sessions[k].closed && n + 1 > |e.copy.sessions[k].data|
    requires Play(d, Finish(k, n), texts) == Moved(e, Read(seq(n + 1, _ => CopyOut.Ready(0, true)), true), texts)
    ensures Play(d, Finish(k, n), texts).Some?
    ensures CopyOut.Reported(Play(d, Finish(k, n), texts).value.copy, k, text)
            <==> text == e.copy.sessions[k].data && |text| <= Dev.MAX_TEXT_BYTES
  {
    hide Inv, CopyOut.Inv, Receives, SessionsOk, Play, Finish;
    ReadyEnough(n + 1, |e.copy.sessions[k].data| + 1);
    CopyOut.ClosedPipeReported(e.copy, seq(n + 1, _ => CopyOut.Ready(0, true)), text);
  }

  lemma {:induction false} PromptPlays(d: Desk, texts: Texts, text: Bytes)
    requires d.sys.evs != [] && Moved(d, Sys(Deliver(true)), texts).Some?
    requires var d1 := Moved(d, Sys(Deliver(true)), texts).value;
             d1.sys == Delivered(d.sys, true) && Play(d1, Serves(|d1.sys.reqs|), texts).Some?
    ensures var d1 := Moved(d, Sys(Deliver(true)), texts).value;
            var d2 := Play(d1, Serves(|d1.sys.reqs|), texts).value;
            Play(d, Prompt(d, text), texts) == Play(d2, Finish(|d.fates|, |text|), texts)
  {
    hide Moved, Finish, Serves, Delivered;
    var d1 := Moved(d, Sys(Deliver(true)), texts).value;
    var serves, finish := Serves(|d1.sys.reqs|), Finish(|d.fates|, |text|);
    var rest := serves + finish;
    assert Prompt(d, text) == [Sys(Deliver(true))] + rest;
    assert ([Sys(Deliver(true))] + rest)[1..] == rest;
    PlayConcat(d1, serves, finish, texts);
  }

  /** A dropped announcement opens no pipe, so nothing is ever reported for it. */
  lemma {:induction false} DroppedReports(d: Desk, texts: Texts, text: Bytes, other: Bytes)
    requires DeskInv(d, texts) && d.sys.evs != [] && !Opens(d.sys, Deliver(true))
    ensures Play(d, Prompt(d, text), texts).Some?
    ensures !CopyOut.Reported(Play(d, Prompt(d, text), texts).value.copy, |d.fates|, other)
  {
    var k := |d.fates|;
    PlainKeepsInv(d, Deliver(true), texts);
    DispatchReceives(d.sys, true);
    var d1 := Moved(d, Sys(Deliver(true)), texts).value;
    assert d1.sys == Delivered(d.sys, true) && |d1.fates| == k;
    hide Inv, Receives, SessionsOk, Serves, Dispatch, Delivered, Opens, Moved;
    if k == 0 {
      ServeNone(d1, texts);
    } else {
      ServeAll(d1, texts, 0);
    }
    PromptPlays(d, texts, text);
    var d2 := Play(d1, Serves(|d1.sys.reqs|), texts).value;
    PlayFinish(d2, texts, k, |text|);
    PlayKeepsInv(d2, Finish(k, |text|), texts);
    FinishKeeps(d2, texts, k, |text|);
  }

  lemma {:induction false} FinishKeeps(d: Desk, texts: Texts, k: nat, n: nat)
    requires Play(d, Finish(k, n), texts).Some?
    ensures |Play(d, Finish(k, n), texts).value.fates| == |d.fates|
  {
    PipesKeep(d, Finish(k, n), texts);
  }

  lemma {:induction false} PipesKeep(d: Desk, moves: seq<Move>, texts: Texts)
    requires Play(d, moves, texts).Some? && forall i :: 0 <= i < |moves| ==> !moves[i].Sys?
    ensures |Play(d, moves, texts).value.fates| == |d.fates|
    decreases |moves|
  {
    if moves != [] {
      PipesKeep(Moved(d, moves[0], texts).value, moves[1..], texts);
    }
  }

  /** The protocol's part of a run is a run of the protocol. */
  lemma {:induction false} PlayRuns(d: Desk, moves: seq<Move>, texts: Texts) returns (actions: seq<Action>)
    requires Play(d, moves, texts).Some?
    ensures Run(d.sys, actions) == Some(Play(d, moves, texts).value.sys)
    decreases |moves|
  {
    hide Step;
    if moves == [] {
      actions := [];
    } else {
      var d' := Moved(d, moves[0], texts).value;
      var rest := PlayRuns(d', moves[1..], texts);
      if moves[0].Sys? {
        actions := [moves[0].action] + rest;
        assert actions[1..] == rest;
      } else {
        assert d'.sys == d.sys;
        actions := rest;
      }
    }
  }

  lemma {:induction false} ReachesReachable(d: Desk, texts: Texts)
    requires Reaches(d, texts)
    ensures Reachable(d.sys)
  {
    hide Play, Moved, Run;
    var sel: Selection, moves: seq<Move> :|
      !(sel.Selected? && sel.source.Own?) && Play(Start(sel), moves, texts) == Some(d);
    var actions := PlayRuns(Start(sel), moves, texts);
  }

  /**
    A schedule on which it is: the announcement is dispatched, what is queued is served,
    and the pipe is written and read, with memory and without failure. Then the text of
    `f` is reported if and only if nothing of the agent's own is in flight behind the
    announcement, `f` is still the selection, and the text fits the cap. If `f` is no
    longer the selection, an empty text is reported in its place.
   */
  lemma {:induction false} PromptlyReported(d: Desk, texts: Texts, f: nat)
    requires Reaches(d, texts) && d.sys.evs != [] && d.sys.evs[0].Announce?
    requires IsText(d.sys.evs[0].sel) && d.sys.evs[0].sel.source == Foreign(f)
    ensures Play(d, Prompt(d, texts(f)), texts).Some?
    ensures var after, k := Play(d, Prompt(d, texts(f)), texts).value.copy, |d.fates|;
            && (CopyOut.Reported(after, k, texts(f))
                <==> && !OwnInFlight(d.sys) && |texts(f)| <= Dev.MAX_TEXT_BYTES
                     && (FateOf(d.sys.comp, Foreign(f)).Sent? || texts(f) == []))
            && (CopyOut.Reported(after, k, [])
                <==> !OwnInFlight(d.sys) && (FateOf(d.sys.comp, Foreign(f)).Stale? || texts(f) == []))
  {
    ReachesInv(d, texts);
    ReachesReachable(d, texts);
    SkippedExactly(d.sys);
    hide DeskInv, Reaches, OwnInFlight, Play, Prompt, CopyOut.Reported;
    if d.sys.agent.owned.None? {
      OpenedReports(d, texts, f, texts(f));
      OpenedReports(d, texts, f, []);
    } else {
      DroppedReports(d, texts, texts(f), texts(f));
      DroppedReports(d, texts, texts(f), []);
    }
  }

  // ---- every continuation ------------------------------------------------

  /** What a move is to the copy-out reader. */
  function CopyStep(d: Desk, m: Move, texts: Texts): Option<CopyOut.Action>
  {
    match m
    case Sys(a) =>
      if Opens(d.sys, a) then Some(CopyOut.Selected)
      else if a.Serve? && d.sys.reqs != [] && d.sys.reqs[0].Receive? && d.served < |d.fates|
              && FateOf(d.sys.comp, d.sys.reqs[0].source).Stale? then Some(CopyOut.HungUp(d.served))
      else None
    case Write(k, n) =>
      if k < |d.fates| && d.fates[k].Sent? && k < |d.copy.sessions| && |d.copy.sessions[k].data| < |TextOf(d, texts, k)| then
        var from, text := |d.copy.sessions[k].data|, TextOf(d, texts, k);
        Some(CopyOut.Written(k, text[from..if from + n < |text| then from + n else |text|]))
      else None
    case Close(k) => if k < |d.fates| && d.fates[k].Sent? then Some(CopyOut.HungUp(k)) else None
    case Read(script, memory) => Some(CopyOut.Readable(script, memory))
  }

  lemma {:induction false} MovedCopies(d: Desk, m: Move, texts: Texts)
    requires Moved(d, m, texts).Some?
    ensures Moved(d, m, texts).value.copy
            == match CopyStep(d, m, texts) case None => d.copy case Some(a) => CopyOut.Next(d.copy, a)
  {
    hide CopyOut.Next;
  }

  /** The reader's part of a run. */
  function CopySteps(d: Desk, moves: seq<Move>, texts: Texts): seq<CopyOut.Action>
    decreases |moves|
  {
    if moves == [] || Moved(d, moves[0], texts).None? then []
    else
      var rest := CopySteps(Moved(d, moves[0], texts).value, moves[1..], texts);
      match CopyStep(d, moves[0], texts) case None => rest case Some(a) => [a] + rest
  }

  lemma {:induction false} PlayCopies(d: Desk, moves: seq<Move>, texts: Texts)
    requires Play(d, moves, texts).Some?
    ensures Play(d, moves, texts).value.copy == CopyOut.Run(d.copy, CopySteps(d, moves, texts))
    decreases |moves|
  {
    hide Moved, CopyStep, CopyOut.Next;
    if moves != [] {
      var d', step := Moved(d, moves[0], texts).value, CopyStep(d, moves[0], texts);
      MovedCopies(d, moves[0], texts);
      PlayCopies(d', moves[1..], texts);
      if step.Some? {
        assert ([step.value] + CopySteps(d', moves[1..], texts))[1..] == CopySteps(d', moves[1..], texts);
      }
    }
  }

  /** Opened pipes keep their sources. */
  lemma {:induction false} CopiesKept(d: Desk, moves: seq<Move>, texts: Texts)
    requires DeskInv(d, texts) && Play(d, moves, texts).Some?
    ensures d.sys.agent.copies <= Play(d, moves, texts).value.sys.agent.copies
    decreases |moves|
  {
    hide DeskInv, Moved;
    if moves != [] {
      MoveKeepsInv(d, moves[0], texts);
      CopiesGrow(d, moves[0], texts);
      CopiesKept(Moved(d, moves[0], texts).value, moves[1..], texts);
    }
  }

  lemma {:induction false} CopiesGrow(d: Desk, m: Move, texts: Texts)
    requires DeskInv(d, texts) && Moved(d, m, texts).Some?
    ensures d.sys.agent.copies <= Moved(d, m, texts).value.sys.agent.copies
  {
    if m.Sys? {
      var a := m.action;
      SysEnabled(d, a, texts);
      if Plain(d.sys, a) {
        PlainReceives(d.sys, a);
      } else if Opens(d.sys, a) {
        DispatchReceives(d.sys, true);
      } else {
        ReceiveServed(d, texts);
      }
      hide Inv, Step, Receives, SessionsOk, CopyOut.Inv, CopyOut.Next;
    }
  }

  /** The pipes that continuation `moves` loses, and why. */
  function LostIn(d: Desk, moves: seq<Move>, texts: Texts): map<nat, CopyOut.Cause>
  {
    CopyOut.Lost(d.copy, CopySteps(d, moves, texts))
  }

  /** What becomes of a pipe that is being read, in every continuation. */
  lemma {:induction false} ReadEnds(d: Desk, moves: seq<Move>, texts: Texts, k: nat, text: Bytes)
    requires DeskInv(d, texts) && CopyOut.BeingRead(d.copy, k) && Play(d, moves, texts).Some?
    ensures var c := Play(d, moves, texts).value.copy;
            && k < |c.sessions|
            && CopyOut.One(CopyOut.IsReported(c, k), CopyOut.BeingRead(c, k), k in LostIn(d, moves, texts))
            && (k in LostIn(d, moves, texts) ==> CopyOut.CauseOk(c, k, LostIn(d, moves, texts)[k]))
            && (CopyOut.Reported(c, k, text) <==> CopyOut.IsReported(c, k) && text == c.sessions[k].data)
  {
    PlayCopies(d, moves, texts);
    PlayKeepsInv(d, moves, texts);
    CopiesKept(d, moves, texts);
    hide Play, CopySteps, Inv, Receives, SessionsOk;
    CopyOut.ReadAccounted(d.copy, CopySteps(d, moves, texts), k, text);
  }

  /**
    What becomes of an announced foreign text, in every continuation of every run. Its
    dispatch opens a read if and only if the pipe can be made and nothing of the agent's
    own is in flight behind the announcement. Then, at any later time, the text is
    reported if and only if the read is over, was not lost (replaced by a newer read, a
    failed read or allocation, over the cap), and the client had written the whole text,
    for which the compositor must have asked it.
   */
  lemma {:induction false} ReportedExactly(d: Desk, texts: Texts, f: nat, pipeOk: bool, moves: seq<Move>)
    requires Reaches(d, texts) && d.sys.evs != [] && d.sys.evs[0].Announce?
    requires IsText(d.sys.evs[0].sel) && d.sys.evs[0].sel.source == Foreign(f)
    requires Play(Dispatched(d, pipeOk, texts), moves, texts).Some?
    ensures var d1, k := Dispatched(d, pipeOk, texts), |d.fates|;
            var e, lost := Play(d1, moves, texts).value, LostIn(d1, moves, texts);
            && (if pipeOk && !OwnInFlight(d.sys) then d1.fates == d.fates + [Asked] else d1.fates == d.fates && d1.copy == d.copy)
            && (pipeOk && !OwnInFlight(d.sys) ==>
                  && k < |e.fates| == |e.copy.sessions|
                  && CopyOut.One(CopyOut.IsReported(e.copy, k), CopyOut.BeingRead(e.copy, k), k in lost)
                  && (k in lost ==> CopyOut.CauseOk(e.copy, k, lost[k]))
                  && (CopyOut.Reported(e.copy, k, texts(f))
                      <==> && k !in lost && !CopyOut.BeingRead(e.copy, k)
                           && (texts(f) == [] || (e.fates[k].Sent? && |e.copy.sessions[k].data| == |texts(f)|)))
                  && (CopyOut.Reported(e.copy, k, [])
                      <==> k !in lost && !CopyOut.BeingRead(e.copy, k) && e.copy.sessions[k].data == [])
                  && (e.fates[k].Stale? ==> e.copy.sessions[k] == CopyOut.Session([], true)))
  {
    ReachesInv(d, texts);
    ReachesReachable(d, texts);
    SkippedExactly(d.sys);
    DispatchOpens(d, pipeOk, texts);
    hide Reaches, OwnInFlight, Dispatched, CopyOut.Reported;
    if pipeOk && d.sys.agent.owned.None? {
      OpenedEnds(d, texts, f, moves);
    }
  }

  /** After the dispatch of the first event. */
  function Dispatched(d: Desk, pipeOk: bool, texts: Texts): Desk
    requires d.sys.evs != []
  {
    Moved(d, Sys(Deliver(pipeOk)), texts).value
  }

  lemma {:induction false} DispatchOpens(d: Desk, pipeOk: bool, texts: Texts)
    requires DeskInv(d, texts) && d.sys.evs != [] && d.sys.evs[0].Announce? && IsText(d.sys.evs[0].sel)
    ensures var d1, opens := Dispatched(d, pipeOk, texts), pipeOk && d.sys.agent.owned.None?;
            && DeskInv(d1, texts)
            && (opens ==>
                  && d1.fates == d.fates + [Asked] && CopyOut.BeingRead(d1.copy, |d.fates|)
                  && d1.sys.agent.copies == d.sys.agent.copies + [d.sys.evs[0].sel.source])
            && (!opens ==> d1.fates == d.fates && d1.copy == d.copy)
  {
    DispatchReceives(d.sys, pipeOk);
    if pipeOk && d.sys.agent.owned.None? {
      OpenKeepsInv(d, texts);
    } else {
      PlainKeepsInv(d, Deliver(pipeOk), texts);
    }
    hide Inv, Receives, SessionsOk, CopyOut.Inv, IsText;
    assert Dispatched(d, pipeOk, texts).sys == Delivered(d.sys, pipeOk);
  }

  lemma {:induction false} OpenedEnds(d: Desk, texts: Texts, f: nat, moves: seq<Move>)
    requires DeskInv(d, texts) && Opens(d.sys, Deliver(true)) && d.sys.evs[0].sel.source == Foreign(f)
    requires Play(Dispatched(d, true, texts), moves, texts).Some?
    ensures var d1, k := Dispatched(d, true, texts), |d.fates|;
            var e, lost := Play(d1, moves, texts).value, LostIn(d1, moves, texts);
            && k < |e.fates| == |e.copy.sessions|
            && CopyOut.One(CopyOut.IsReported(e.copy, k), CopyOut.BeingRead(e.copy, k), k in lost)
            && (k in lost ==> CopyOut.CauseOk(e.copy, k, lost[k]))
            && (CopyOut.Reported(e.copy, k, texts(f))
                <==> && k !in lost && !CopyOut.BeingRead(e.copy, k)
                     && (texts(f) == [] || (e.fates[k].Sent? && |e.copy.sessions[k].data| == |texts(f)|)))
            && (CopyOut.Reported(e.copy, k, [])
                <==> k !in lost && !CopyOut.BeingRead(e.copy, k) && e.copy.sessions[k].data == [])
            && (e.fates[k].Stale? ==> e.copy.sessions[k] == CopyOut.Session([], true))
  {
    var d1, k := Dispatched(d, true, texts), |d.fates|;
    DispatchOpens(d, true, texts);
    hide Dispatched, Opens;
    PlayKeepsInv(d1, moves, texts);
    CopiesKept(d1, moves, texts);
    ReadEnds(d1, moves, texts, k, texts(f));
    ReadEnds(d1, moves, texts, k, []);
    hide Play, LostIn, Inv, CopyOut.Inv, Receives, CopyOut.Reported, CopyOut.IsReported, CopyOut.BeingRead;
    var e := Play(d1, moves, texts).value;
    assert SessionOk(e, texts, k);
    assert e.sys.agent.copies[k] == d1.sys.agent.copies[k] == Foreign(f);
  }

  /** Another client replaces the selection while its announcement is on the way. */
  const OVERTAKEN_COPY: seq<Move> := [Sys(Serve), Sys(ForeignSet(8, TEXT))]

  lemma {:induction false} Overtakes(texts: Texts)
    ensures Play(Start(Selected(Foreign(7), TEXT)), OVERTAKEN_COPY, texts).Some?
    ensures Play(Start(Selected(Foreign(7), TEXT)), OVERTAKEN_COPY, texts).value.fates == []
    ensures var s := Play(Start(Selected(Foreign(7), TEXT)), OVERTAKEN_COPY, texts).value.sys;
            && s.evs == [Announce(Selected(Foreign(7), TEXT)), Announce(Selected(Foreign(8), TEXT))] && s.reqs == [Sync]
            && s.comp.sel == Selected(Foreign(8), TEXT) && s.agent.owned.None?
  {
    var d0 := Start(Selected(Foreign(7), TEXT));
    var d1 := Moved(d0, Sys(Serve), texts).value;
    assert d1.sys.reqs == [Sync] && d1.sys.evs == [Announce(Selected(Foreign(7), TEXT))];
    assert OVERTAKEN_COPY[1..] == [Sys(ForeignSet(8, TEXT))];
    PlayOne(d1, Sys(ForeignSet(8, TEXT)), texts);
  }

  /**
    A run in which a foreign text is announced with nothing of the agent's own in
    flight, and the host gets an empty text instead of it.
   */
  lemma {:induction false} StaleCopyReportedEmpty(texts: Texts)
    requires texts(7) != []
    ensures Play(Start(Selected(Foreign(7), TEXT)), OVERTAKEN_COPY, texts).Some?
    ensures var d := Play(Start(Selected(Foreign(7), TEXT)), OVERTAKEN_COPY, texts).value;
            && d.sys.evs != [] && !OwnInFlight(d.sys) && d.fates == []
            && Play(d, Prompt(d, texts(7)), texts).Some?
            && var after := Play(d, Prompt(d, texts(7)), texts).value.copy;
               CopyOut.Reported(after, 0, []) && !CopyOut.Reported(after, 0, texts(7))
  {
    Overtakes(texts);
    var sel := Selected(Foreign(7), TEXT);
    var d := Play(Start(sel), OVERTAKEN_COPY, texts).value;
    assert Reaches(d, texts);
    ReachesReachable(d, texts);
    SkippedExactly(d.sys);
    PromptlyReported(d, texts, 7);
  }

  // ---- a read that is replaced, and one that is cut short ----------------

  lemma {:induction false} PlayCons(d: Desk, m: Move, rest: seq<Move>, texts: Texts)
    requires Moved(d, m, texts).Some?
    ensures Play(d, [m] + rest, texts) == Play(Moved(d, m, texts).value, rest, texts)
  {
    hide Moved;
    assert ([m] + rest)[1..] == rest;
  }

  /** The first announcement is queued. */
  function Announced(): Desk
  {
    Moved(Start(Selected(Foreign(7), TEXT)), Sys(Serve), (_ => [])).value
  }

  lemma {:induction false} AnnouncedReached(texts: Texts)
    ensures Reaches(Announced(), texts) && Announced().fates == [] && Announced().served == 0 && Announced().copy == CopyOut.START
    ensures var s := Announced().sys;
            && s.evs == [Announce(Selected(Foreign(7), TEXT))] && s.reqs == [Sync]
            && s.comp.sel == Selected(Foreign(7), TEXT) && s.comp.bound && s.agent.owned.None? && s.agent.copies == []
  {
    var d := Start(Selected(Foreign(7), TEXT));
    PlayOne(d, Sys(Serve), texts);
    assert Play(d, [Sys(Serve)], texts) == Some(Announced());
  }

  /** It is dispatched, and its read is served in time. */
  const ASKED: seq<Move> := [Sys(Deliver(true))] + ([Sys(Serve)] + [Sys(Serve)])

  lemma {:induction false} AskedServed(texts: Texts)
    ensures Play(Announced(), ASKED, texts).Some?
    ensures var e := Play(Announced(), ASKED, texts).value;
            OnePipe(e, Sent) && e.sys.evs == [SyncDone] && e.sys.reqs == []
  {
    AnnouncedReached(texts);
    var d := Announced();
    hide Announced;
    FirstOpened(d, texts);
    var d1 := Moved(d, Sys(Deliver(true)), texts).value;
    SyncServed(d1, texts);
    var d2 := Moved(d1, Sys(Serve), texts).value;
    FirstServed(d2, texts);
    hide Moved;
    PlayCons(d, Sys(Deliver(true)), [Sys(Serve)] + [Sys(Serve)], texts);
    PlayCons(d1, Sys(Serve), [Sys(Serve)], texts);
    PlayOne(d2, Sys(Serve), texts);
  }

  /** Pipe 0 is open, empty and being read. */
  predicate OnePipe(d: Desk, fate: Fate)
  {
    && d.fates == [fate] && d.sys.agent.owned.None? && d.sys.agent.copies == [Foreign(7)]
    && d.copy == CopyOut.CopyState([CopyOut.Session([], false)], Some(CopyOut.Reading(0, [])), [])
    && d.sys.comp.sel == Selected(Foreign(7), TEXT) && d.sys.comp.bound
  }

  lemma {:induction false} FirstOpened(d: Desk, texts: Texts)
    requires d.fates == [] && d.served == 0 && d.copy == CopyOut.START
    requires d.sys.evs == [Announce(Selected(Foreign(7), TEXT))] && d.sys.reqs == [Sync]
    requires d.sys.comp.sel == Selected(Foreign(7), TEXT) && d.sys.comp.bound
    requires d.sys.agent.owned.None? && d.sys.agent.copies == []
    ensures Moved(d, Sys(Deliver(true)), texts).Some?
    ensures var e := Moved(d, Sys(Deliver(true)), texts).value;
            OnePipe(e, Asked) && e.served == 0 && e.sys.evs == [] && e.sys.reqs == [Sync, Receive(Foreign(7), Utf8)]
  {
  }

  lemma {:induction false} SyncServed(d: Desk, texts: Texts)
    requires OnePipe(d, Asked) && d.served == 0 && d.sys.evs == [] && d.sys.reqs == [Sync, Receive(Foreign(7), Utf8)]
    ensures Moved(d, Sys(Serve), texts).Some?
    ensures var e := Moved(d, Sys(Serve), texts).value;
            OnePipe(e, Asked) && e.served == 0 && e.sys.evs == [SyncDone] && e.sys.reqs == [Receive(Foreign(7), Utf8)]
  {
  }

  lemma {:induction false} FirstServed(d: Desk, texts: Texts)
    requires OnePipe(d, Asked) && d.served == 0 && d.sys.evs == [SyncDone] && d.sys.reqs == [Receive(Foreign(7), Utf8)]
    ensures Moved(d, Sys(Serve), texts).Some?
    ensures var e := Moved(d, Sys(Serve), texts).value; OnePipe(e, Sent) && e.sys.evs == [SyncDone] && e.sys.reqs == []
  {
    assert [Asked][0 := Sent] == [Sent];
  }

  /** Another client takes the selection over, the agent hears of it, and then the first text arrives. */
  function Replacing(n: nat): seq<Move>
  {
    [Sys(ForeignSet(8, TEXT))] + ([Sys(Deliver(true))] + ([Sys(Deliver(true))] + ([Write(0, n)] + [Close(0)])))
  }

  /**
    A run without any failure in which the announcement finds nothing of the agent's own
    in flight, the read is served in time and the client writes its whole text, and which
    loses it all the same: a newer selection has replaced the read.
   */
  lemma {:induction false} ReplacedCopyLost(texts: Texts)
    ensures !OwnInFlight(Announced().sys) && Play(Announced(), ASKED, texts).Some?
    ensures var e := Play(Announced(), ASKED, texts).value;
            && e.fates == [Sent] && CopyOut.BeingRead(e.copy, 0)
            && Play(e, Replacing(|texts(7)|), texts).Some?
            && var c := Play(e, Replacing(|texts(7)|), texts).value.copy;
               && c.reports == [] && c.sessions == [CopyOut.Session(texts(7), true), CopyOut.Session([], false)]
               && LostIn(e, Replacing(|texts(7)|), texts) == map[0 := CopyOut.Replaced]
  {
    AnnouncedReached(texts);
    ReachesReachable(Announced(), texts);
    SkippedExactly(Announced().sys);
    AskedServed(texts);
    ReplacedPlays(Play(Announced(), ASKED, texts).value, texts);
  }

  lemma {:induction false} ReplacedPlays(d: Desk, texts: Texts)
    requires OnePipe(d, Sent) && d.sys.evs == [SyncDone] && d.sys.reqs == []
    ensures Play(d, Replacing(|texts(7)|), texts).Some?
    ensures var c := Play(d, Replacing(|texts(7)|), texts).value.copy;
            && c.reports == [] && c.sessions == [CopyOut.Session(texts(7), true), CopyOut.Session([], false)]
            && LostIn(d, Replacing(|texts(7)|), texts) == map[0 := CopyOut.Replaced]
  {
    TakenOver(d, texts);
    var d2 := Moved(Moved(d, Sys(ForeignSet(8, TEXT)), texts).value, Sys(Deliver(true)), texts).value;
    SecondOpened(d2, texts);
    var d3 := Moved(d2, Sys(Deliver(true)), texts).value;
    hide OnePipe, Moved;
    var m4 := [Write(0, |texts(7)|)] + [Close(0)];
    LostCons(d, Sys(ForeignSet(8, TEXT)), [Sys(Deliver(true))] + ([Sys(Deliver(true))] + m4), texts);
    LostCons(Moved(d, Sys(ForeignSet(8, TEXT)), texts).value, Sys(Deliver(true)), [Sys(Deliver(true))] + m4, texts);
    LostCons(d2, Sys(Deliver(true)), m4, texts);
    WriteAndClose(d3, texts);
  }

  lemma {:induction false} TakenOver(d: Desk, texts: Texts)
    requires OnePipe(d, Sent) && d.sys.evs == [SyncDone] && d.sys.reqs == []
    ensures Moved(d, Sys(ForeignSet(8, TEXT)), texts).Some? && CopyStep(d, Sys(ForeignSet(8, TEXT)), texts).None?
    ensures var d1 := Moved(d, Sys(ForeignSet(8, TEXT)), texts).value;
            && Moved(d1, Sys(Deliver(true)), texts).Some? && CopyStep(d1, Sys(Deliver(true)), texts).None?
            && var d2 := Moved(d1, Sys(Deliver(true)), texts).value;
               && d2.sys.evs == [Announce(Selected(Foreign(8), TEXT))] && d2.copy == d.copy && d2.fates == d.fates
               && d2.sys.agent.owned.None? && d2.sys.agent.copies == [Foreign(7)]
  {
    var d1 := Moved(d, Sys(ForeignSet(8, TEXT)), texts).value;
    assert d1.sys.evs == [SyncDone, Announce(Selected(Foreign(8), TEXT))];
  }

  lemma {:induction false} SecondOpened(d: Desk, texts: Texts)
    requires d.sys.evs == [Announce(Selected(Foreign(8), TEXT))] && d.fates == [Sent]
    requires d.copy == CopyOut.CopyState([CopyOut.Session([], false)], Some(CopyOut.Reading(0, [])), [])
    requires d.sys.agent.owned.None? && d.sys.agent.copies == [Foreign(7)]
    ensures Moved(d, Sys(Deliver(true)), texts).Some? && CopyStep(d, Sys(Deliver(true)), texts) == Some(CopyOut.Selected)
    ensures CopyOut.Loss(d.copy, CopyOut.Selected) == map[0 := CopyOut.Replaced]
    ensures var e := Moved(d, Sys(Deliver(true)), texts).value;
            && e.fates == [Sent, Asked] && e.copy.sessions == [CopyOut.Session([], false), CopyOut.Session([], false)]
            && e.copy.reports == [] && |e.sys.agent.copies| > 0 && e.sys.agent.copies[0] == Foreign(7)
  {
  }

  lemma {:induction false} LostCons(d: Desk, m: Move, rest: seq<Move>, texts: Texts)
    requires Moved(d, m, texts).Some?
    ensures Play(d, [m] + rest, texts) == Play(Moved(d, m, texts).value, rest, texts)
    ensures LostIn(d, [m] + rest, texts)
            == (match CopyStep(d, m, texts) case None => map[] case Some(a) => CopyOut.Loss(d.copy, a))
               + LostIn(Moved(d, m, texts).value, rest, texts)
  {
    PlayCons(d, m, rest, texts);
    MovedCopies(d, m, texts);
    hide Moved, CopyStep, CopyOut.Next, CopyOut.Loss;
    assert ([m] + rest)[0] == m && ([m] + rest)[1..] == rest;
    var more := CopySteps(Moved(d, m, texts).value, rest, texts);
    if CopyStep(d, m, texts).None? {
      assert map[] + LostIn(Moved(d, m, texts).value, rest, texts) == LostIn(Moved(d, m, texts).value, rest, texts);
    } else {
      assert ([CopyStep(d, m, texts).value] + more)[1..] == more;
    }
  }

  lemma {:induction false} WriteAndClose(d: Desk, texts: Texts)
    requires d.fates == [Sent, Asked] && |d.sys.agent.copies| > 0 && d.sys.agent.copies[0] == Foreign(7)
    requires d.copy.sessions == [CopyOut.Session([], false), CopyOut.Session([], false)]
    ensures var moves := [Write(0, |texts(7)|)] + [Close(0)];
            && Play(d, moves, texts).Some? && LostIn(d, moves, texts) == map[]
            && var c := Play(d, moves, texts).value.copy;
               c.reports == d.copy.reports && c.sessions == [CopyOut.Session(texts(7), true), CopyOut.Session([], false)]
  {
    var n := |texts(7)|;
    var d1 := Moved(d, Write(0, n), texts).value;
    LostCons(d, Write(0, n), [Close(0)], texts);
    assert [] + texts(7)[0..n] == texts(7);
    assert d1.copy.sessions == [CopyOut.Session(texts(7), false), CopyOut.Session([], false)];
    LostCons(d1, Close(0), [], texts);
    assert [Close(0)] + [] == [Close(0)];
  }

  /** The client writes one byte and exits; the agent reads to the end. */
  const CUT_SHORT: seq<Move> :=
    [Write(0, 1)] + ([Close(0)] + [Read([CopyOut.Ready(0, true), CopyOut.Ready(0, true)], true)])

  /** A run in which the client exits halfway, and the part it wrote is reported. */
  lemma {:induction false} TruncatedCopyReported(texts: Texts)
    requires |texts(7)| > 1
    ensures Play(Announced(), ASKED, texts).Some?
    ensures var e := Play(Announced(), ASKED, texts).value;
            && Play(e, CUT_SHORT, texts).Some?
            && CopyOut.Reported(Play(e, CUT_SHORT, texts).value.copy, 0, texts(7)[..1])
  {
    AskedServed(texts);
    AnnouncedReached(texts);
    ReachesInv(Announced(), texts);
    PlayKeepsInv(Announced(), ASKED, texts);
    hide *;
    CutShort(Play(Announced(), ASKED, texts).value, texts);
  }

  lemma {:induction false} CutShort(d: Desk, texts: Texts)
    requires DeskInv(d, texts) && OnePipe(d, Sent) && |texts(7)| > 1
    ensures Play(d, CUT_SHORT, texts).Some?
    ensures CopyOut.Reported(Play(d, CUT_SHORT, texts).value.copy, 0, texts(7)[..1])
  {
    var script := [CopyOut.Ready(0, true), CopyOut.Ready(0, true)];
    PipeKeepsInv(d, Write(0, 1), texts);
    var d1 := Moved(d, Write(0, 1), texts).value;
    PipeKeepsInv(d1, Close(0), texts);
    var d2 := Moved(d1, Close(0), texts).value;
    OneByteWritten(d, texts);
    TwoEnough(script);
    hide Moved, CopyOut.Enough, CopyOut.Reported, CopyOut.Inv, Inv, Receives, SessionsOk, OnePipe;
    PlayCons(d, Write(0, 1), [Close(0)] + [Read(script, true)], texts);
    PlayCons(d1, Close(0), [Read(script, true)], texts);
    PlayOne(d2, Read(script, true), texts);
    ShortRead(d2, script, texts);
  }

  lemma {:induction false} ShortRead(d: Desk, script: seq<CopyOut.ReadAnswer>, texts: Texts)
    requires CopyOut.Inv(d.copy) && CopyOut.Enough(script, 2) && |texts(7)| > 1
    requires d.copy == CopyOut.CopyState([CopyOut.Session(texts(7)[..1], true)], Some(CopyOut.Reading(0, [])), [])
    ensures Moved(d, Read(script, true), texts).Some?
    ensures CopyOut.Reported(Moved(d, Read(script, true), texts).value.copy, 0, texts(7)[..1])
  {
    CopyOut.ClosedPipeReported(d.copy, script, texts(7)[..1]);
  }

  lemma {:induction false} OneByteWritten(d: Desk, texts: Texts)
    requires OnePipe(d, Sent) && |texts(7)| > 1
    ensures Moved(d, Write(0, 1), texts).Some?
    ensures var d1 := Moved(d, Write(0, 1), texts).value;
            && Moved(d1, Close(0), texts).Some?
            && Moved(d1, Close(0), texts).value.copy
               == CopyOut.CopyState([CopyOut.Session(texts(7)[..1], true)], Some(CopyOut.Reading(0, [])), [])
  {
    assert [] + texts(7)[0..1] == texts(7)[..1];
    var d1 := Moved(d, Write(0, 1), texts).value;
    assert d1.copy.sessions == [CopyOut.Session(texts(7)[..1], false)];
  }

  lemma {:induction false} TwoEnough(script: seq<CopyOut.ReadAnswer>)
    requires script == [CopyOut.Ready(0, true), CopyOut.Ready(0, true)]
    ensures CopyOut.Enough(script, 2)
  {
    assert script[1..] == [CopyOut.Ready(0, true)] && CopyOut.Enough(script[1..], 1);
  }
}
