/**
  What the ownership flag guarantees, over every run of the selection protocol.

  The invariant looks ahead: it replays the events still queued on the agent's
  view of its sources and relates the outcome to the compositor's selection.
 */
module SelectionSafety {
  import opened Basics
  import opened SelectionProtocol

  // ---- replaying the queued events ---------------------------------------

  /** The part of the agent that the queued events decide. */
  datatype View = View(live: set<nat>, owned: Option<nat>, seen: Selection, skipped: bool)

  function ViewOf(a: Agent): View
  {
    View(a.live, a.owned, a.seen, a.skipped)
  }

  function After(v: View, e: Event): View
  {
    match e
    case Announce(sel) => v.(seen := sel, skipped := v.owned.Some?)
    case Cancelled(id) =>
      v.(live := v.live - {id}, owned := if v.owned == Some(id) then None else v.owned)
    case _ => v
  }

  /** An event names a live source, and cancellations come oldest first. */
  ghost predicate Expected(v: View, e: Event)
  {
    match e
    case Announce(sel) => sel.Selected? && sel.source.Own? ==> sel.source.id in v.live
    case Cancelled(id) => id in v.live && forall k :: k in v.live ==> id <= k
    case Paste(id) => id in v.live
    case SyncDone => true
  }

  ghost predicate AllExpected(v: View, evs: seq<Event>)
    decreases |evs|
  {
    evs == [] || (Expected(v, evs[0]) && AllExpected(After(v, evs[0]), evs[1..]))
  }

  function Replay(v: View, evs: seq<Event>): View
    decreases |evs|
  {
    if evs == [] then v else Replay(After(v, evs[0]), evs[1..])
  }

  function SyncDones(evs: seq<Event>): nat
  {
    if evs == [] then 0 else (if evs[0].SyncDone? then 1 else 0) + SyncDones(evs[1..])
  }

  predicate IsControl(r: Request)
  {
    r.GetDevice? || r.SetSelection? || r.Sync?
  }

  /** The requests that order a roundtrip, in channel order. */
  function Control(reqs: seq<Request>): seq<Request>
  {
    if reqs == [] then []
    else if IsControl(reqs[0]) then [reqs[0]] + Control(reqs[1..])
    else Control(reqs[1..])
  }

  // ---- the inductive invariant -------------------------------------------

  /** The flag is set exactly while some source is live, and then names the newest. */
  ghost predicate FlagExact(v: View, next: nat)
  {
    && (forall k :: k in v.live ==> k < next)
    && match v.owned
       case None => v.live == {}
       case Some(id) => id + 1 == next && id in v.live
  }

  predicate Requested(s: System)
  {
    var ctl := Control(s.reqs);
    ctl != [] && ctl[0].SetSelection?
  }

  /** The sources that stay live once every queued event has been dispatched. */
  function Residue(s: System): set<nat>
  {
    (if s.comp.sel.Selected? && s.comp.sel.source.Own? then {s.comp.sel.source.id} else {})
    + (if Requested(s) then {Control(s.reqs)[0].id} else {})
  }

  /** Where the roundtrip stands: request queued, request served, or reply queued. */
  ghost predicate RoundtripOrdered(s: System)
  {
    var ctl, done := Control(s.reqs), SyncDones(s.evs);
    match s.agent.mode
    case Idle => ctl == [] && done == 0 && s.comp.bound
    case Starting =>
      && s.agent.next == 0
      && ((ctl == [GetDevice, Sync] && done == 0 && !s.comp.bound)
          || (ctl == [Sync] && done == 0 && s.comp.bound)
          || (ctl == [] && done == 1 && s.comp.bound))
    case Installing(id) =>
      && id + 1 == s.agent.next && s.comp.bound
      && ((ctl == [SetSelection(id), Sync] && done == 0 && id !in s.comp.used)
          || (ctl == [Sync] && done == 0 && id in s.comp.used)
          || (ctl == [] && done == 1 && id in s.comp.used))
  }

  /** Other requests only release what is dead, and read what is foreign. */
  ghost predicate Harmless(r: Request, live: set<nat>, next: nat)
  {
    && (r.DestroySource? ==> r.id < next && r.id !in live)
    && (r.Receive? ==> r.source.Foreign?)
  }

  ghost predicate HarmlessRequests(s: System)
  {
    forall r :: r in s.reqs ==> Harmless(r, s.agent.live, s.agent.next)
  }

  ghost predicate Settles(s: System)
  {
    var end := Replay(ViewOf(s.agent), s.evs);
    && end.live == Residue(s)
    && (s.comp.bound ==> end.seen == s.comp.sel)
    && (end.skipped ==> end.owned.Some?)
  }

  /** Copy-out reads only foreign offers, and misses none it was free to take. */
  ghost predicate Copied(a: Agent)
  {
    && (forall r :: r in a.copies ==> r.Foreign?)
    && (a.attempt.Opened? ==> a.copies != [] && a.copies[|a.copies| - 1] == a.attempt.source)
    && (!a.skipped && IsText(a.seen) ==>
          a.attempt == Opened(a.seen.source) || a.attempt == PipeFailed(a.seen.source))
  }

  ghost predicate UsedInstalled(s: System)
  {
    && !s.comp.broken
    && (forall k :: k in s.comp.used ==> k < s.agent.next)
    && (s.comp.sel.Selected? && s.comp.sel.source.Own? ==> s.comp.sel.source.id in s.comp.used)
  }

  ghost predicate Inv(s: System)
  {
    && FlagExact(ViewOf(s.agent), s.agent.next)
    && AllExpected(ViewOf(s.agent), s.evs)
    && Settles(s)
    && RoundtripOrdered(s)
    && HarmlessRequests(s)
    && UsedInstalled(s)
    && Copied(s.agent)
  }

  // ---- the queues grow at the end ----------------------------------------

  lemma {:induction false} ReplayAppend(v: View, evs: seq<Event>, e: Event)
    ensures Replay(v, evs + [e]) == After(Replay(v, evs), e)
    ensures AllExpected(v, evs + [e]) <==> AllExpected(v, evs) && Expected(Replay(v, evs), e)
    ensures SyncDones(evs + [e]) == SyncDones(evs) + if e.SyncDone? then 1 else 0
    decreases |evs|
  {
    if evs == [] {
      assert (evs + [e])[1..] == [];
    } else {
      assert (evs + [e])[1..] == evs[1..] + [e];
      ReplayAppend(After(v, evs[0]), evs[1..], e);
    }
  }

  lemma {:induction false} ControlAppend(reqs: seq<Request>, r: Request)
    ensures Control(reqs + [r]) == if IsControl(r) then Control(reqs) + [r] else Control(reqs)
  {
    if reqs == [] {
      assert (reqs + [r])[1..] == [];
    } else {
      assert (reqs + [r])[1..] == reqs[1..] + [r];
      ControlAppend(reqs[1..], r);
    }
  }

  /** Adding a source newer than all live ones disturbs no queued event. */
  lemma {:induction false} ReplayNewer(v: View, w: View, evs: seq<Event>, id: nat)
    requires AllExpected(v, evs)
    requires forall k :: k in v.live ==> k < id
    requires w.live == v.live + {id} && w.owned == Some(id) && w.seen == v.seen
    ensures AllExpected(w, evs)
    ensures Replay(w, evs).live == Replay(v, evs).live + {id}
    ensures Replay(w, evs).owned == Some(id)
    ensures Replay(w, evs).seen == Replay(v, evs).seen
    decreases |evs|
  {
    if evs != [] {
      ReplayNewer(After(v, evs[0]), After(w, evs[0]), evs[1..], id);
    }
  }

  lemma {:induction false} ReplayShrinks(v: View, evs: seq<Event>)
    ensures Replay(v, evs).live <= v.live
    decreases |evs|
  {
    if evs != [] {
      ReplayShrinks(After(v, evs[0]), evs[1..]);
    }
  }

  lemma {:induction false} ReplayKeepsFlag(v: View, evs: seq<Event>, next: nat)
    requires FlagExact(v, next) && AllExpected(v, evs)
    ensures FlagExact(Replay(v, evs), next)
    decreases |evs|
  {
    if evs != [] {
      AfterKeepsFlag(v, evs[0], next);
      ReplayKeepsFlag(After(v, evs[0]), evs[1..], next);
    }
  }

  /** The newest source is the last to be cancelled, so the flag outlives all others. */
  lemma {:induction false} AfterKeepsFlag(v: View, e: Event, next: nat)
    requires FlagExact(v, next) && Expected(v, e)
    ensures FlagExact(After(v, e), next)
  {
  }

  // ---- every action keeps the invariant ----------------------------------

  lemma {:induction false} BootInv(sel: Selection)
    requires !(sel.Selected? && sel.source.Own?)
    ensures Inv(Boot(sel))
  {
    assert Control([GetDevice, Sync]) == [GetDevice, Sync] by {
      assert [GetDevice, Sync][1..] == [Sync];
      assert [Sync][1..] == [];
    }
  }

  lemma {:induction false} OfferControl(s: System)
    requires Control(s.reqs) == []
    ensures Control(ByAgent(s, OfferSource(s.agent)).reqs) == [SetSelection(s.agent.next), Sync]
  {
    var id := s.agent.next;
    ControlAppend(s.reqs, SetSelection(id));
    ControlAppend(s.reqs + [SetSelection(id)], Sync);
    assert s.reqs + [SetSelection(id), Sync] == s.reqs + [SetSelection(id)] + [Sync];
  }

  lemma {:induction false} OfferSettles(s: System)
    requires Inv(s) && s.agent.mode.Idle?
    ensures var s' := ByAgent(s, OfferSource(s.agent));
            Settles(s') && AllExpected(ViewOf(s'.agent), s'.evs) && FlagExact(ViewOf(s'.agent), s'.agent.next)
  {
    OfferControl(s);
    ReplayNewer(ViewOf(s.agent), ViewOf(OfferSource(s.agent).agent), s.evs, s.agent.next);
  }

  lemma {:induction false} OfferTextKeepsInv(s: System)
    requires Inv(s) && s.agent.mode.Idle?
    ensures Inv(ByAgent(s, OfferSource(s.agent)))
  {
    OfferControl(s);
    OfferSettles(s);
    var s' := ByAgent(s, OfferSource(s.agent));
    assert HarmlessRequests(s');
  }

  function Delivered(s: System, pipeOk: bool): System
    requires s.evs != []
  {
    ByAgent(s.(evs := s.evs[1..]), Dispatch(s.agent, s.evs[0], pipeOk))
  }

  /** Dispatching requests a release or a read, never a roundtrip. */
  lemma {:induction false} DeliverControl(s: System, pipeOk: bool)
    requires s.evs != []
    ensures Control(Delivered(s, pipeOk).reqs) == Control(s.reqs)
    ensures ViewOf(Delivered(s, pipeOk).agent) == After(ViewOf(s.agent), s.evs[0])
  {
    var rs := Dispatch(s.agent, s.evs[0], pipeOk).requests;
    if rs == [] {
      assert s.reqs + rs == s.reqs;
    } else {
      assert rs == [rs[0]];
      ControlAppend(s.reqs, rs[0]);
    }
  }

  lemma {:induction false} DeliverSettles(s: System, pipeOk: bool)
    requires Settles(s) && s.evs != []
    ensures Settles(Delivered(s, pipeOk))
  {
    DeliverControl(s, pipeOk);
  }

  lemma {:induction false} DeliverRoundtrip(s: System, pipeOk: bool)
    requires RoundtripOrdered(s) && s.evs != []
    ensures RoundtripOrdered(Delivered(s, pipeOk))
  {
    DeliverControl(s, pipeOk);
  }

  /** The echo of an own source always finds the flag set. */
  lemma {:induction false} EchoFindsFlag(s: System)
    requires FlagExact(ViewOf(s.agent), s.agent.next)
    requires s.evs != [] && Expected(ViewOf(s.agent), s.evs[0])
    ensures s.evs[0].Announce? && s.evs[0].sel.Selected? && s.evs[0].sel.source.Own? ==> s.agent.owned.Some?
  {
  }

  lemma {:induction false} DeliverCopies(s: System, pipeOk: bool)
    requires Copied(s.agent) && HarmlessRequests(s)
    requires FlagExact(ViewOf(s.agent), s.agent.next)
    requires s.evs != [] && Expected(ViewOf(s.agent), s.evs[0])
    ensures Copied(Delivered(s, pipeOk).agent) && HarmlessRequests(Delivered(s, pipeOk))
  {
    EchoFindsFlag(s);
  }

  lemma {:induction false} DeliverKeepsInv(s: System, pipeOk: bool)
    requires Inv(s) && s.evs != []
    ensures Inv(Delivered(s, pipeOk))
  {
    DeliverControl(s, pipeOk);
    AfterKeepsFlag(ViewOf(s.agent), s.evs[0], s.agent.next);
    DeliverSettles(s, pipeOk);
    DeliverRoundtrip(s, pipeOk);
    DeliverCopies(s, pipeOk);
  }

  function OwnIds(sel: Selection): set<nat>
  {
    if sel.Selected? && sel.source.Own? then {sel.source.id} else {}
  }

  /**
    A replacement on a bound device: the old own source, if any, is the oldest
    live one when its cancellation is dispatched, and the flag is consulted only
    after that.
   */
  lemma {:induction false} ReplaceReplay(v: View, evs: seq<Event>, replaced: Selection, sel: Selection)
    requires AllExpected(v, evs)
    requires OwnIds(replaced) + OwnIds(sel) <= Replay(v, evs).live
    requires forall x, k :: x in OwnIds(replaced) && k in Replay(v, evs).live ==> x <= k
    requires OwnIds(replaced) !! OwnIds(sel)
    ensures var end := Replay(v, evs + (CancelOld(replaced) + [Announce(sel)]));
            && AllExpected(v, evs + (CancelOld(replaced) + [Announce(sel)]))
            && end.live == Replay(v, evs).live - OwnIds(replaced)
            && end.seen == sel
            && (end.skipped ==> end.owned.Some?)
    ensures SyncDones(evs + (CancelOld(replaced) + [Announce(sel)])) == SyncDones(evs)
  {
    if CancelOld(replaced) == [] {
      assert CancelOld(replaced) + [Announce(sel)] == [Announce(sel)];
      ReplayAppend(v, evs, Announce(sel));
    } else {
      var id := replaced.source.id;
      assert evs + (CancelOld(replaced) + [Announce(sel)]) == evs + [Cancelled(id)] + [Announce(sel)];
      ReplayAppend(v, evs, Cancelled(id));
      ReplayAppend(v, evs + [Cancelled(id)], Announce(sel));
    }
  }

  /** Another client sets or clears the selection. */
  lemma {:induction false} ForeignInstallKeepsInv(s: System, sel: Selection)
    requires Inv(s) && OwnIds(sel) == {}
    ensures Inv(ByCompositor(s, Install(s.comp, sel)))
  {
    var s' := ByCompositor(s, Install(s.comp, sel));
    if SameSource(s.comp.sel, sel) {
      assert s'.evs == s.evs;
    } else if s.comp.bound {
      ReplaceReplay(ViewOf(s.agent), s.evs, s.comp.sel, sel);
    } else {
      assert CancelOld(s.comp.sel) == [];
      assert s'.evs == s.evs;
    }
  }

  lemma {:induction false} ForeignDestroyKeepsInv(s: System, id: nat)
    requires Inv(s)
    ensures Inv(ByCompositor(s, Destroyed(s.comp, Foreign(id))))
  {
    var s' := ByCompositor(s, Destroyed(s.comp, Foreign(id)));
    if s.comp.bound && s.comp.sel.Selected? && s.comp.sel.source == Foreign(id) {
      ReplayAppend(ViewOf(s.agent), s.evs, Announce(NoSelection));
    } else {
      assert s'.evs == s.evs;
    }
  }

  lemma {:induction false} PasteKeepsInv(s: System, src: Source)
    requires Inv(s)
    ensures Inv(ByCompositor(s, Receiving(s.comp, src)))
  {
    var s' := ByCompositor(s, Receiving(s.comp, src));
    if s'.evs != s.evs {
      ReplayAppend(ViewOf(s.agent), s.evs, Paste(src.id));
    }
  }

  // ---- serving requests --------------------------------------------------

  function Served(s: System): System
    requires s.reqs != []
  {
    ByCompositor(s.(reqs := s.reqs[1..]), ServeRequest(s.comp, s.reqs[0]))
  }

  lemma {:induction false} ServeSetSelectionKeepsInv(s: System)
    requires Inv(s) && s.reqs != [] && s.reqs[0].SetSelection?
    ensures Inv(Served(s))
  {
    var id := s.reqs[0].id;
    var sel := Selected(Own(id), OWN_MIMES);
    assert Control(s.reqs[1..]) == Control(s.reqs)[1..] == [Sync];
    ReplaceReplay(ViewOf(s.agent), s.evs, s.comp.sel, sel);
  }

  lemma {:induction false} ServeSyncKeepsInv(s: System)
    requires Inv(s) && s.reqs != [] && s.reqs[0].Sync?
    ensures Inv(Served(s))
  {
    assert Control(s.reqs) == [s.reqs[0]] + Control(s.reqs[1..]);
    ReplayAppend(ViewOf(s.agent), s.evs, SyncDone);
  }

  lemma {:induction false} ServeGetDeviceKeepsInv(s: System)
    requires Inv(s) && s.reqs != [] && s.reqs[0].GetDevice?
    ensures Inv(Served(s))
  {
    assert Control(s.reqs[1..]) == Control(s.reqs)[1..] == [Sync];
    ReplayAppend(ViewOf(s.agent), s.evs, Announce(s.comp.sel));
  }

  /** Releasing a dead source and pasting from a foreign one change nothing here. */
  lemma {:induction false} ServeOtherKeepsInv(s: System)
    requires Inv(s) && s.reqs != [] && (s.reqs[0].DestroySource? || s.reqs[0].Receive?)
    ensures Inv(Served(s))
  {
    assert Harmless(s.reqs[0], s.agent.live, s.agent.next);
    assert Control(s.reqs) == Control(s.reqs[1..]);
    ReplayShrinks(ViewOf(s.agent), s.evs);
    assert s.reqs[0].DestroySource? ==> s.reqs[0].id !in Residue(s);
    assert Served(s).evs == s.evs;
  }

  lemma {:induction false} StepKeepsInv(s: System, a: Action)
    requires Inv(s) && Step(s, a).Some?
    ensures Inv(Step(s, a).value)
  {
    match a
    case OfferText => OfferTextKeepsInv(s);
    case Deliver(pipeOk) => DeliverKeepsInv(s, pipeOk);
    case Serve =>
      match s.reqs[0] {
        case GetDevice => ServeGetDeviceKeepsInv(s);
        case SetSelection(_) => ServeSetSelectionKeepsInv(s);
        case Sync => ServeSyncKeepsInv(s);
        case _ => ServeOtherKeepsInv(s);
      }
    case ForeignSet(id, mimes) => ForeignInstallKeepsInv(s, Selected(Foreign(id), mimes));
    case ForeignClear => ForeignInstallKeepsInv(s, NoSelection);
    case ForeignDestroy(id) => ForeignDestroyKeepsInv(s, id);
    case ForeignPaste(src) => PasteKeepsInv(s, src);
  }

  lemma {:induction false} RunKeepsInv(s: System, actions: seq<Action>)
    requires Inv(s) && Run(s, actions).Some?
    ensures Inv(Run(s, actions).value)
    decreases |actions|
  {
    if actions != [] {
      StepKeepsInv(s, actions[0]);
      RunKeepsInv(Step(s, actions[0]).value, actions[1..]);
    }
  }

  lemma {:induction false} ReachableInv(s: System)
    requires Reachable(s)
    ensures Inv(s)
  {
    var sel: Selection, actions: seq<Action> :|
      !(sel.Selected? && sel.source.Own?) && Run(Boot(sel), actions) == Some(s);
    BootInv(sel);
    RunKeepsInv(Boot(sel), actions);
  }
}
