/** The promises of the selection protocol, for every reachable state. */
module SelectionTheorems {
  import opened Basics
  import opened SelectionProtocol
  import opened SelectionSafety

  /** `e` mentions the agent's source `id`. */
  predicate Names(e: Event, id: nat)
  {
    match e
    case Announce(sel) => sel.Selected? && sel.source == Own(id)
    case Cancelled(k) => k == id
    case Paste(k) => k == id
    case SyncDone => false
  }

  lemma {:induction false} NamedIsLive(v: View, evs: seq<Event>, j: nat, id: nat)
    requires AllExpected(v, evs) && j < |evs| && Names(evs[j], id)
    ensures id in v.live
    decreases j
  {
    if j > 0 {
      NamedIsLive(After(v, evs[0]), evs[1..], j - 1, id);
    }
  }

  lemma {:induction false} CancelledIsLast(v: View, evs: seq<Event>, i: nat, j: nat, id: nat)
    requires AllExpected(v, evs) && i < j < |evs| && evs[i] == Cancelled(id)
    ensures !Names(evs[j], id)
    decreases i
  {
    if i == 0 {
      if Names(evs[j], id) {
        assert evs[1..][j - 1] == evs[j];
        NamedIsLive(After(v, evs[0]), evs[1..], j - 1, id);
      }
    } else {
      CancelledIsLast(After(v, evs[0]), evs[1..], i - 1, j - 1, id);
    }
  }

  /**
    No use after free: every queued event names a source the agent still holds,
    and the cancellation that frees a source is the last event to name it.
   */
  lemma {:induction false} NoUseAfterFree(s: System, j: nat, id: nat)
    requires Reachable(s) && j < |s.evs| && Names(s.evs[j], id)
    ensures id in s.agent.live
    ensures forall i :: 0 <= i < j ==> s.evs[i] != Cancelled(id)
  {
    ReachableInv(s);
    NamedIsLive(ViewOf(s.agent), s.evs, j, id);
    forall i | 0 <= i < j
      ensures s.evs[i] != Cancelled(id)
    {
      if s.evs[i] == Cancelled(id) {
        CancelledIsLast(ViewOf(s.agent), s.evs, i, j, id);
      }
    }
  }

  /** Echo safety: no copy-out read was ever opened, or asked for, on the agent's own text. */
  lemma {:induction false} EchoSafety(s: System)
    requires Reachable(s)
    ensures forall r :: r in s.agent.copies ==> r.Foreign?
    ensures forall r :: r in s.reqs && r.Receive? ==> r.source.Foreign?
  {
    ReachableInv(s);
  }

  lemma {:induction false} ControlIn(reqs: seq<Request>, id: nat)
    requires SetSelection(id) in reqs
    ensures SetSelection(id) in Control(reqs)
  {
    if reqs[0] != SetSelection(id) {
      ControlIn(reqs[1..], id);
    }
  }

  /** While the flag is clear nothing of the agent's own is in flight, in either direction. */
  lemma {:induction false} ClearFlagMeansNothingInFlight(s: System, id: nat)
    requires Reachable(s) && s.agent.owned.None?
    ensures SetSelection(id) !in s.reqs
    ensures forall e :: e in s.evs ==> !Names(e, id)
    ensures s.comp.sel.Selected? ==> s.comp.sel.source.Foreign?
    ensures s.agent.live == {}
  {
    ReachableInv(s);
    if SetSelection(id) in s.reqs {
      ControlIn(s.reqs, id);
      assert id in Residue(s);
    }
    ReplayShrinks(ViewOf(s.agent), s.evs);
    forall e | e in s.evs
      ensures !Names(e, id)
    {
      var j :| 0 <= j < |s.evs| && s.evs[j] == e;
      if Names(e, id) {
        NamedIsLive(ViewOf(s.agent), s.evs, j, id);
      }
    }
  }

  /**
    Agreement at rest: with both channels empty the agent is out of every
    roundtrip, its flag names the compositor's selection exactly when that is the
    agent's newest source, no other source of its is left allocated, and a foreign
    text selection is the one the agent tried to read last.
   */
  lemma {:induction false} QuiescentAgreement(s: System)
    requires Reachable(s) && s.reqs == [] && s.evs == []
    ensures s.agent.mode.Idle?
    ensures forall id: nat :: s.agent.owned == Some(id) <==>
              s.comp.sel.Selected? && s.comp.sel.source == Own(id) && id + 1 == s.agent.next
    ensures s.agent.owned.None? <==> !(s.comp.sel.Selected? && s.comp.sel.source.Own?)
    ensures s.agent.live == if s.agent.owned.Some? then {s.agent.owned.value} else {}
    ensures s.agent.seen == s.comp.sel
    ensures IsText(s.comp.sel) && s.comp.sel.source.Foreign? ==>
              || s.agent.attempt == PipeFailed(s.comp.sel.source)
              || (s.agent.copies != [] && s.agent.copies[|s.agent.copies| - 1] == s.comp.sel.source)
  {
    ReachableInv(s);
  }

  /** A roundtrip ends only once the compositor has served the set_selection before it. */
  lemma {:induction false} DoneMeansInstalled(s: System)
    requires Reachable(s) && s.evs != [] && s.evs[0].SyncDone? && s.agent.mode.Installing?
    ensures s.agent.mode.id in s.comp.used
  {
    ReachableInv(s);
    assert SyncDones(s.evs) >= 1;
  }

  /** The agent never commits a protocol error, and never clears the selection by a release. */
  lemma {:induction false} NoProtocolError(s: System)
    requires Reachable(s)
    ensures !s.comp.broken
    ensures s.reqs != [] && s.reqs[0].SetSelection? ==> s.reqs[0].id !in s.comp.used
    ensures s.reqs != [] && s.reqs[0].DestroySource? ==> Destroyed(s.comp, Own(s.reqs[0].id)) == CompositorStep(s.comp, [])
  {
    ReachableInv(s);
    if s.reqs != [] {
      assert Harmless(s.reqs[0], s.agent.live, s.agent.next);
      ReplayShrinks(ViewOf(s.agent), s.evs);
      assert s.reqs[0].SetSelection? ==> Control(s.reqs)[0] == s.reqs[0];
    }
  }

  // ---- the selection the flag makes the agent miss -----------------------

  predicate IsOwn(sel: Selection)
  {
    sel.Selected? && sel.source.Own?
  }

  ghost predicate NamesNone(evs: seq<Event>)
  {
    forall j, id :: 0 <= j < |evs| ==> !Names(evs[j], id)
  }

  /** Something of the agent's own is still on its way, behind the first event. */
  ghost predicate OwnInFlight(s: System)
    requires s.evs != []
  {
    (exists id: nat :: SetSelection(id) in s.reqs) || !NamesNone(s.evs[1..])
  }

  lemma {:induction false} ForeignReplay(v: View, evs: seq<Event>)
    requires NamesNone(evs) && !IsOwn(v.seen)
    ensures Replay(v, evs).live == v.live && !IsOwn(Replay(v, evs).seen)
    decreases |evs|
  {
    if evs != [] {
      var e := evs[0];
      assert !(e.Announce? && IsOwn(e.sel) && Names(e, e.sel.source.id));
      assert !(e.Cancelled? && Names(e, e.id));
      assert forall j :: 0 <= j < |evs| - 1 ==> evs[1..][j] == evs[j + 1];
      ForeignReplay(After(v, e), evs[1..]);
    }
  }

  lemma {:induction false} ControlOf(reqs: seq<Request>, r: Request)
    requires r in Control(reqs)
    ensures r in reqs
  {
    if !(IsControl(reqs[0]) && r == reqs[0]) {
      ControlOf(reqs[1..], r);
    }
  }

  /**
    Which foreign announcements are dropped: exactly those that reach the agent
    while something of its own is still in flight.
   */
  lemma {:induction false} SkippedExactly(s: System)
    requires Reachable(s) && s.evs != [] && s.evs[0].Announce? && !IsOwn(s.evs[0].sel)
    ensures s.agent.owned.Some? <==> OwnInFlight(s)
  {
    if s.agent.owned.Some? {
      ReachableInv(s);
      if Requested(s) {
        ControlOf(s.reqs, Control(s.reqs)[0]);
        assert SetSelection(Control(s.reqs)[0].id) in s.reqs;
      } else if NamesNone(s.evs[1..]) {
        ForeignReplay(After(ViewOf(s.agent), s.evs[0]), s.evs[1..]);
      }
    } else if OwnInFlight(s) {
      NothingInFlight(s);
    }
  }

  lemma {:induction false} NothingInFlight(s: System)
    requires Reachable(s) && s.agent.owned.None? && s.evs != []
    ensures !OwnInFlight(s)
  {
    forall id: nat
      ensures SetSelection(id) !in s.reqs
    {
      ClearFlagMeansNothingInFlight(s, id);
    }
    forall j, id: nat | 0 <= j < |s.evs| - 1
      ensures !Names(s.evs[1..][j], id)
    {
      ClearFlagMeansNothingInFlight(s, id);
      var e := s.evs[1..][j];
      assert e == s.evs[j + 1] && e in s.evs;
    }
  }

  predicate AnnouncesIn(evs: seq<Event>)
  {
    exists i :: 0 <= i < |evs| && evs[i].Announce?
  }

  lemma {:induction false} QuietReplay(v: View, evs: seq<Event>)
    requires !AnnouncesIn(evs)
    ensures Replay(v, evs).seen == v.seen && Replay(v, evs).skipped == v.skipped
    decreases |evs|
  {
    if evs != [] {
      assert !evs[0].Announce?;
      assert forall i :: 0 <= i < |evs[1..]| ==> evs[1..][i] == evs[i + 1];
      QuietReplay(After(v, evs[0]), evs[1..]);
    }
  }

  /**
    A foreign announcement dropped because the flag is set is already superseded:
    another announcement follows it, or the agent's own set_selection is queued.
   */
  lemma {:induction false} SkippedOnlyIfSuperseded(s: System)
    requires Reachable(s) && s.evs != [] && s.evs[0].Announce?
    requires !(s.evs[0].sel.Selected? && s.evs[0].sel.source.Own?)
    ensures s.agent.owned.Some? ==> AnnouncesIn(s.evs[1..]) || Requested(s)
  {
    ReachableInv(s);
    if s.agent.owned.Some? && !AnnouncesIn(s.evs[1..]) {
      var v := ViewOf(s.agent);
      QuietReplay(After(v, s.evs[0]), s.evs[1..]);
      ReplayKeepsFlag(v, s.evs, s.agent.next);
    }
  }

  const TEXT := Mimes(true, false, false)

  /** The desktop copies text while a host offer is on its way to the agent. */
  const BOOTED: seq<Action> := [Serve, Serve, Deliver(true), Deliver(true)]
  const COPIED: seq<Action> := [ForeignSet(7, TEXT)]
  const OVERTAKEN: seq<Action> := [OfferText, Deliver(true), Serve, Serve, Deliver(true), Deliver(true)]

  lemma {:induction false} RunConcat(s: System, first: seq<Action>, second: seq<Action>)
    requires Run(s, first).Some?
    ensures Run(s, first + second) == Run(Run(s, first).value, second)
    decreases |first|
  {
    if first == [] {
      assert first + second == second;
    } else {
      assert (first + second)[1..] == first[1..] + second;
      RunConcat(Step(s, first[0]).value, first[1..], second);
    }
  }

  lemma {:induction false} RunFour(s: System, a: Action, b: Action, c: Action, d: Action)
    requires Step(s, a).Some? && Step(Step(s, a).value, b).Some?
    requires Step(Step(Step(s, a).value, b).value, c).Some?
    ensures Run(s, [a, b, c, d]) == Step(Step(Step(Step(s, a).value, b).value, c).value, d)
  {
    assert [a, b, c, d][1..] == [b, c, d];
    assert [b, c, d][1..] == [c, d];
    assert [c, d][1..] == [d];
    assert [d][1..] == [];
    var s2 := Step(Step(s, a).value, b).value;
    var s3 := Step(s2, c).value;
    assert Run(s3, [d]) == Step(s3, d);
    assert Run(s2, [c, d]) == Run(s3, [d]);
  }

  /** The state in which `COPIED` has made a foreign text the selection and announced it. */
  const FOREIGN_ANNOUNCED := System(
    Agent(None, {}, 0, Idle, [], NoSelection, false, NoAttempt),
    Compositor(true, Selected(Foreign(7), TEXT), {}, false),
    [], [Announce(Selected(Foreign(7), TEXT))])

  lemma {:induction false} ReachesAnnouncement()
    ensures Run(Boot(NoSelection), BOOTED + COPIED) == Some(FOREIGN_ANNOUNCED)
  {
    var s0 := Boot(NoSelection);
    var b := Step(Step(s0, Serve).value, Serve).value;
    assert b.evs == [Announce(NoSelection), SyncDone];
    var d := Step(Step(b, Deliver(true)).value, Deliver(true)).value;
    assert d.reqs == [] && d.evs == [];
    RunFour(s0, Serve, Serve, Deliver(true), Deliver(true));
    RunConcat(s0, BOOTED, COPIED);
    assert COPIED[1..] == [];
    assert Step(d, ForeignSet(7, TEXT)).value == FOREIGN_ANNOUNCED;
  }

  lemma {:induction false} ServesOwn(g: System)
    requires g.reqs == [SetSelection(0), Sync] && g.evs == []
    requires g.comp == FOREIGN_ANNOUNCED.comp && g.agent.mode == Installing(0) && g.agent.owned == Some(0)
    ensures Step(Step(g, Serve).value, Serve).Some?
    ensures var i := Step(Step(g, Serve).value, Serve).value;
            && i.evs == [Announce(Selected(Own(0), OWN_MIMES)), SyncDone] && i.reqs == [] && i.agent == g.agent
  {
  }

  /** The host offer is under way and the announcement has been dispatched, unread. */
  const OFFER_UNDER_WAY := System(
    Agent(Some(0), {0}, 1, Installing(0), [], Selected(Foreign(7), TEXT), true, NoAttempt),
    Compositor(true, Selected(Foreign(7), TEXT), {}, false),
    [SetSelection(0), Sync], [])

  lemma {:induction false} OfferFirst()
    ensures Step(FOREIGN_ANNOUNCED, OfferText).Some?
    ensures Step(Step(FOREIGN_ANNOUNCED, OfferText).value, Deliver(true)) == Some(OFFER_UNDER_WAY)
  {
    var f := Step(FOREIGN_ANNOUNCED, OfferText).value;
    var g := Step(f, Deliver(true)).value;
    assert g.reqs == [SetSelection(0), Sync] && g.evs == [] && g.agent.live == {0};
  }

  lemma {:induction false} OfferCompletes()
    ensures Run(OFFER_UNDER_WAY, [Serve, Serve, Deliver(true), Deliver(true)]).Some?
    ensures var s := Run(OFFER_UNDER_WAY, [Serve, Serve, Deliver(true), Deliver(true)]).value;
            s.reqs == [] && s.evs == [] && s.agent.copies == [] && s.agent.attempt == NoAttempt
  {
    ServesOwn(OFFER_UNDER_WAY);
    RunFour(OFFER_UNDER_WAY, Serve, Serve, Deliver(true), Deliver(true));
  }

  lemma {:induction false} OvertakesAnnouncement()
    ensures Run(FOREIGN_ANNOUNCED, OVERTAKEN).Some?
    ensures var s := Run(FOREIGN_ANNOUNCED, OVERTAKEN).value;
            s.reqs == [] && s.evs == [] && s.agent.copies == [] && s.agent.attempt == NoAttempt
  {
    OfferFirst();
    OfferCompletes();
    var f := Step(FOREIGN_ANNOUNCED, OfferText).value;
    assert OVERTAKEN[1..][1..] == [Serve, Serve, Deliver(true), Deliver(true)];
    assert Run(f, OVERTAKEN[1..]) == Run(OFFER_UNDER_WAY, OVERTAKEN[1..][1..]);
  }

  /**
    "kclipd reports every selection it did not set" (docs/architecture.md) is too
    strong: here a foreign text becomes the selection, is announced, and is never
    read, because a host offer takes the selection over first.
   */
  lemma {:induction false} ForeignCopyCanBeMissed()
    ensures var run := BOOTED + COPIED;
            && Run(Boot(NoSelection), run).Some?
            && Run(Boot(NoSelection), run).value.comp.sel == Selected(Foreign(7), TEXT)
            && Run(Boot(NoSelection), run + OVERTAKEN).Some?
            && var s := Run(Boot(NoSelection), run + OVERTAKEN).value;
               s.reqs == [] && s.evs == [] && s.agent.copies == [] && s.agent.attempt == NoAttempt
  {
    ReachesAnnouncement();
    OvertakesAnnouncement();
    RunConcat(Boot(NoSelection), BOOTED + COPIED, OVERTAKEN);
  }

  // ---- what each side does -----------------------------------------------

  predicate HasMime(m: Mimes, t: Mime)
  {
    match t
    case Utf8 => m.utf8
    case Plain => m.plain
    case Utf8String => m.utf8String
  }

  /** "text/plain;charset=utf-8" before "text/plain" before "UTF8_STRING". */
  predicate Better(t: Mime, u: Mime)
  {
    (t.Utf8? && !u.Utf8?) || (t.Plain? && u.Utf8String?)
  }

  /** An offer is text exactly when it has one of the three types, and is then read as the best it has. */
  lemma {:induction false} BestMime(m: Mimes)
    ensures ReadableMime(m).Some? <==> exists t :: HasMime(m, t)
    ensures ReadableMime(m).Some? ==>
              HasMime(m, ReadableMime(m).value) && forall u :: HasMime(m, u) ==> !Better(u, ReadableMime(m).value)
  {
    assert m.utf8 ==> HasMime(m, Utf8);
    assert m.plain ==> HasMime(m, Plain);
    assert m.utf8String ==> HasMime(m, Utf8String);
  }

  /** A foreign text that is not skipped is asked for once, as its best type, from its own source. */
  lemma {:induction false} AsksForBest(s: System)
    requires s.evs != [] && s.evs[0].Announce? && s.evs[0].sel.Selected? && s.agent.owned.None?
    ensures var sel, s' := s.evs[0].sel, Step(s, Deliver(true)).value;
            if exists t :: HasMime(sel.mimes, t)
            then exists t :: s'.reqs == s.reqs + [Receive(sel.source, t)] && HasMime(sel.mimes, t)
                             && forall u :: HasMime(sel.mimes, u) ==> !Better(u, t)
            else s'.reqs == s.reqs
  {
    var sel := s.evs[0].sel;
    BestMime(sel.mimes);
    hide HasMime, Better, ReadableMime;
    if ReadableMime(sel.mimes).Some? {
      var t := ReadableMime(sel.mimes).value;
      assert Step(s, Deliver(true)).value.reqs == s.reqs + [Receive(sel.source, t)];
    } else {
      assert s.reqs + [] == s.reqs;
    }
  }

  /** Whatever changes the selection, the agent's device is told the new one last. */
  lemma {:induction false} ChangeAnnounced(s: System, a: Action)
    requires Step(s, a).Some? && s.comp.bound
    ensures var s' := Step(s, a).value;
            && (s'.comp.sel != s.comp.sel ==>
                  |s'.evs| > |s.evs| && s'.evs[|s'.evs| - 1] == Announce(s'.comp.sel))
            && (!a.Deliver? ==> s.evs <= s'.evs)
  {
  }

  /** Another client's set, clear and destroy do to the selection what they say. */
  lemma {:induction false} ClientsDecide(s: System, id: nat, mimes: Mimes)
    ensures var t := Step(s, ForeignSet(id, mimes)).value.comp.sel;
            t.Selected? && t.source == Foreign(id) && (!(s.comp.sel.Selected? && s.comp.sel.source == Foreign(id)) ==> t.mimes == mimes)
    ensures Step(s, ForeignClear).value.comp.sel == NoSelection
    ensures var t := Step(s, ForeignDestroy(id)).value.comp.sel;
            t == if s.comp.sel.Selected? && s.comp.sel.source == Foreign(id) then NoSelection else s.comp.sel
  {
  }

  /** Once served, the agent's set_selection has made its new source the selection. */
  lemma {:induction false} OwnInstalled(s: System)
    requires Inv(s) && s.reqs != [] && s.reqs[0].SetSelection?
    ensures Step(s, Serve).value.comp.sel == Selected(Own(s.reqs[0].id), OWN_MIMES)
  {
    assert Harmless(s.reqs[0], s.agent.live, s.agent.next);
    FirstControl(s.reqs);
  }

  lemma {:induction false} FirstControl(reqs: seq<Request>)
    ensures reqs != [] && IsControl(reqs[0]) ==> Control(reqs) != [] && Control(reqs)[0] == reqs[0]
  {
  }

  /** A paste from the agent's current source reaches it, and from any other source it does not. */
  lemma {:induction false} PasteForwarded(s: System, src: Source)
    ensures Step(s, ForeignPaste(src)).value.evs
            == s.evs + if src.Own? && s.comp.sel.Selected? && s.comp.sel.source == src then [Paste(src.id)] else []
  {
  }
}
