/**
  The desktop selection as a protocol between two processes.

  kclipd (the clipboard agent) and the compositor talk over two FIFO channels:
  requests travel from the agent to the compositor, events travel back. Other
  clients of the compositor set, clear and destroy selections of their own at any
  time, so every interleaving of the actions below is a run of the desktop.

  The agent recognises the echo of its own `set_selection` by one flag, `owned`.
  SelectionSafety and SelectionTheorems say what that flag is worth: over every run
  no read is ever opened on the agent's own text, no event names a source the agent
  has freed, and whenever both channels are empty the two sides agree.
 */
module SelectionProtocol {
  import opened Basics

  /** The text types the agent looks for in an offer (offer_offer). */
  datatype Mimes = Mimes(utf8: bool, plain: bool, utf8String: bool)

  datatype Mime = Utf8 | Plain | Utf8String

  /** A data source: the agent's own sources are numbered in creation order. */
  datatype Source = Own(id: nat) | Foreign(id: nat)

  datatype Selection = NoSelection | Selected(source: Source, mimes: Mimes)

  /** `SetSelection` stands for the agent's create/offer/set_selection batch. */
  datatype Request =
    | GetDevice
    | SetSelection(id: nat)
    | DestroySource(id: nat)
    | Receive(source: Source, mime: Mime)
    | Sync

  /** `Announce` stands for the data_offer/offer/selection batch. */
  datatype Event =
    | Announce(sel: Selection)
    | Cancelled(id: nat)
    | Paste(id: nat)
    | SyncDone

  // ---- the agent ---------------------------------------------------------

  /** A roundtrip the agent is blocked in, if any. */
  datatype Mode = Starting | Idle | Installing(id: nat)

  /** What became of the last foreign text offer the agent acted on. */
  datatype Attempt = NoAttempt | Opened(source: Source) | PipeFailed(source: Source)

  /**
    `live` holds the sources whose record is allocated, `next` numbers the next
    one. The rest is history: every offer a copy-out read was opened for, the last
    selection announced, whether the flag was set when it was dispatched, and the
    last read attempted.
   */
  datatype Agent = Agent(
    owned: Option<nat>,
    live: set<nat>,
    next: nat,
    mode: Mode,
    copies: seq<Source>,
    seen: Selection,
    skipped: bool,
    attempt: Attempt)

  /** The best text type of an offer, as device_selection picks it. */
  function ReadableMime(m: Mimes): (r: Option<Mime>)
  {
    if m.utf8 then Some(Utf8)
    else if m.plain then Some(Plain)
    else if m.utf8String then Some(Utf8String)
    else None
  }

  predicate IsText(sel: Selection)
  {
    sel.Selected? && ReadableMime(sel.mimes).Some?
  }

  /** Every agent source offers all the text types. */
  const OWN_MIMES := Mimes(true, true, true)

  datatype AgentStep = AgentStep(agent: Agent, requests: seq<Request>)

  /** source_cancelled, device_selection and the end of a roundtrip. */
  function Dispatch(a: Agent, e: Event, pipeOk: bool): AgentStep
  {
    match e
    case Cancelled(id) =>
      AgentStep(a.(owned := if a.owned == Some(id) then None else a.owned,
                   live := a.live - {id}),
                [DestroySource(id)])
    case Announce(sel) =>
      var a' := a.(seen := sel, skipped := a.owned.Some?);
      if a.owned.Some? || !IsText(sel) then AgentStep(a', [])
      else if !pipeOk then AgentStep(a'.(attempt := PipeFailed(sel.source)), [])
      else
        AgentStep(a'.(attempt := Opened(sel.source), copies := a.copies + [sel.source]),
                  [Receive(sel.source, ReadableMime(sel.mimes).value)])
    case Paste(id) => AgentStep(a, [])
    case SyncDone => AgentStep(a.(mode := Idle), [])
  }

  /** The tail of handle_offer: a fresh source becomes the owned one. */
  function OfferSource(a: Agent): AgentStep
  {
    AgentStep(a.(owned := Some(a.next), live := a.live + {a.next}, next := a.next + 1,
                 mode := Installing(a.next)),
              [SetSelection(a.next), Sync])
  }

  // ---- the compositor ----------------------------------------------------

  /**
    `bound` is set once the agent has its data-control device, `used` holds the
    agent sources already passed to set_selection. A source used twice is a
    protocol error, which ends the connection (`broken`).
   */
  datatype Compositor = Compositor(bound: bool, sel: Selection, used: set<nat>, broken: bool)

  datatype CompositorStep = CompositorStep(comp: Compositor, events: seq<Event>)

  /** selection_broadcast, restricted to the agent's device. */
  function Broadcast(c: Compositor): seq<Event>
  {
    if c.bound then [Announce(c.sel)] else []
  }

  predicate SameSource(x: Selection, y: Selection)
  {
    if x.Selected? && y.Selected? then x.source == y.source else x.NoSelection? && y.NoSelection?
  }

  /** source_send_cancelled: only the agent's own sources reach the agent. */
  function CancelOld(replaced: Selection): seq<Event>
  {
    if replaced.Selected? && replaced.source.Own? then [Cancelled(replaced.source.id)] else []
  }

  /** selection_set: the replaced source is cancelled, then the new one announced. */
  function Install(c: Compositor, sel: Selection): CompositorStep
  {
    if SameSource(c.sel, sel) then CompositorStep(c, [])
    else
      var c' := c.(sel := sel);
      CompositorStep(c', CancelOld(c.sel) + Broadcast(c'))
  }

  /** data_source_resource_destroy: a destroyed current source clears the selection. */
  function Destroyed(c: Compositor, src: Source): CompositorStep
  {
    if c.sel.Selected? && c.sel.source == src then
      var c' := c.(sel := NoSelection);
      CompositorStep(c', Broadcast(c'))
    else CompositorStep(c, [])
  }

  /** offer_receive: a paste is forwarded only to the source that is still current. */
  function Receiving(c: Compositor, src: Source): CompositorStep
  {
    if c.sel.Selected? && c.sel.source == src && src.Own? then CompositorStep(c, [Paste(src.id)])
    else CompositorStep(c, [])
  }

  function ServeRequest(c: Compositor, r: Request): CompositorStep
  {
    match r
    case GetDevice => CompositorStep(c.(bound := true), [Announce(c.sel)])
    case SetSelection(id) =>
      if id in c.used then CompositorStep(c.(broken := true), [])
      else Install(c.(used := c.used + {id}), Selected(Own(id), OWN_MIMES))
    case DestroySource(id) => Destroyed(c, Own(id))
    case Receive(src, _) => Receiving(c, src)
    case Sync => CompositorStep(c, [SyncDone])
  }

  // ---- the system --------------------------------------------------------

  datatype System = System(agent: Agent, comp: Compositor, reqs: seq<Request>, evs: seq<Event>)

  datatype Action =
    | OfferText                               // the agent turns a host offer into its selection
    | Deliver(pipeOk: bool)                   // the agent dispatches the next event
    | Serve                                   // the compositor serves the next request
    | ForeignSet(id: nat, mimes: Mimes)       // another client sets the selection
    | ForeignClear                            // another client clears it
    | ForeignDestroy(id: nat)                 // another client destroys a source
    | ForeignPaste(source: Source)            // another client pastes from an offer

  /** kclipd connects to a desktop whose selection other clients have set. */
  function Boot(sel: Selection): System
  {
    System(Agent(None, {}, 0, Starting, [], NoSelection, false, NoAttempt),
           Compositor(false, sel, {}, false), [GetDevice, Sync], [])
  }

  function ByAgent(s: System, step: AgentStep): System
  {
    s.(agent := step.agent, reqs := s.reqs + step.requests)
  }

  function ByCompositor(s: System, step: CompositorStep): System
  {
    s.(comp := step.comp, evs := s.evs + step.events)
  }

  /** One action, or `None` where it is not enabled. */
  function Step(s: System, a: Action): Option<System>
  {
    match a
    case OfferText => if s.agent.mode.Idle? then Some(ByAgent(s, OfferSource(s.agent))) else None
    case Deliver(pipeOk) =>
      if s.evs == [] then None
      else Some(ByAgent(s.(evs := s.evs[1..]), Dispatch(s.agent, s.evs[0], pipeOk)))
    case Serve =>
      if s.reqs == [] then None
      else Some(ByCompositor(s.(reqs := s.reqs[1..]), ServeRequest(s.comp, s.reqs[0])))
    case ForeignSet(id, mimes) => Some(ByCompositor(s, Install(s.comp, Selected(Foreign(id), mimes))))
    case ForeignClear => Some(ByCompositor(s, Install(s.comp, NoSelection)))
    case ForeignDestroy(id) => Some(ByCompositor(s, Destroyed(s.comp, Foreign(id))))
    case ForeignPaste(src) => Some(ByCompositor(s, Receiving(s.comp, src)))
  }

  /** A whole run; `None` when some action was not enabled. */
  function Run(s: System, actions: seq<Action>): Option<System>
    decreases |actions|
  {
    if actions == [] then Some(s)
    else match Step(s, actions[0])
      case None => None
      case Some(s') => Run(s', actions[1..])
  }

  /** Some run of some desktop leads to `s`. */
  ghost predicate Reachable(s: System)
  {
    exists sel: Selection, actions: seq<Action> ::
      !(sel.Selected? && sel.source.Own?) && Run(Boot(sel), actions) == Some(s)
  }
}
