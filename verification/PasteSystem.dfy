/**
  The paste callbacks driven by the selection protocol.

  The compositor decides which source is sent a paste and which is cancelled; the
  agent's table must still hold that source. Protocol and table run in lock step, and
  `CallbacksNeverFail` says that no callback ever meets a freed source.
 */
module PasteSystem {
  import opened Basics
  import Protocol = SelectionProtocol
  import Safety = SelectionSafety
  import Table = PasteTable

  /** The agent with its connection, and its texts, sources and writers. */
  datatype Joint = Joint(sys: Protocol.System, pastes: Table.Pastes)

  /** `fd` and `script` serve a paste, `t` and `bytes` a host offer; other actions ignore them. */
  datatype Move =
    | Act(action: Protocol.Action, t: nat, bytes: Bytes, fd: nat, script: seq<Table.WriteResult>)
    | Poll(n: nat, ready: seq<bool>, scripts: seq<seq<Table.WriteResult>>)

  /** The callback an action of the protocol amounts to. */
  function Callback(s: Protocol.System, m: Move): Option<Table.Action>
    requires m.Act?
  {
    match m.action
    case OfferText => Some(Table.Offered(m.t, s.agent.next, m.bytes))
    case Deliver(_) =>
      if s.evs == [] then None
      else (
        match s.evs[0]
        case Cancelled(id) => Some(Table.SourceCancelled(id))
        case Paste(id) => Some(Table.SourceSend(id, m.fd, m.script))
        case _ => None)
    case _ => None
  }

  /** The table after the callback; None where the code would use freed memory. */
  function Called(p: Table.Pastes, a: Option<Table.Action>): Option<Table.Pastes>
  {
    if a.None? then Some(p) else Table.Apply(p, a.value)
  }

  /** The kernel hands out addresses and descriptors that are not in use. */
  predicate Fresh(p: Table.Pastes, a: Option<Table.Action>)
  {
    a.Some? ==> match a.value
                case Offered(t, _, _) => t !in p.texts
                case SourceSend(_, fd, _) => fd !in p.pipes
                case SourceCancelled(_) => true
  }

  ghost predicate JointInv(j: Joint)
  {
    Safety.Inv(j.sys) && Table.Inv(j.pastes) && j.pastes.sources.Keys == j.sys.agent.live
  }

  /** A step of both; None if the protocol does not allow it. */
  ghost function Stepped(j: Joint, m: Move): Option<Joint>
    requires JointInv(j)
  {
    match m
    case Poll(n, ready, scripts) =>
      if n > |j.pastes.writers| || n > |ready| || n > |scripts| then None
      else Some(j.(pastes := Table.Pass(j.pastes, n, ready, scripts)))
    case Act(action, _, _, _, _) =>
      var next, call := Protocol.Step(j.sys, action), Callback(j.sys, m);
      if next.None? || !Fresh(j.pastes, call) || Called(j.pastes, call).None? then None
      else Some(Joint(next.value, Called(j.pastes, call).value))
  }

  /** Whatever the protocol does next, the source it names is still held. */
  lemma {:induction false} CallbackFinds(j: Joint, m: Move)
    requires JointInv(j) && m.Act? && Protocol.Step(j.sys, m.action).Some? && Fresh(j.pastes, Callback(j.sys, m))
    ensures Called(j.pastes, Callback(j.sys, m)).Some?
  {
    hide Table.WritersOk, Table.PipesOk;
    assert m.action.Deliver? ==> Safety.Expected(Safety.ViewOf(j.sys.agent), j.sys.evs[0]);
  }

  lemma {:induction false} StepKeepsInv(j: Joint, m: Move)
    requires JointInv(j) && Stepped(j, m).Some?
    ensures JointInv(Stepped(j, m).value)
  {
    if m.Act? {
      Safety.StepKeepsInv(j.sys, m.action);
      var call := Callback(j.sys, m);
      if call.Some? {
        Table.ApplyKeepsInv(j.pastes, call.value);
      }
      LiveFollows(j, m);
    }
  }

  lemma {:induction false} LiveFollows(j: Joint, m: Move)
    requires JointInv(j) && m.Act? && Stepped(j, m).Some?
    ensures Stepped(j, m).value.pastes.sources.Keys == Stepped(j, m).value.sys.agent.live
  {
    hide Safety.Inv, Table.Inv, Table.Pump, Table.Unref;
  }

  ghost function Play(j: Joint, moves: seq<Move>): (r: Option<Joint>)
    requires JointInv(j)
    ensures r.Some? ==> JointInv(r.value)
    decreases |moves|
  {
    if moves == [] then Some(j)
    else match Stepped(j, moves[0])
      case None => None
      case Some(next) =>
        StepKeepsInv(j, moves[0]);
        Play(next, moves[1..])
  }

  function Start(sel: Protocol.Selection): Joint
  {
    Joint(Protocol.Boot(sel), Table.EMPTY)
  }

  lemma {:induction false} StartInv(sel: Protocol.Selection)
    requires !(sel.Selected? && sel.source.Own?)
    ensures JointInv(Start(sel))
  {
    Safety.BootInv(sel);
  }

  /**
    Over every run of host, agent, compositor and other clients: the sources held are
    exactly the protocol's live ones, counts are exact, and whatever the protocol does
    next, its callback finds the source it names.
   */
  lemma {:induction false} CallbacksNeverFail(sel: Protocol.Selection, moves: seq<Move>, m: Move)
    requires !(sel.Selected? && sel.source.Own?)
    ensures JointInv(Start(sel))
    ensures var j := Play(Start(sel), moves);
            j.Some? ==>
              && j.value.pastes.sources.Keys == j.value.sys.agent.live && Table.RefsExact(j.value.pastes)
              && (m.Act? && Protocol.Step(j.value.sys, m.action).Some? && Fresh(j.value.pastes, Callback(j.value.sys, m))
                  ==> Called(j.value.pastes, Callback(j.value.sys, m)).Some?)
  {
    StartInv(sel);
    var j := Play(Start(sel), moves);
    if j.Some? && m.Act? && Protocol.Step(j.value.sys, m.action).Some? && Fresh(j.value.pastes, Callback(j.value.sys, m)) {
      CallbackFinds(j.value, m);
    }
  }

  /**
    A host offer gives its text to the new source, and a paste that reaches a source
    promises the pasting client that source's text and begins to send it.
   */
  lemma {:induction false} PasteServed(j: Joint, m: Move)
    requires JointInv(j) && m.Act? && Stepped(j, m).Some?
    ensures var p := Stepped(j, m).value.pastes;
            && (m.action.OfferText? ==>
                  j.sys.agent.next in p.offered && p.offered[j.sys.agent.next] == m.bytes && j.sys.agent.next in p.sources)
            && (m.action.Deliver? && j.sys.evs[0].Paste? ==>
                  && j.sys.evs[0].id in j.pastes.offered && m.fd in p.promised && m.fd in p.pipes
                  && p.promised[m.fd] == j.pastes.offered[j.sys.evs[0].id] && p.pipes[m.fd] <= p.promised[m.fd])
  {
    hide Safety.Inv, Table.WritersOk, Table.PipesOk, Table.Unref;
  }
}
