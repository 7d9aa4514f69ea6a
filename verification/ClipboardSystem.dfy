/**
  The whole paste path: host, device, agent, compositor and desktop clients.

  The agent's read of a record is one action here; `ClipboardDevice.HandleOffer`
  is what justifies that, since it takes exactly the newest offer of one instant.
 */
module ClipboardSystem {
  import opened Basics
  import opened SelectionProtocol
  import opened SelectionSafety
  import Dev = ClipboardDevice

  /**
    `offers` are the host's offers in order, `takenUpTo` counts those the agent's
    reads have reached, and `origin[id]` is the offer the agent's source `id` holds.
   */
  datatype Desktop = Desktop(
    sys: System,
    offers: seq<Dev.Text>,
    takenUpTo: nat,
    origin: seq<nat>,
    latest: Dev.Outcome,
    acks: seq<Dev.Ack>)

  datatype Move =
    | HostOffer(text: Dev.Text)
    | AgentInstall                 // the agent takes the newest offer and sets the selection
    | AgentOutOfMemory             // the agent takes it and answers -ENOMEM
    | Other(action: Action)        // any other step of the selection protocol

  function Start(sel: Selection): Desktop
  {
    Desktop(Boot(sel), [], 0, [], Dev.Pending, [])
  }

  function NewestSeq(d: Desktop): nat
  {
    if d.offers == [] then 0 else Dev.SeqOf(|d.offers| - 1)
  }

  /** write_ack. */
  function Acknowledged(d: Desktop, k: nat, status: int): Desktop
  {
    d.(latest := if Dev.SeqOf(k) == NewestSeq(d) && d.latest == Dev.Pending then Dev.Acked(status) else d.latest,
       acks := d.acks + [Dev.Ack(Dev.SeqOf(k), status)])
  }

  /** ack_status of the newest offer, as the host polls it. */
  function NewestStatus(d: Desktop): int
  {
    if d.offers == [] then Dev.ACK_UNKNOWN_SEQ
    else match d.latest
      case Pending => Dev.ACK_PENDING
      case Acked(status) => status
  }

  /** The end of handle_offer's roundtrip, which acknowledges the offer with status 0. */
  predicate EndsInstall(s: System, a: Action)
  {
    a.Deliver? && s.evs != [] && s.evs[0].SyncDone? && s.agent.mode.Installing?
  }

  function MoveTo(d: Desktop, m: Move): Option<Desktop>
  {
    match m
    case HostOffer(text) => Some(d.(offers := d.offers + [text], latest := Dev.Pending))
    case AgentInstall =>
      if d.takenUpTo >= |d.offers| || !d.sys.agent.mode.Idle? then None
      else Some(d.(sys := ByAgent(d.sys, OfferSource(d.sys.agent)),
                   takenUpTo := |d.offers|,
                   origin := d.origin + [|d.offers| - 1]))
    case AgentOutOfMemory =>
      if d.takenUpTo >= |d.offers| || !d.sys.agent.mode.Idle? then None
      else Some(Acknowledged(d.(takenUpTo := |d.offers|), |d.offers| - 1, -Dev.ENOMEM))
    case Other(a) =>
      if a.OfferText? then None
      else match Step(d.sys, a)
        case None => None
        case Some(s) =>
          if EndsInstall(d.sys, a) && d.sys.agent.mode.id < |d.origin|
          then Some(Acknowledged(d.(sys := s), d.origin[d.sys.agent.mode.id], 0))
          else Some(d.(sys := s))
  }

  function Play(d: Desktop, moves: seq<Move>): Option<Desktop>
    decreases |moves|
  {
    if moves == [] then Some(d)
    else match MoveTo(d, moves[0])
      case None => None
      case Some(d') => Play(d', moves[1..])
  }

  /** Source `id` holds offer `k`'s text and the compositor has installed it. */
  ghost predicate InstalledFor(d: Desktop, id: nat, k: nat)
  {
    id < |d.origin| && d.origin[id] == k && k < |d.offers| && id in d.sys.comp.used
  }

  /** Every acknowledgement with status 0 names an offer whose text is installed. */
  ghost predicate ZeroAcksInstalled(d: Desktop)
  {
    forall i :: 0 <= i < |d.acks| && d.acks[i].status == 0 ==>
      exists id: nat, k: nat :: InstalledFor(d, id, k) && d.acks[i].seqno == Dev.SeqOf(k)
  }

  ghost predicate DesktopInv(d: Desktop)
  {
    && Inv(d.sys)
    && |d.origin| == d.sys.agent.next
    && d.takenUpTo <= |d.offers|
    && (forall id :: 0 <= id < |d.origin| ==> d.origin[id] < d.takenUpTo)
    && (forall i, j :: 0 <= i < j < |d.origin| ==> d.origin[i] < d.origin[j])
    && ZeroAcksInstalled(d)
    && (d.latest.Acked? ==>
          d.offers != [] && Dev.Ack(Dev.SeqOf(|d.offers| - 1), d.latest.status) in d.acks)
  }

  /** Serving and foreign steps never forget an installed source. */
  lemma {:induction false} UsedGrows(s: System, a: Action)
    requires Step(s, a).Some?
    ensures s.comp.used <= Step(s, a).value.comp.used
  {
  }

  lemma {:induction false} NextKept(s: System, a: Action)
    requires Step(s, a).Some? && !a.OfferText?
    ensures Step(s, a).value.agent.next == s.agent.next
  {
  }

  /** A completed sync finds the agent's source already in the compositor. */
  lemma {:induction false} EndsInstalled(s: System, a: Action)
    requires Inv(s) && Step(s, a).Some? && EndsInstall(s, a)
    ensures s.agent.mode.Installing? && s.agent.mode.id < s.agent.next
    ensures s.agent.mode.id in Step(s, a).value.comp.used
  {
    assert SyncDones(s.evs) >= 1;
  }

  /** What was installed for an offer stays installed for it. */
  lemma {:induction false} InstalledKept(d: Desktop, d': Desktop, id: nat, k: nat)
    requires InstalledFor(d, id, k)
    requires d.origin <= d'.origin && d.offers <= d'.offers && d.sys.comp.used <= d'.sys.comp.used
    ensures InstalledFor(d', id, k)
  {
  }

  lemma {:induction false} ZeroAcksKept(d: Desktop, d': Desktop)
    requires ZeroAcksInstalled(d) && d'.acks == d.acks
    requires d.origin <= d'.origin && d.offers <= d'.offers && d.sys.comp.used <= d'.sys.comp.used
    ensures ZeroAcksInstalled(d')
  {
    forall i | 0 <= i < |d'.acks| && d'.acks[i].status == 0
      ensures exists id: nat, k: nat :: InstalledFor(d', id, k) && d'.acks[i].seqno == Dev.SeqOf(k)
    {
      var id: nat, k: nat :| InstalledFor(d, id, k) && d.acks[i].seqno == Dev.SeqOf(k);
      InstalledKept(d, d', id, k);
    }
  }

  lemma {:induction false} AcknowledgeKeepsInv(d: Desktop, k: nat, status: int)
    requires DesktopInv(d) && k < |d.offers|
    requires status == 0 ==> exists id: nat :: InstalledFor(d, id, k)
    ensures DesktopInv(Acknowledged(d, k, status))
  {
    var d' := Acknowledged(d, k, status);
    forall i | 0 <= i < |d'.acks| && d'.acks[i].status == 0
      ensures exists id: nat, k: nat :: InstalledFor(d', id, k) && d'.acks[i].seqno == Dev.SeqOf(k)
    {
      if i < |d.acks| {
        var id: nat, k: nat :| InstalledFor(d, id, k) && d.acks[i].seqno == Dev.SeqOf(k);
        InstalledKept(d, d', id, k);
      } else {
        var id: nat :| InstalledFor(d, id, k);
        InstalledKept(d, d', id, k);
      }
    }
  }

  lemma {:induction false} InstallKeepsInv(d: Desktop)
    requires DesktopInv(d) && MoveTo(d, AgentInstall).Some?
    ensures DesktopInv(MoveTo(d, AgentInstall).value)
  {
    var d' := MoveTo(d, AgentInstall).value;
    OfferTextKeepsInv(d.sys);
    ZeroAcksKept(d, d');
  }

  lemma {:induction false} OtherKeepsInv(d: Desktop, a: Action)
    requires DesktopInv(d) && MoveTo(d, Other(a)).Some?
    ensures DesktopInv(MoveTo(d, Other(a)).value)
  {
    StepKeepsInv(d.sys, a);
    UsedGrows(d.sys, a);
    NextKept(d.sys, a);
    if EndsInstall(d.sys, a) {
      EndsInstalled(d.sys, a);
    }
    hide Step, Inv, EndsInstall;
    var d1 := d.(sys := Step(d.sys, a).value);
    ZeroAcksKept(d, d1);
    if EndsInstall(d.sys, a) {
      var id := d.sys.agent.mode.id;
      assert InstalledFor(d1, id, d.origin[id]);
      AcknowledgeKeepsInv(d1, d.origin[id], 0);
    }
  }

  lemma {:induction false} MoveKeepsInv(d: Desktop, m: Move)
    requires DesktopInv(d) && MoveTo(d, m).Some?
    ensures DesktopInv(MoveTo(d, m).value)
  {
    match m
    case HostOffer(text) =>
      ZeroAcksKept(d, MoveTo(d, m).value);
    case AgentInstall => InstallKeepsInv(d);
    case AgentOutOfMemory =>
      var d' := d.(takenUpTo := |d.offers|);
      ZeroAcksKept(d, d');
      AcknowledgeKeepsInv(d', |d.offers| - 1, -Dev.ENOMEM);
    case Other(a) => OtherKeepsInv(d, a);
  }

  lemma {:induction false} PlayKeepsInv(d: Desktop, moves: seq<Move>)
    requires DesktopInv(d) && Play(d, moves).Some?
    ensures DesktopInv(Play(d, moves).value)
    decreases |moves|
  {
    if moves != [] {
      MoveKeepsInv(d, moves[0]);
      PlayKeepsInv(MoveTo(d, moves[0]).value, moves[1..]);
    }
  }

  lemma {:induction false} ZeroStatusInstalled(d: Desktop) returns (id: nat, k: nat)
    requires DesktopInv(d) && NewestStatus(d) == 0
    ensures InstalledFor(d, id, k) && Dev.SeqOf(k) == Dev.SeqOf(|d.offers| - 1)
  {
    var i :| 0 <= i < |d.acks| && d.acks[i] == Dev.Ack(Dev.SeqOf(|d.offers| - 1), 0);
    id, k :| InstalledFor(d, id, k) && d.acks[i].seqno == Dev.SeqOf(k);
  }

  lemma {:induction false} PlayInv(sel: Selection, moves: seq<Move>)
    requires !(sel.Selected? && sel.source.Own?) && Play(Start(sel), moves).Some?
    ensures DesktopInv(Play(Start(sel), moves).value)
  {
    BootInv(sel);
    PlayKeepsInv(Start(sel), moves);
  }

  /**
    What status 0 is worth to the host, over every run: the compositor has
    installed a source holding an offer with the polled sequence number, and
    while sequence numbers have not wrapped that is the newest text itself.
   */
  lemma {:induction false} StatusZeroMeansInstalled(sel: Selection, moves: seq<Move>) returns (id: nat, k: nat)
    requires !(sel.Selected? && sel.source.Own?)
    requires Play(Start(sel), moves).Some? && NewestStatus(Play(Start(sel), moves).value) == 0
    ensures var d := Play(Start(sel), moves).value;
            && InstalledFor(d, id, k)
            && (|d.offers| - 1 - k) % Dev.I32_MAX == 0
            && (|d.offers| - k <= Dev.I32_MAX ==> k == |d.offers| - 1)
  {
    PlayInv(sel, moves);
    var d := Play(Start(sel), moves).value;
    id, k := ZeroStatusInstalled(d);
    SameSeq(k, |d.offers| - 1);
  }

  lemma {:induction false} SameSeq(k: nat, n: nat)
    requires k <= n && Dev.SeqOf(k) == Dev.SeqOf(n)
    ensures (n - k) % Dev.I32_MAX == 0
    ensures n - k < Dev.I32_MAX ==> k == n
  {
  }

  /**
    What the host polls follows the agent: a new offer is pending, memory failure
    answers -ENOMEM, and the end of the roundtrip answers 0 for the offer whose text the
    installed source holds.
   */
  lemma {:induction false} StatusFollows(d: Desktop, text: Dev.Text, pipeOk: bool)
    requires DesktopInv(d)
    ensures var e := MoveTo(d, HostOffer(text)).value;
            e.offers == d.offers + [text] && NewestStatus(e) == Dev.ACK_PENDING && e.acks == d.acks
    ensures d.takenUpTo < |d.offers| && d.sys.agent.mode.Idle? ==>
              var e := MoveTo(d, AgentInstall).value;
              e.origin == d.origin + [|d.offers| - 1] && e.sys.agent.mode == Installing(|d.origin|) && e.acks == d.acks
    ensures d.takenUpTo < |d.offers| && d.sys.agent.mode.Idle? ==>
              var e := MoveTo(d, AgentOutOfMemory).value;
              && e.acks == d.acks + [Dev.Ack(NewestSeq(d), -Dev.ENOMEM)]
              && (d.latest.Pending? ==> NewestStatus(e) == -Dev.ENOMEM)
    ensures EndsInstall(d.sys, Deliver(pipeOk)) ==>
              var id, e := d.sys.agent.mode.id, MoveTo(d, Other(Deliver(pipeOk))).value;
              && id < |d.origin| && e.acks == d.acks + [Dev.Ack(Dev.SeqOf(d.origin[id]), 0)]
              && (d.origin[id] == |d.offers| - 1 && d.latest.Pending? ==> NewestStatus(e) == 0)
  {
    if EndsInstall(d.sys, Deliver(pipeOk)) {
      EndsInstalled(d.sys, Deliver(pipeOk));
    }
    hide Inv, ZeroAcksInstalled;
  }
}
