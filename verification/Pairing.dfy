/** The pairing ceremony of peer.rs and the commands that drive it, as a step system over any number of
    connections between honest devices. A device is named by its id; its long-term key is a function of
    it. Ephemeral secrets are numbers, Diffie-Hellman is an abstract function of `Crypto`. */
module Pairing {
  import opened Wrappers

  datatype Crypto = Crypto(pub: nat -> nat, dh: (nat, nat) -> nat, code: nat -> string, longterm: nat -> string)
  {
    /** Both sides derive the same secret. */
    ghost predicate Commutes() {
      forall a, b :: dh(a, pub(b)) == dh(b, pub(a))
    }
  }

  datatype Msg =
    | PairRequest(id: nat, eph: nat)
    | PairAccept(id: nat, eph: nat)
    | PairRejected
    | PairConfirm(key: string)
    | PairComplete(key: string)

  /** `begin_pairing` up to the reply, waiting for the user, `confirm_pairing` up to the reply, done. */
  datatype IPhase = IRequested | IPending | IConfirming | ITrusted | IFailed

  /** `handle_responder`: reading the request, waiting for the decision, waiting for the confirmation,
      trust written but not yet answered, done. */
  datatype RPhase = RReading | RDeciding | RConfirming | RStored | RFinished | RFailed

  /** The oneshot channel of a connection: `Gone` when its sender was overwritten in the slot. */
  datatype Decision = Undecided | Decided(yes: bool) | Gone

  /** A row written to the trust table: whose, and which key. */
  datatype Written = Written(peer: nat, key: string)

  datatype Session = Session(
    initiator: nat, responder: nat, iSecret: nat, rSecret: nat,
    toR: seq<Msg>, toI: seq<Msg>, i: IPhase, r: RPhase, decision: Decision,
    iCode: Option<string>, rCode: Option<string>, iPeer: Option<nat>, rPeer: Option<nat>,
    iWrote: Option<Written>, rWrote: Option<Written>)

  datatype State = State(sessions: seq<Session>, slot: map<nat, nat>, accepts: seq<nat>, trust: map<(nat, nat), string>)

  const START := State([], map[], [], map[])

  datatype Step =
    | Connect(initiator: nat, responder: nat, secret: nat)
    | ReadRequest(n: nat, secret: nat)
    | ReadAccept(n: nat)
    | Confirm(n: nat)
    | Decide(device: nat, yes: bool)
    | TakeDecision(n: nat)
    | StoreTrust(n: nat)
    | SendComplete(n: nat)
    | ReadComplete(n: nat)
    | DropConnection(n: nat, keepR: nat, keepI: nat)
    | InitiatorFails(n: nat)
    | ResponderFails(n: nat)

  // ----- what one step does to one connection

  /** The responder reads the request, shows the code and answers. */
  function OnRequest(s: Session, secret: nat, c: Crypto): Session {
    if s.r != RReading || s.toR == [] then s
    else
      match s.toR[0]
      case PairRequest(id, eph) =>
        s.(toR := s.toR[1..], rSecret := secret, rPeer := Some(id), rCode := Some(c.code(c.dh(secret, eph))),
           toI := s.toI + [PairAccept(s.responder, c.pub(secret))], r := RDeciding)
      case _ => s.(toR := s.toR[1..], r := RFailed)
  }

  /** The initiator reads the reply and shows the code. */
  function OnAccept(s: Session, c: Crypto): Session {
    if s.i != IRequested || s.toI == [] then s
    else
      match s.toI[0]
      case PairAccept(id, eph) =>
        s.(toI := s.toI[1..], iPeer := Some(id), iCode := Some(c.code(c.dh(s.iSecret, eph))), i := IPending)
      case _ => s.(toI := s.toI[1..], i := IFailed)
  }

  function OnConfirm(s: Session, c: Crypto): Session {
    if s.i != IPending then s else s.(toR := s.toR + [PairConfirm(c.longterm(s.initiator))], i := IConfirming)
  }

  /** The responder wakes up with the decision; a lost sender counts as a rejection. */
  function OnDecision(s: Session): Session {
    if s.r != RDeciding || s.decision == Undecided then s
    else if s.decision == Decided(true) then s.(r := RConfirming)
    else s.(toI := s.toI + [PairRejected], r := RFinished)
  }

  function OnConfirmation(s: Session): Session {
    if s.r != RConfirming || s.toR == [] || s.rPeer.None? then s
    else
      match s.toR[0]
      case PairConfirm(key) => s.(toR := s.toR[1..], rWrote := Some(Written(s.rPeer.value, key)), r := RStored)
      case _ => s.(toR := s.toR[1..], r := RFailed)
  }

  function OnStored(s: Session, c: Crypto): Session {
    if s.r != RStored then s else s.(toI := s.toI + [PairComplete(c.longterm(s.responder))], r := RFinished)
  }

  function OnComplete(s: Session): Session {
    if s.i != IConfirming || s.toI == [] || s.iPeer.None? then s
    else
      match s.toI[0]
      case PairComplete(key) => s.(toI := s.toI[1..], iWrote := Some(Written(s.iPeer.value, key)), i := ITrusted)
      case _ => s.(toI := s.toI[1..], i := IFailed)
  }

  function Cut(ms: seq<Msg>, n: nat): seq<Msg> {
    if n <= |ms| then ms[..n] else ms
  }

  /** The step of one connection that the step names. */
  function Local(s: Session, step: Step, c: Crypto): Session {
    match step
    case ReadRequest(_, secret) => OnRequest(s, secret, c)
    case ReadAccept(_) => OnAccept(s, c)
    case Confirm(_) => OnConfirm(s, c)
    case TakeDecision(_) => OnDecision(s)
    case StoreTrust(_) => OnConfirmation(s)
    case SendComplete(_) => OnStored(s, c)
    case ReadComplete(_) => OnComplete(s)
    case DropConnection(_, keepR, keepI) => s.(toR := Cut(s.toR, keepR), toI := Cut(s.toI, keepI))
    case InitiatorFails(_) => s.(i := IFailed)
    case ResponderFails(_) => s.(r := RFailed)
    case _ => s
  }

  // ----- what it does to the whole system

  function Opened(initiator: nat, responder: nat, secret: nat, c: Crypto): Session {
    Session(initiator, responder, secret, 0, [PairRequest(initiator, c.pub(secret))], [], IRequested, RReading,
            Undecided, None, None, None, None, None, None)
  }

  /** A new connection to a device drops the sender that was still waiting there. */
  function Superseded(sessions: seq<Session>, slot: map<nat, nat>, responder: nat): (r: seq<Session>)
    ensures |r| == |sessions|
  {
    if responder in slot && slot[responder] < |sessions|
    then sessions[slot[responder] := sessions[slot[responder]].(decision := Gone)]
    else sessions
  }

  /** The listener accepts: a fresh decision sender goes into the slot. */
  function OnConnect(st: State, initiator: nat, responder: nat, secret: nat, c: Crypto): State {
    st.(sessions := Superseded(st.sessions, st.slot, responder) + [Opened(initiator, responder, secret, c)],
        slot := st.slot[responder := |st.sessions|])
  }

  /** `accept_pair_cmd` and `reject_pair_cmd`: the sender is taken out of the slot and used. */
  function OnDecide(st: State, device: nat, yes: bool): State {
    if device !in st.slot || st.slot[device] >= |st.sessions| then st
    else
      var n := st.slot[device];
      State(st.sessions[n := st.sessions[n].(decision := Decided(yes))], st.slot - {device},
            if yes then st.accepts + [device] else st.accepts, st.trust)
  }

  /** Trust rows appear exactly when a side writes one. */
  function WithTrust(trust: map<(nat, nat), string>, before: Session, after: Session): map<(nat, nat), string> {
    if before.rWrote.None? && after.rWrote.Some? then
      trust[(after.responder, after.rWrote.value.peer) := after.rWrote.value.key]
    else if before.iWrote.None? && after.iWrote.Some? then
      trust[(after.initiator, after.iWrote.value.peer) := after.iWrote.value.key]
    else trust
  }

  function Next(st: State, step: Step, c: Crypto): State {
    match step
    case Connect(initiator, responder, secret) => OnConnect(st, initiator, responder, secret, c)
    case Decide(device, yes) => OnDecide(st, device, yes)
    case _ =>
      if step.n >= |st.sessions| then st
      else
        var s := Local(st.sessions[step.n], step, c);
        st.(sessions := st.sessions[step.n := s], trust := WithTrust(st.trust, st.sessions[step.n], s))
  }

  function Run(st: State, steps: seq<Step>, c: Crypto): State {
    if steps == [] then st else Next(Run(st, steps[..|steps| - 1], c), steps[|steps| - 1], c)
  }

  // ----- invariant of one connection

  ghost predicate FromInitiator(m: Msg, initiator: nat, secret: nat, c: Crypto) {
    m == PairRequest(initiator, c.pub(secret)) || m == PairConfirm(c.longterm(initiator))
  }

  /** `answered`: the request was read and the code shown; `wrote`: trust was written. */
  ghost predicate FromResponder(m: Msg, responder: nat, secret: nat, answered: bool, wrote: bool, c: Crypto) {
    match m
    case PairAccept(id, eph) => id == responder && eph == c.pub(secret) && answered
    case PairRejected => true
    case PairComplete(key) => key == c.longterm(responder) && wrote
    case _ => false
  }

  ghost predicate SessionOk(s: Session, c: Crypto) {
    && (forall m :: m in s.toR ==> FromInitiator(m, s.initiator, s.iSecret, c))
    && (forall m :: m in s.toI ==> FromResponder(m, s.responder, s.rSecret, s.rCode.Some?, s.rWrote.Some?, c))
    && (s.r == RReading ==> s.rCode.None? && s.rWrote.None?)
    && (s.rPeer.Some? ==> s.rPeer.value == s.initiator)
    && (s.rCode.Some? ==> s.rCode.value == c.code(c.dh(s.rSecret, c.pub(s.iSecret))))
    && (s.r == RDeciding || s.r == RConfirming ==> s.rWrote.None?)
    && (s.r == RConfirming || s.r == RStored || s.rWrote.Some? ==> s.decision == Decided(true))
    && (s.r == RStored ==> s.rWrote.Some?)
    && (s.rWrote.Some? ==> s.rWrote.value == Written(s.initiator, c.longterm(s.initiator)))
    && (s.iPeer.Some? ==> s.iPeer.value == s.responder)
    && (s.iCode.Some? ==> s.rCode.Some? && s.iCode.value == c.code(c.dh(s.iSecret, c.pub(s.rSecret))))
    && (s.i == IRequested || s.i == IPending || s.i == IConfirming ==> s.iWrote.None?)
    && (s.iWrote.Some? ==> s.iWrote.value == Written(s.responder, c.longterm(s.responder)) && s.rWrote.Some?)
  }

  lemma RequestOk(s: Session, secret: nat, c: Crypto)
    requires SessionOk(s, c)
    ensures SessionOk(OnRequest(s, secret, c), c)
  {
    if s.r == RReading && s.toR != [] {
      assert s.toR[0] in s.toR;
      assert forall m :: m in s.toR[1..] ==> m in s.toR;
      // no reply can have been sent before the request was read
      assert forall m :: m in s.toI ==> m == PairRejected;
    }
  }

  lemma AcceptOk(s: Session, c: Crypto)
    requires SessionOk(s, c)
    ensures SessionOk(OnAccept(s, c), c)
  {
    if s.toI != [] {
      assert s.toI[0] in s.toI;
      assert forall m :: m in s.toI[1..] ==> m in s.toI;
    }
  }

  lemma CompleteOk(s: Session, c: Crypto)
    requires SessionOk(s, c)
    ensures SessionOk(OnComplete(s), c)
  {
    if s.toI != [] {
      assert s.toI[0] in s.toI;
      assert forall m :: m in s.toI[1..] ==> m in s.toI;
    }
  }

  lemma ConfirmOk(s: Session, c: Crypto)
    requires SessionOk(s, c)
    ensures SessionOk(OnConfirm(s, c), c)
  {
  }

  lemma DecisionOk(s: Session, c: Crypto)
    requires SessionOk(s, c)
    ensures SessionOk(OnDecision(s), c)
  {
  }

  lemma StoredOk(s: Session, c: Crypto)
    requires SessionOk(s, c)
    ensures SessionOk(OnStored(s, c), c)
  {
  }

  lemma CutMembers(ms: seq<Msg>, n: nat)
    ensures forall m :: m in Cut(ms, n) ==> m in ms
  {
  }

  lemma DropOk(s: Session, keepR: nat, keepI: nat, c: Crypto)
    requires SessionOk(s, c)
    ensures SessionOk(s.(toR := Cut(s.toR, keepR), toI := Cut(s.toI, keepI)), c)
  {
    CutMembers(s.toR, keepR);
    CutMembers(s.toI, keepI);
  }

  lemma ConfirmationOk(s: Session, c: Crypto)
    requires SessionOk(s, c)
    ensures SessionOk(OnConfirmation(s), c)
  {
    if s.toR != [] {
      assert s.toR[0] in s.toR;
      assert forall m :: m in s.toR[1..] ==> m in s.toR;
    }
  }

  lemma LocalOk(s: Session, step: Step, c: Crypto)
    requires SessionOk(s, c)
    ensures SessionOk(Local(s, step, c), c)
  {
    match step
    case ReadRequest(_, secret) => RequestOk(s, secret, c);
    case ReadAccept(_) => AcceptOk(s, c);
    case Confirm(_) => ConfirmOk(s, c);
    case TakeDecision(_) => DecisionOk(s, c);
    case StoreTrust(_) => ConfirmationOk(s, c);
    case SendComplete(_) => StoredOk(s, c);
    case ReadComplete(_) => CompleteOk(s, c);
    case DropConnection(_, keepR, keepI) => DropOk(s, keepR, keepI, c);
    case _ =>
  }

  lemma LocalKeeps(s: Session, step: Step, c: Crypto)
    ensures var t := Local(s, step, c);
      t.initiator == s.initiator && t.responder == s.responder && t.decision == s.decision
  {
  }

  // ----- invariant of the system

  /** Connections whose user said yes, at one device. */
  function Yeses(sessions: seq<Session>, device: nat): nat {
    if sessions == [] then 0 else
      var last := sessions[|sessions| - 1];
      Yeses(sessions[..|sessions| - 1], device)
        + (if last.responder == device && last.decision == Decided(true) then 1 else 0)
  }

  function Count(log: seq<nat>, device: nat): nat {
    if log == [] then 0 else Count(log[..|log| - 1], device) + (if log[|log| - 1] == device then 1 else 0)
  }

  /** Trust rows written by the responder at one device. */
  function ResponderWrites(sessions: seq<Session>, device: nat): nat {
    if sessions == [] then 0 else
      ResponderWrites(sessions[..|sessions| - 1], device)
        + (if sessions[|sessions| - 1].responder == device && sessions[|sessions| - 1].rWrote.Some? then 1 else 0)
  }

  /** Each device's slot holds the one connection there that is still undecided. */
  ghost predicate SlotsOk(sessions: seq<Session>, slot: map<nat, nat>) {
    && (forall d :: d in slot ==>
          slot[d] < |sessions| && sessions[slot[d]].responder == d && sessions[slot[d]].decision == Undecided)
    && (forall n :: 0 <= n < |sessions| && sessions[n].decision == Undecided ==>
          sessions[n].responder in slot && slot[sessions[n].responder] == n)
  }

  ghost predicate Inv(st: State, c: Crypto) {
    && (forall n :: 0 <= n < |st.sessions| ==> SessionOk(st.sessions[n], c))
    && SlotsOk(st.sessions, st.slot)
    && (forall p :: p in st.trust ==> st.trust[p] == c.longterm(p.1))
    && (forall d :: Yeses(st.sessions, d) <= Count(st.accepts, d))
  }

  lemma {:induction false} YesesUpdate(sessions: seq<Session>, n: nat, s: Session, device: nat)
    requires n < |sessions| && s.responder == sessions[n].responder
    ensures Yeses(sessions[n := s], device) ==
      Yeses(sessions, device)
        + (if s.responder == device && s.decision == Decided(true) then 1 else 0)
        - (if s.responder == device && sessions[n].decision == Decided(true) then 1 else 0)
    decreases |sessions|
  {
    var k := |sessions| - 1;
    if n < k {
      YesesUpdate(sessions[..k], n, s, device);
      assert sessions[n := s][..k] == sessions[..k][n := s];
    } else {
      assert sessions[n := s][..k] == sessions[..k];
    }
  }

  lemma LocalSlots(sessions: seq<Session>, slot: map<nat, nat>, n: nat, t: Session)
    requires SlotsOk(sessions, slot) && n < |sessions|
    requires t.responder == sessions[n].responder && t.decision == sessions[n].decision
    ensures SlotsOk(sessions[n := t], slot)
  {
  }

  lemma ConnectSlots(sessions: seq<Session>, slot: map<nat, nat>, s: Session)
    requires SlotsOk(sessions, slot) && s.decision == Undecided
    ensures SlotsOk(Superseded(sessions, slot, s.responder) + [s], slot[s.responder := |sessions|])
  {
  }

  lemma ConnectYeses(sessions: seq<Session>, slot: map<nat, nat>, s: Session, device: nat)
    requires SlotsOk(sessions, slot) && s.decision == Undecided
    ensures Yeses(Superseded(sessions, slot, s.responder) + [s], device) == Yeses(sessions, device)
  {
    var before := Superseded(sessions, slot, s.responder);
    assert (before + [s])[..|before|] == before;
    if s.responder in slot {
      var n := slot[s.responder];
      YesesUpdate(sessions, n, sessions[n].(decision := Gone), device);
    }
  }

  lemma LocalStepInv(st: State, step: Step, c: Crypto)
    requires Inv(st, c) && !step.Connect? && !step.Decide? && step.n < |st.sessions|
    ensures Inv(Next(st, step, c), c)
  {
    var s, t := st.sessions[step.n], Local(st.sessions[step.n], step, c);
    LocalOk(s, step, c);
    LocalKeeps(s, step, c);
    LocalSlots(st.sessions, st.slot, step.n, t);
    forall d ensures Yeses(st.sessions[step.n := t], d) == Yeses(st.sessions, d) {
      YesesUpdate(st.sessions, step.n, t, d);
    }
  }

  lemma DecideInv(st: State, device: nat, yes: bool, c: Crypto)
    requires Inv(st, c)
    ensures Inv(OnDecide(st, device, yes), c)
  {
    if device in st.slot {
      var n := st.slot[device];
      var s := st.sessions[n].(decision := Decided(yes));
      var after := OnDecide(st, device, yes);
      forall d ensures Yeses(after.sessions, d) <= Count(after.accepts, d) {
        YesesUpdate(st.sessions, n, s, d);
        if yes { assert after.accepts[..|st.accepts|] == st.accepts; }
      }
    }
  }

  lemma ConnectInv(st: State, initiator: nat, responder: nat, secret: nat, c: Crypto)
    requires Inv(st, c)
    ensures Inv(OnConnect(st, initiator, responder, secret, c), c)
  {
    var s, after := Opened(initiator, responder, secret, c), OnConnect(st, initiator, responder, secret, c);
    ConnectSlots(st.sessions, st.slot, s);
    forall n | 0 <= n < |after.sessions| ensures SessionOk(after.sessions[n], c) {
      assert n < |st.sessions| ==> SessionOk(st.sessions[n], c);
    }
    forall d ensures Yeses(after.sessions, d) <= Count(after.accepts, d) {
      ConnectYeses(st.sessions, st.slot, s, d);
    }
  }

  lemma NextInv(st: State, step: Step, c: Crypto)
    requires Inv(st, c)
    ensures Inv(Next(st, step, c), c)
  {
    match step
    case Connect(i, r, secret) => ConnectInv(st, i, r, secret, c);
    case Decide(device, yes) => DecideInv(st, device, yes, c);
    case _ => if step.n < |st.sessions| { LocalStepInv(st, step, c); }
  }

  lemma {:induction false} RunInv(steps: seq<Step>, c: Crypto)
    ensures Inv(Run(START, steps, c), c)
  {
    if steps != [] {
      RunInv(steps[..|steps| - 1], c);
      NextInv(Run(START, steps[..|steps| - 1], c), steps[|steps| - 1], c);
    }
  }

  lemma {:induction false} WritesAreYeses(sessions: seq<Session>, device: nat, c: Crypto)
    requires forall n :: 0 <= n < |sessions| ==> SessionOk(sessions[n], c)
    ensures ResponderWrites(sessions, device) <= Yeses(sessions, device)
  {
    if sessions != [] {
      WritesAreYeses(sessions[..|sessions| - 1], device, c);
    }
  }

  // ----- what holds after every interleaving

  /** On every connection of every run: the initiator has written trust only if the responder has, each
      wrote the other's id and long-term key, the responder only after a yes; and when both sides show
      a code it is the same one. */
  lemma TrustAgrees(steps: seq<Step>, c: Crypto, n: nat)
    requires c.Commutes() && n < |Run(START, steps, c).sessions|
    ensures var s := Run(START, steps, c).sessions[n];
      && (s.iWrote.Some? ==> s.rWrote.Some?)
      && (s.iWrote.Some? ==> s.iWrote.value == Written(s.responder, c.longterm(s.responder)))
      && (s.rWrote.Some? ==>
            s.rWrote.value == Written(s.initiator, c.longterm(s.initiator)) && s.decision == Decided(true))
      && (s.iCode.Some? ==> s.rCode == s.iCode)
  {
    RunInv(steps, c);
    var s := Run(START, steps, c).sessions[n];
    assert c.dh(s.iSecret, c.pub(s.rSecret)) == c.dh(s.rSecret, c.pub(s.iSecret));
  }

  /** Every trust row of every device holds the long-term key of the peer it names. */
  lemma TrustTableCorrect(steps: seq<Step>, c: Crypto, device: nat, peer: nat)
    requires (device, peer) in Run(START, steps, c).trust
    ensures Run(START, steps, c).trust[(device, peer)] == c.longterm(peer)
  {
    RunInv(steps, c);
  }

  /** The only decision sender that can still be used at a device is the one in its slot. */
  lemma OneLiveSender(steps: seq<Step>, c: Crypto, m: nat, n: nat)
    requires var st := Run(START, steps, c);
      m < |st.sessions| && n < |st.sessions| && st.sessions[m].responder == st.sessions[n].responder
      && st.sessions[m].decision == Undecided && st.sessions[n].decision == Undecided
    ensures m == n
  {
    RunInv(steps, c);
  }

  /** A device never writes more trust rows as responder than its user accepted requests. */
  lemma WritesNeedAccepts(steps: seq<Step>, c: Crypto, device: nat)
    ensures var st := Run(START, steps, c); ResponderWrites(st.sessions, device) <= Count(st.accepts, device)
  {
    RunInv(steps, c);
    WritesAreYeses(Run(START, steps, c).sessions, device, c);
  }

  // ----- the ceremony succeeds unless somebody or something stops it

  predicate Stored(r: RPhase) {
    r == RStored || r == RFinished
  }

  /** A connection on which nothing went wrong so far: the two sides have moved on in some order, and the
      messages between them are exactly those that one side sent and the other has not read. */
  ghost predicate Alive(s: Session, c: Crypto) {
    && (match s.i
        case IRequested => s.r == RReading || s.r == RDeciding || s.r == RConfirming
        case IPending => s.r == RDeciding || s.r == RConfirming
        case IConfirming => s.r == RDeciding || s.r == RConfirming || Stored(s.r)
        case ITrusted => s.r == RFinished
        case IFailed => false)
    && (s.decision == Decided(true) || (s.decision == Undecided && (s.r == RReading || s.r == RDeciding)))
    && s.toR == (if s.r == RReading then [PairRequest(s.initiator, c.pub(s.iSecret))]
                 else if s.i == IConfirming && !Stored(s.r) then [PairConfirm(c.longterm(s.initiator))] else [])
    && s.toI == (if s.i == IRequested && s.r != RReading then [PairAccept(s.responder, c.pub(s.rSecret))]
                 else if s.i == IConfirming && s.r == RFinished then [PairComplete(c.longterm(s.responder))] else [])
    && (s.r != RReading ==>
          s.rPeer == Some(s.initiator) && s.rCode == Some(c.code(c.dh(s.rSecret, c.pub(s.iSecret)))))
    && (s.i != IRequested ==>
          s.iPeer == Some(s.responder) && s.iCode == Some(c.code(c.dh(s.iSecret, c.pub(s.rSecret)))))
    && s.rWrote == (if Stored(s.r) then Some(Written(s.initiator, c.longterm(s.initiator))) else None)
    && s.iWrote == (if s.i == ITrusted then Some(Written(s.responder, c.longterm(s.responder))) else None)
  }

  lemma OpenedIsAlive(initiator: nat, responder: nat, secret: nat, c: Crypto)
    ensures Alive(Opened(initiator, responder, secret, c), c)
  {
  }

  /** The ways to stop connection `n`: it is cut, a side gives up, the user says no, or a newer connection
      takes its place before the user answered. */
  predicate Harms(st: State, step: Step, n: nat) {
    match step
    case DropConnection(m, _, _) => m == n
    case InitiatorFails(m) => m == n
    case ResponderFails(m) => m == n
    case Decide(device, yes) => !yes && device in st.slot && st.slot[device] == n
    case Connect(_, responder, _) => responder in st.slot && st.slot[responder] == n
    case _ => false
  }

  /** The stages of the ceremony in their usual order. */
  predicate IsStage(step: Step, k: nat, n: nat, device: nat) {
    match k
    case 0 => step.ReadRequest? && step.n == n
    case 1 => step == ReadAccept(n)
    case 2 => step == Confirm(n)
    case 3 => step == Decide(device, true)
    case 4 => step == TakeDecision(n)
    case 5 => step == StoreTrust(n)
    case 6 => step == SendComplete(n)
    case 7 => step == ReadComplete(n)
    case _ => false
  }

  /** The connection is at least as far as the first `k` stages bring it. */
  predicate Past(s: Session, k: nat) {
    && (k >= 1 ==> s.r != RReading)
    && (k >= 2 ==> s.i != IRequested)
    && (k >= 3 ==> s.i != IPending)
    && (k >= 4 ==> s.decision == Decided(true))
    && (k >= 5 ==> s.r != RDeciding)
    && (k >= 6 ==> Stored(s.r))
    && (k >= 7 ==> s.r == RFinished)
    && (k >= 8 ==> s.i == ITrusted)
  }

  /** A step of the connection itself keeps it alive and never takes it back. */
  lemma LocalAlive(s: Session, step: Step, c: Crypto, k: nat)
    requires Alive(s, c) && Past(s, k) && k <= 8
    requires !step.DropConnection? && !step.InitiatorFails? && !step.ResponderFails?
    ensures Alive(Local(s, step, c), c) && Past(Local(s, step, c), k)
  {
    match step
    case ReadRequest(_, secret) =>
    case ReadAccept(_) =>
    case Confirm(_) =>
    case TakeDecision(_) =>
    case StoreTrust(_) =>
    case SendComplete(_) =>
    case ReadComplete(_) =>
    case _ =>
  }

  /** And a stage, when it is its turn, brings it further. */
  lemma LocalStage(s: Session, step: Step, c: Crypto, k: nat, n: nat, device: nat)
    requires Alive(s, c) && Past(s, k) && k < 8 && k != 3 && IsStage(step, k, n, device)
    ensures Past(Local(s, step, c), k + 1)
  {
  }

  /** Between the same two sides, still alive, and past one more stage if this was it. */
  ghost predicate Moved(s: Session, t: Session, step: Step, n: nat, c: Crypto, k: nat) {
    && t.initiator == s.initiator && t.responder == s.responder && Alive(t, c)
    && Past(t, if k < 8 && IsStage(step, k, n, s.responder) then k + 1 else k)
  }

  /** Whatever else happens in the system, a step that does not harm the connection keeps it alive, and
      the next stage brings it further. */
  lemma StepAlive(st: State, step: Step, n: nat, c: Crypto, k: nat)
    requires Inv(st, c) && n < |st.sessions| && Alive(st.sessions[n], c) && Past(st.sessions[n], k) && k <= 8
    requires !Harms(st, step, n)
    ensures n < |Next(st, step, c).sessions|
    ensures Moved(st.sessions[n], Next(st, step, c).sessions[n], step, n, c, k)
  {
    match step
    case Connect(initiator, responder, secret) => ConnectElsewhere(st, initiator, responder, secret, n, c);
    case Decide(device, yes) => DecideAlive(st, device, yes, n, c, k);
    case _ => LocalStepAlive(st, step, n, c, k);
  }

  lemma LocalStepAlive(st: State, step: Step, n: nat, c: Crypto, k: nat)
    requires n < |st.sessions| && Alive(st.sessions[n], c) && Past(st.sessions[n], k) && k <= 8
    requires !step.Connect? && !step.Decide? && !Harms(st, step, n)
    ensures n < |Next(st, step, c).sessions|
    ensures Moved(st.sessions[n], Next(st, step, c).sessions[n], step, n, c, k)
  {
    NextAt(st, step, n, c);
    if step.n == n { OwnStep(st.sessions[n], step, n, c, k); }
  }

  lemma NextAt(st: State, step: Step, n: nat, c: Crypto)
    requires n < |st.sessions| && !step.Connect? && !step.Decide?
    ensures n < |Next(st, step, c).sessions|
    ensures Next(st, step, c).sessions[n] == if step.n == n then Local(st.sessions[n], step, c) else st.sessions[n]
  {
  }

  lemma OwnStep(s: Session, step: Step, n: nat, c: Crypto, k: nat)
    requires Alive(s, c) && Past(s, k) && k <= 8 && !step.Decide?
    requires !step.DropConnection? && !step.InitiatorFails? && !step.ResponderFails?
    ensures Moved(s, Local(s, step, c), step, n, c, k)
  {
    LocalAlive(s, step, c, k);
    LocalKeeps(s, step, c);
    if k < 8 && IsStage(step, k, n, s.responder) { LocalStage(s, step, c, k, n, s.responder); }
  }

  lemma ConnectElsewhere(st: State, initiator: nat, responder: nat, secret: nat, n: nat, c: Crypto)
    requires n < |st.sessions| && !Harms(st, Connect(initiator, responder, secret), n)
    ensures var after := OnConnect(st, initiator, responder, secret, c);
      n < |after.sessions| && after.sessions[n] == st.sessions[n]
  {
  }

  /** A yes reaches the undecided connection of its device, by the invariant on the slots. */
  lemma DecideAlive(st: State, device: nat, yes: bool, n: nat, c: Crypto, k: nat)
    requires Inv(st, c) && n < |st.sessions| && Alive(st.sessions[n], c) && Past(st.sessions[n], k) && k <= 8
    requires !Harms(st, Decide(device, yes), n)
    ensures n < |OnDecide(st, device, yes).sessions|
    ensures Moved(st.sessions[n], OnDecide(st, device, yes).sessions[n], Decide(device, yes), n, c, k)
  {
  }

  predicate Unharmed(st: State, steps: seq<Step>, n: nat, c: Crypto) {
    steps == [] ||
    (Unharmed(st, steps[..|steps| - 1], n, c) && !Harms(Run(st, steps[..|steps| - 1], c), steps[|steps| - 1], n))
  }

  /** How many stages of the connection a run contains in order, whatever stands between them. */
  function Stages(steps: seq<Step>, n: nat, device: nat): (k: nat)
    ensures k <= 8
  {
    if steps == [] then 0
    else
      var k := Stages(steps[..|steps| - 1], n, device);
      if k < 8 && IsStage(steps[|steps| - 1], k, n, device) then k + 1 else k
  }

  lemma {:induction false} RunAlive(st: State, steps: seq<Step>, n: nat, c: Crypto)
    requires Inv(st, c) && n < |st.sessions| && Alive(st.sessions[n], c) && Unharmed(st, steps, n, c)
    ensures Inv(Run(st, steps, c), c) && n < |Run(st, steps, c).sessions|
    ensures var s, t := st.sessions[n], Run(st, steps, c).sessions[n];
      && t.initiator == s.initiator && t.responder == s.responder
      && Alive(t, c) && Past(t, Stages(steps, n, s.responder))
    decreases |steps|
  {
    if steps != [] {
      var front, last := steps[..|steps| - 1], steps[|steps| - 1];
      RunAlive(st, front, n, c);
      NextInv(Run(st, front, c), last, c);
      StepAlive(Run(st, front, c), last, n, c, Stages(front, n, st.sessions[n].responder));
    }
  }

  // ----- what was written is in the table

  ghost predicate Recorded(st: State) {
    forall n :: 0 <= n < |st.sessions| ==>
      var s := st.sessions[n];
      && (s.rWrote.Some? ==> (s.responder, s.rWrote.value.peer) in st.trust)
      && (s.iWrote.Some? ==> (s.initiator, s.iWrote.value.peer) in st.trust)
  }

  lemma LocalWrites(s: Session, step: Step, c: Crypto)
    requires SessionOk(s, c)
    ensures var t := Local(s, step, c);
      && (t.rWrote != s.rWrote ==> s.rWrote.None? && t.rWrote.Some?)
      && (t.iWrote != s.iWrote ==> s.iWrote.None? && t.iWrote.Some? && t.rWrote == s.rWrote)
  {
  }

  /** One connection went on, by at most one new write, and the write reached the table. */
  lemma UpdateRecorded(st: State, n: nat, t: Session)
    requires Recorded(st) && n < |st.sessions|
    requires t.initiator == st.sessions[n].initiator && t.responder == st.sessions[n].responder
    requires var s := st.sessions[n];
      && (t.rWrote != s.rWrote ==> s.rWrote.None? && t.rWrote.Some?)
      && (t.iWrote != s.iWrote ==> s.iWrote.None? && t.iWrote.Some? && t.rWrote == s.rWrote)
    ensures Recorded(st.(sessions := st.sessions[n := t], trust := WithTrust(st.trust, st.sessions[n], t)))
  {
  }

  lemma LocalRecorded(st: State, step: Step, c: Crypto)
    requires Inv(st, c) && Recorded(st) && !step.Connect? && !step.Decide? && step.n < |st.sessions|
    ensures Recorded(Next(st, step, c))
  {
    var s := st.sessions[step.n];
    LocalWrites(s, step, c);
    LocalKeeps(s, step, c);
    UpdateRecorded(st, step.n, Local(s, step, c));
  }

  lemma NextRecorded(st: State, step: Step, c: Crypto)
    requires Inv(st, c) && Recorded(st)
    ensures Recorded(Next(st, step, c))
  {
    match step
    case Connect(_, _, _) =>
    case Decide(_, _) =>
    case _ =>
      if step.n < |st.sessions| { LocalRecorded(st, step, c); }
  }

  lemma {:induction false} RunRecorded(st: State, steps: seq<Step>, c: Crypto)
    requires Inv(st, c) && Recorded(st)
    ensures Inv(Run(st, steps, c), c) && Recorded(Run(st, steps, c))
    decreases |steps|
  {
    if steps != [] {
      RunRecorded(st, steps[..|steps| - 1], c);
      NextInv(Run(st, steps[..|steps| - 1], c), steps[|steps| - 1], c);
      NextRecorded(Run(st, steps[..|steps| - 1], c), steps[|steps| - 1], c);
    }
  }

  /** In every interleaving with anything else that happens in the system: a connection that is alive and
      is not harmed, and whose eight stages occur in order, ends with both sides having shown the code
      of their common secret and trusting each other. */
  lemma CeremonySucceeds(before: seq<Step>, steps: seq<Step>, n: nat, c: Crypto)
    requires var st := Run(START, before, c);
      && n < |st.sessions| && Alive(st.sessions[n], c) && Unharmed(st, steps, n, c)
      && Stages(steps, n, st.sessions[n].responder) == 8
    ensures var st := Run(START, before, c);
      var s, end := st.sessions[n], Run(st, steps, c);
      && n < |end.sessions| && end.sessions[n].i == ITrusted && end.sessions[n].r == RFinished
      && (s.initiator, s.responder) in end.trust && (s.responder, s.initiator) in end.trust
      && end.sessions[n].iCode == Some(c.code(c.dh(end.sessions[n].iSecret, c.pub(end.sessions[n].rSecret))))
      && end.sessions[n].rCode == Some(c.code(c.dh(end.sessions[n].rSecret, c.pub(end.sessions[n].iSecret))))
  {
    var st := Run(START, before, c);
    RunRecorded(START, before, c);
    RunRecorded(st, steps, c);
    RunAlive(st, steps, n, c);
  }

  /** A connection that was opened and never harmed since is alive. */
  lemma UnharmedIsAlive(before: seq<Step>, a: nat, b: nat, x: nat, steps: seq<Step>, c: Crypto)
    requires var st := Next(Run(START, before, c), Connect(a, b, x), c);
      Unharmed(st, steps, |Run(START, before, c).sessions|, c)
    ensures var n := |Run(START, before, c).sessions|;
      var st := Run(Next(Run(START, before, c), Connect(a, b, x), c), steps, c);
      n < |st.sessions| && Alive(st.sessions[n], c)
      && st.sessions[n].initiator == a && st.sessions[n].responder == b
  {
    var st := Run(START, before, c);
    RunInv(before, c);
    NextInv(st, Connect(a, b, x), c);
    OpenedIsAlive(a, b, x, c);
    RunAlive(Next(st, Connect(a, b, x), c), steps, |st.sessions|, c);
  }

  /** The eight stages, one after the other. */
  function Finish(n: nat, device: nat, secret: nat): seq<Step> {
    [ReadRequest(n, secret), ReadAccept(n), Confirm(n), Decide(device, true), TakeDecision(n), StoreTrust(n),
     SendComplete(n), ReadComplete(n)]
  }

  lemma {:induction false} FinishIsHarmless(st: State, n: nat, device: nat, secret: nat, c: Crypto, i: nat)
    requires i <= 8
    ensures Unharmed(st, Finish(n, device, secret)[..i], n, c)
  {
    if i > 0 {
      var steps := Finish(n, device, secret);
      assert steps[..i][..i - 1] == steps[..i - 1] && steps[..i][i - 1] == steps[i - 1];
      FinishIsHarmless(st, n, device, secret, c, i - 1);
    }
  }

  lemma {:induction false} FinishHasAllStages(n: nat, device: nat, secret: nat, i: nat)
    requires i <= 8
    ensures Stages(Finish(n, device, secret)[..i], n, device) == i
  {
    if i > 0 {
      var steps := Finish(n, device, secret);
      assert steps[..i][..i - 1] == steps[..i - 1] && steps[..i][i - 1] == steps[i - 1];
      FinishHasAllStages(n, device, secret, i - 1);
    }
  }

  /** No live connection is ever stuck: from every reachable state the same eight steps complete it. */
  lemma NeverStuck(before: seq<Step>, n: nat, secret: nat, c: Crypto)
    requires n < |Run(START, before, c).sessions| && Alive(Run(START, before, c).sessions[n], c)
    ensures var st := Run(START, before, c);
      var s, end := st.sessions[n], Run(st, Finish(n, st.sessions[n].responder, secret), c);
      (s.initiator, s.responder) in end.trust && (s.responder, s.initiator) in end.trust
  {
    var st := Run(START, before, c);
    var steps := Finish(n, st.sessions[n].responder, secret);
    FinishIsHarmless(st, n, st.sessions[n].responder, secret, c, 8);
    FinishHasAllStages(n, st.sessions[n].responder, secret, 8);
    assert steps[..8] == steps;
    CeremonySucceeds(before, steps, n, c);
  }
}
