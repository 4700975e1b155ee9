/** Pairings that do not come about: the user says no, a newer connection takes the place of the request,
    the connection is cut, or a side reads what it does not expect. */
module PairingRefusal {
  import opened Pairing
  import opened Wrappers

  // ----- refused connections

  /** The user said no, or a newer connection took the slot before the user answered. */
  predicate TurnedDown(d: Decision) { d == Decided(false) || d == Gone }

  /** A connection that was turned down and on which nothing else went wrong: what each side still has
      to read, and that nobody wrote trust. */
  ghost predicate Refused(s: Session, c: Crypto) {
    && TurnedDown(s.decision) && s.rWrote.None? && s.iWrote.None?
    && (s.i == IPending || s.i == IConfirming ==> s.iPeer.Some?)
    && (match s.r
        case RReading =>
          s.i == IRequested && s.toR == [PairRequest(s.initiator, c.pub(s.iSecret))] && s.toI == []
        case RDeciding =>
          (s.i == IRequested && s.toI == [PairAccept(s.responder, c.pub(s.rSecret))])
          || ((s.i == IPending || s.i == IConfirming) && s.toI == [])
        case RFinished =>
          (s.i == IRequested && s.toI == [PairAccept(s.responder, c.pub(s.rSecret)), PairRejected])
          || ((s.i == IPending || s.i == IConfirming) && s.toI == [PairRejected])
          || (s.i == IFailed && s.toI == [])
        case _ => false)
  }

  /** How far it is: the request read, the decision taken, the code shown, the code confirmed, the refusal
      read. */
  predicate Along(s: Session, k: nat) {
    && (k >= 1 ==> s.r != RReading)
    && (k >= 2 ==> s.r == RFinished)
    && (k >= 3 ==> s.i != IRequested)
    && (k >= 4 ==> s.i != IPending)
    && (k >= 5 ==> s.i == IFailed)
  }

  predicate IsRefusalStage(step: Step, k: nat, n: nat) {
    match k
    case 0 => step.ReadRequest? && step.n == n
    case 1 => step == TakeDecision(n)
    case 2 => step == ReadAccept(n)
    case 3 => step == Confirm(n)
    case 4 => step == ReadComplete(n)
    case _ => false
  }

  /** Connection `n` is cut or one of its sides gives up. */
  predicate Breaks(step: Step, n: nat) {
    match step
    case DropConnection(m, _, _) => m == n
    case InitiatorFails(m) => m == n
    case ResponderFails(m) => m == n
    case _ => false
  }

  predicate Unbroken(steps: seq<Step>, n: nat) {
    forall i :: 0 <= i < |steps| ==> !Breaks(steps[i], n)
  }

  function RefusalStages(steps: seq<Step>, n: nat): (k: nat)
    ensures k <= 5
  {
    if steps == [] then 0
    else
      var k := RefusalStages(steps[..|steps| - 1], n);
      if k < 5 && IsRefusalStage(steps[|steps| - 1], k, n) then k + 1 else k
  }

  lemma LocalRefused(s: Session, step: Step, c: Crypto, k: nat, n: nat)
    requires Refused(s, c) && Along(s, k) && k <= 5
    requires !step.DropConnection? && !step.InitiatorFails? && !step.ResponderFails?
    ensures Refused(Local(s, step, c), c)
    ensures Along(Local(s, step, c), if k < 5 && IsRefusalStage(step, k, n) then k + 1 else k)
  {
    match step
    case ReadRequest(_, secret) =>
    case ReadAccept(_) => assert s.toI != [] ==> [s.toI[0]] + s.toI[1..] == s.toI;
    case Confirm(_) =>
    case TakeDecision(_) =>
    case StoreTrust(_) =>
    case SendComplete(_) =>
    case ReadComplete(_) => assert s.toI != [] ==> [s.toI[0]] + s.toI[1..] == s.toI;
    case _ =>
  }

  /** The step that turns an alive connection down, or leaves it alone. */
  lemma StepRefused(st: State, step: Step, n: nat, c: Crypto, k: nat)
    requires Inv(st, c) && n < |st.sessions| && Refused(st.sessions[n], c) && Along(st.sessions[n], k) && k <= 5
    requires !Breaks(step, n)
    ensures n < |Next(st, step, c).sessions| && Refused(Next(st, step, c).sessions[n], c)
    ensures Along(Next(st, step, c).sessions[n], if k < 5 && IsRefusalStage(step, k, n) then k + 1 else k)
  {
    match step
    case Connect(initiator, responder, secret) =>
    case Decide(device, yes) =>
    case _ => LocalStepRefused(st, step, n, c, k);
  }

  lemma LocalStepRefused(st: State, step: Step, n: nat, c: Crypto, k: nat)
    requires n < |st.sessions| && Refused(st.sessions[n], c) && Along(st.sessions[n], k) && k <= 5
    requires !step.Connect? && !step.Decide? && !Breaks(step, n)
    ensures n < |Next(st, step, c).sessions| && Refused(Next(st, step, c).sessions[n], c)
    ensures Along(Next(st, step, c).sessions[n], if k < 5 && IsRefusalStage(step, k, n) then k + 1 else k)
  {
    NextAt(st, step, n, c);
    var s := st.sessions[n];
    if step.n == n { LocalRefused(s, step, c, k, n); }
  }

  lemma {:induction false} RunRefused(st: State, steps: seq<Step>, n: nat, c: Crypto)
    requires Inv(st, c) && n < |st.sessions| && Refused(st.sessions[n], c) && Unbroken(steps, n)
    ensures Inv(Run(st, steps, c), c) && n < |Run(st, steps, c).sessions|
    ensures Refused(Run(st, steps, c).sessions[n], c) && Along(Run(st, steps, c).sessions[n], RefusalStages(steps, n))
    decreases |steps|
  {
    if steps != [] {
      var front, last := steps[..|steps| - 1], steps[|steps| - 1];
      RunRefused(st, front, n, c);
      NextInv(Run(st, front, c), last, c);
      StepRefused(Run(st, front, c), last, n, c, RefusalStages(front, n));
    }
  }

  /** The step by which connection `n` is turned down: its user says no, or somebody else connects to the
      same device while it waits there. */
  predicate TurnsDown(st: State, step: Step, n: nat) {
    match step
    case Decide(device, yes) => !yes && device in st.slot && st.slot[device] == n
    case Connect(_, responder, _) => responder in st.slot && st.slot[responder] == n
    case _ => false
  }

  lemma NowRefused(st: State, step: Step, n: nat, c: Crypto)
    requires Inv(st, c) && n < |st.sessions| && Alive(st.sessions[n], c) && TurnsDown(st, step, n)
    ensures n < |Next(st, step, c).sessions| && Refused(Next(st, step, c).sessions[n], c)
  {
    assert st.sessions[n].decision == Undecided;
  }

  /** After any run and whatever else happens then: when a connection that was alive is turned down and is
      not broken, no side ever writes trust; once the responder has taken the decision it has finished,
      and once the initiator has read what was sent to it, it has failed. */
  lemma RefusalArrives(before: seq<Step>, refusal: Step, steps: seq<Step>, n: nat, c: Crypto)
    requires var st := Run(START, before, c);
      n < |st.sessions| && Alive(st.sessions[n], c) && TurnsDown(st, refusal, n) && Unbroken(steps, n)
    ensures var end := Run(Next(Run(START, before, c), refusal, c), steps, c);
      && n < |end.sessions|
      && var s := end.sessions[n];
         && s.rWrote == None && s.iWrote == None && s.decision != Decided(true)
         && (s.r != RReading && s.r != RDeciding ==> s.r == RFinished)
         && (s.r != RReading && s.r != RDeciding && s.toI == [] ==> s.i == IFailed)
  {
    var st := Run(START, before, c);
    RunInv(before, c);
    NextInv(st, refusal, c);
    NowRefused(st, refusal, n, c);
    RunRefused(Next(st, refusal, c), steps, n, c);
  }

  /** And it gets there: with its five stages in order, among any other steps, both sides are done. */
  lemma RefusalCompletes(before: seq<Step>, refusal: Step, steps: seq<Step>, n: nat, c: Crypto)
    requires var st := Run(START, before, c);
      n < |st.sessions| && Alive(st.sessions[n], c) && TurnsDown(st, refusal, n) && Unbroken(steps, n)
    requires RefusalStages(steps, n) == 5
    ensures var end := Run(Next(Run(START, before, c), refusal, c), steps, c);
      && n < |end.sessions|
      && var s := end.sessions[n];
         s.r == RFinished && s.i == IFailed && s.toI == [] && s.rWrote == None && s.iWrote == None
  {
    var st := Run(START, before, c);
    RunInv(before, c);
    NextInv(st, refusal, c);
    NowRefused(st, refusal, n, c);
    RunRefused(Next(st, refusal, c), steps, n, c);
  }

  // ----- sides that stop

  /** A responder, or an initiator, that has failed: what it wrote until then is all it will ever write. */
  predicate StoppedR(s: Session, wrote: Option<Written>) { s.r == RFailed && s.rWrote == wrote }

  predicate StoppedI(s: Session, wrote: Option<Written>) { s.i == IFailed && s.iWrote == wrote }

  lemma StepStopped(st: State, step: Step, n: nat, c: Crypto, wrote: Option<Written>)
    requires n < |st.sessions|
    ensures n < |Next(st, step, c).sessions|
    ensures StoppedR(st.sessions[n], wrote) ==> StoppedR(Next(st, step, c).sessions[n], wrote)
    ensures StoppedI(st.sessions[n], wrote) ==> StoppedI(Next(st, step, c).sessions[n], wrote)
  {
    match step
    case Connect(initiator, responder, secret) =>
    case Decide(device, yes) =>
    case _ =>
      NextAt(st, step, n, c);
      LocalStopped(st.sessions[n], step, c, wrote);
  }

  lemma LocalStopped(s: Session, step: Step, c: Crypto, wrote: Option<Written>)
    ensures StoppedR(s, wrote) ==> StoppedR(Local(s, step, c), wrote)
    ensures StoppedI(s, wrote) ==> StoppedI(Local(s, step, c), wrote)
  {
  }

  lemma {:induction false} RunStopped(st: State, steps: seq<Step>, n: nat, c: Crypto, wrote: Option<Written>)
    requires n < |st.sessions|
    ensures n < |Run(st, steps, c).sessions|
    ensures StoppedR(st.sessions[n], wrote) ==> StoppedR(Run(st, steps, c).sessions[n], wrote)
    ensures StoppedI(st.sessions[n], wrote) ==> StoppedI(Run(st, steps, c).sessions[n], wrote)
    decreases |steps|
  {
    if steps != [] {
      RunStopped(st, steps[..|steps| - 1], n, c, wrote);
      StepStopped(Run(st, steps[..|steps| - 1], c), steps[|steps| - 1], n, c, wrote);
    }
  }

  /** A message that is not the one its reader waits for. */
  predicate UnexpectedByResponder(s: Session, step: Step, n: nat) {
    s.toR != []
    && ((step.ReadRequest? && step.n == n && s.r == RReading && !s.toR[0].PairRequest?)
        || (step == StoreTrust(n) && s.r == RConfirming && s.rPeer.Some? && !s.toR[0].PairConfirm?))
  }

  predicate UnexpectedByInitiator(s: Session, step: Step, n: nat) {
    s.toI != []
    && ((step == ReadAccept(n) && s.i == IRequested && !s.toI[0].PairAccept?)
        || (step == ReadComplete(n) && s.i == IConfirming && s.iPeer.Some? && !s.toI[0].PairComplete?))
  }

  /** A side that reads anything but what it waits for has failed for good and never writes trust after
      that, in any state, whoever sent the message. */
  lemma UnexpectedStops(st: State, step: Step, steps: seq<Step>, n: nat, c: Crypto)
    requires n < |st.sessions|
    ensures var s, after := st.sessions[n], Run(Next(st, step, c), steps, c);
      && n < |after.sessions|
      && (UnexpectedByResponder(s, step, n) ==>
            after.sessions[n].r == RFailed && after.sessions[n].rWrote == s.rWrote)
      && (UnexpectedByInitiator(s, step, n) ==>
            after.sessions[n].i == IFailed && after.sessions[n].iWrote == s.iWrote)
  {
    var s, next := st.sessions[n], Next(st, step, c);
    StepStopped(st, step, n, c, s.rWrote);
    if UnexpectedByResponder(s, step, n) || UnexpectedByInitiator(s, step, n) { NextAt(st, step, n, c); }
    RunStopped(next, steps, n, c, s.rWrote);
    RunStopped(next, steps, n, c, s.iWrote);
  }

  /** A side that gives up has failed for good, and what it wrote until then is all it will ever write. */
  lemma GivingUpIsFinal(st: State, steps: seq<Step>, n: nat, c: Crypto)
    requires n < |st.sessions|
    ensures var s, end := st.sessions[n], Run(Next(st, InitiatorFails(n), c), steps, c);
      n < |end.sessions| && end.sessions[n].i == IFailed && end.sessions[n].iWrote == s.iWrote
    ensures var s, end := st.sessions[n], Run(Next(st, ResponderFails(n), c), steps, c);
      n < |end.sessions| && end.sessions[n].r == RFailed && end.sessions[n].rWrote == s.rWrote
  {
    NextAt(st, InitiatorFails(n), n, c);
    NextAt(st, ResponderFails(n), n, c);
    RunStopped(Next(st, InitiatorFails(n), c), steps, n, c, st.sessions[n].iWrote);
    RunStopped(Next(st, ResponderFails(n), c), steps, n, c, st.sessions[n].rWrote);
  }

  // ----- cut connections

  /** The confirmation was lost: the initiator has nothing more to send, and nothing but a refusal can
      still come back. */
  predicate Quiet(s: Session) {
    && s.toR == [] && (s.toI == [] || s.toI == [PairRejected]) && s.rWrote.None? && s.iWrote.None?
    && (s.i == IConfirming || s.i == IFailed)
    && (s.r == RDeciding || s.r == RConfirming || s.r == RFinished || s.r == RFailed)
    && (s.toI != [] ==> s.r == RFinished || s.r == RFailed)
  }

  lemma LocalQuiet(s: Session, step: Step, c: Crypto)
    requires Quiet(s)
    ensures Quiet(Local(s, step, c))
  {
  }

  lemma StepQuiet(st: State, step: Step, n: nat, c: Crypto)
    requires n < |st.sessions| && Quiet(st.sessions[n])
    ensures n < |Next(st, step, c).sessions| && Quiet(Next(st, step, c).sessions[n])
  {
    match step
    case Connect(initiator, responder, secret) =>
    case Decide(device, yes) =>
    case _ =>
      NextAt(st, step, n, c);
      LocalQuiet(st.sessions[n], step, c);
  }

  lemma {:induction false} RunQuiet(st: State, steps: seq<Step>, n: nat, c: Crypto)
    requires n < |st.sessions| && Quiet(st.sessions[n])
    ensures n < |Run(st, steps, c).sessions| && Quiet(Run(st, steps, c).sessions[n])
    decreases |steps|
  {
    if steps != [] {
      RunQuiet(st, steps[..|steps| - 1], n, c);
      StepQuiet(Run(st, steps[..|steps| - 1], c), steps[|steps| - 1], n, c);
    }
  }

  /** A live connection that is cut after the initiator confirmed and before anything it sent was read
      never leads to trust on either side, whatever is decided or done afterwards. */
  lemma CutBeforeConfirmation(st: State, steps: seq<Step>, n: nat, c: Crypto)
    requires n < |st.sessions| && Alive(st.sessions[n], c)
    requires st.sessions[n].i == IConfirming && !Stored(st.sessions[n].r)
    ensures var end := Run(Next(st, DropConnection(n, 0, 0), c), steps, c);
      && n < |end.sessions| && end.sessions[n].rWrote == None && end.sessions[n].iWrote == None
  {
    NextAt(st, DropConnection(n, 0, 0), n, c);
    RunQuiet(Next(st, DropConnection(n, 0, 0), c), steps, n, c);
  }

  // ----- the user's commands

  /** How often the user of a device said yes. */
  function YesCommands(steps: seq<Step>, device: nat): nat {
    if steps == [] then 0
    else YesCommands(steps[..|steps| - 1], device) + (if steps[|steps| - 1] == Decide(device, true) then 1 else 0)
  }

  lemma {:induction false} AcceptsAreCommands(steps: seq<Step>, c: Crypto, device: nat)
    ensures Count(Run(START, steps, c).accepts, device) <= YesCommands(steps, device)
  {
    if steps != [] {
      var front, last := steps[..|steps| - 1], steps[|steps| - 1];
      AcceptsAreCommands(front, c, device);
      var st := Run(START, front, c);
      if last.Decide? && last.yes {
        assert (st.accepts + [last.device])[..|st.accepts|] == st.accepts;
      }
    }
  }

  /** A device stores trust as responder no more often than its user said yes. */
  lemma WritesNeedYeses(steps: seq<Step>, c: Crypto, device: nat)
    ensures ResponderWrites(Run(START, steps, c).sessions, device) <= YesCommands(steps, device)
  {
    WritesNeedAccepts(steps, c, device);
    AcceptsAreCommands(steps, c, device);
  }
}
