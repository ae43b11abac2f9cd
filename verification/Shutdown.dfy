/**
 * Graceful shutdown: the 503 gate with its in-flight counter, and the drain that the first signal
 * starts. Requests, signals, the interval tick and the force timer interleave freely.
 */
module Shutdown {

  /** What the gate does with a request: admit and count it, pass a health probe on uncounted, or
      answer 503. */
  datatype Gate = Admitted | Probe | Refused

  /** `handled` is the latch of the per-request decrement. */
  datatype Request = Request(gate: Gate, handled: bool)

  /** How far the drain has come: named after what it waits for or does next. */
  datatype Phase =
    | Running
    | Closing        // server.close has been called
    | Waiting        // the 500 ms interval polls the counter
    | Flushing       // webhooks
    | Stopping       // schedulers, then the remaining services
    | Checkpointing  // WAL
    | Auditing       // audit log
    | ClosingDb
    | Exiting
    | Exited(code: nat)

  datatype Action = FlushWebhooks | StopSchedulers | Checkpoint | FlushAudit | CloseDb | Exit

  /** A drain action, with the number of admitted requests open when it was done. */
  datatype Entry = Entry(action: Action, open: nat)

  datatype State = State(
    isShuttingDown: bool,
    inFlight: int,
    requests: map<nat, Request>,
    phase: Phase,
    timerArmed: bool,
    drains: nat,
    log: seq<Entry>)

  const START := State(false, 0, map[], Running, false, 0, [])

  datatype Event =
    | Arrive(r: nat, health: bool)
    | Finish(r: nat)   // the response's finish event
    | Close(r: nat)    // the response's close event
    | Signal
    | ServerClosed     // the callback of server.close
    | Tick             // one poll of the wait interval
    | Proceed          // the awaited drain step is over
    | Timeout          // the force-exit timer

  predicate IsOpen(s: State, r: nat) {
    r in s.requests && s.requests[r].gate.Admitted? && !s.requests[r].handled
  }

  function Open(s: State): set<nat> {
    set r | r in s.requests && s.requests[r].gate.Admitted? && !s.requests[r].handled
  }

  /** Both finish and close run the same decrement; the latch lets it count once. */
  function Decrement(s: State, r: nat): State {
    if IsOpen(s, r) then
      s.(requests := s.requests[r := s.requests[r].(handled := true)], inFlight := s.inFlight - 1)
    else s
  }

  function Do(s: State, action: Action, next: Phase): State {
    s.(log := s.log + [Entry(action, |Open(s)|)], phase := next)
  }

  function Step(s: State, e: Event): State {
    if s.phase.Exited? then s
    else match e
      case Arrive(r, health) =>
        if r in s.requests then s
        else if s.isShuttingDown then s.(requests := s.requests[r := Request(if health then Probe else Refused, false)])
        else s.(requests := s.requests[r := Request(Admitted, false)], inFlight := s.inFlight + 1)
      case Finish(r) => Decrement(s, r)
      case Close(r) => Decrement(s, r)
      case Signal =>
        if s.isShuttingDown then s
        else s.(isShuttingDown := true, phase := Closing, timerArmed := true, drains := s.drains + 1)
      case ServerClosed => if s.phase == Closing then s.(phase := Waiting) else s
      case Tick => if s.phase == Waiting && s.inFlight <= 0 then s.(phase := Flushing) else s
      case Proceed =>
        (match s.phase
         case Flushing => Do(s, FlushWebhooks, Stopping)
         case Stopping => Do(s, StopSchedulers, Checkpointing).(timerArmed := false)
         case Checkpointing => Do(s, Checkpoint, Auditing)
         case Auditing => Do(s, FlushAudit, ClosingDb)
         case ClosingDb => Do(s, CloseDb, Exiting)
         case Exiting => Do(s, Exit, Exited(0))
         case _ => s)
      case Timeout => if s.timerArmed then s.(phase := Exited(1)) else s
  }

  function Run(s: State, events: seq<Event>): State
    decreases |events|
  {
    if events == [] then s else Run(Step(s, events[0]), events[1..])
  }

  // ------------------------------------------------------------ the invariant

  const ORDER: seq<Action> := [FlushWebhooks, StopSchedulers, Checkpoint, FlushAudit, CloseDb, Exit]

  /** How many drain actions a phase comes after. */
  function Done(p: Phase): nat {
    match p
    case Stopping => 1
    case Checkpointing => 2
    case Auditing => 3
    case ClosingDb => 4
    case Exiting => 5
    case Exited(0) => 6
    case _ => 0
  }

  predicate Drained(p: Phase) {
    p.Flushing? || p.Stopping? || p.Checkpointing? || p.Auditing? || p.ClosingDb? || p.Exiting? || p == Exited(0)
  }

  /** The counter is exact. */
  ghost predicate Counts(s: State) { s.inFlight == |Open(s)| }

  /** From the end of the wait on, nothing admitted is open. */
  ghost predicate Quiet(s: State) { Drained(s.phase) ==> Open(s) == {} }

  ghost predicate Phased(s: State) {
    && (s.isShuttingDown <==> !s.phase.Running?)
    && s.drains == (if s.isShuttingDown then 1 else 0)
    && (s.phase.Exited? ==> s.phase.code <= 1)
    && (Done(s.phase) >= 2 ==> !s.timerArmed)
    && (s.timerArmed ==> s.isShuttingDown)
    && (s.isShuttingDown && !s.phase.Exited? && Done(s.phase) < 2 ==> s.timerArmed)
  }

  /** The log is a prefix of the order, as long as the phase says, with nothing open. */
  ghost predicate Logged(s: State) {
    && |s.log| <= 6
    && (forall i :: 0 <= i < |s.log| ==> s.log[i] == Entry(ORDER[i], 0))
    && (if s.phase == Exited(1) then |s.log| <= 1 else |s.log| == Done(s.phase))
  }

  ghost predicate Inv(s: State) { Counts(s) && Quiet(s) && Phased(s) && Logged(s) }

  lemma AdmitCounts(s: State, r: nat)
    requires r !in s.requests
    ensures Open(s.(requests := s.requests[r := Request(Admitted, false)])) == Open(s) + {r}
    ensures forall gate: Gate :: !gate.Admitted? ==>
            Open(s.(requests := s.requests[r := Request(gate, false)])) == Open(s)
  {
  }

  lemma DecrementCounts(s: State, r: nat)
    requires s.inFlight == |Open(s)|
    ensures Decrement(s, r).inFlight == |Open(Decrement(s, r))|
    ensures Open(Decrement(s, r)) == Open(s) - {r}
  {
    assert Open(Decrement(s, r)) == Open(s) - {r};
    assert r in Open(s) <==> IsOpen(s, r);
  }

  predicate OfRequest(e: Event) { e.Arrive? || e.Finish? || e.Close? }

  /** Requests come and go without touching the drain; shutting down, none is admitted. */
  lemma RequestStep(s: State, e: Event)
    requires Inv(s) && OfRequest(e)
    ensures Inv(Step(s, e))
    ensures s.isShuttingDown ==> Open(Step(s, e)) <= Open(s) && Step(s, e).inFlight <= s.inFlight
  {
    if !s.phase.Exited? {
      match e
      case Arrive(r, _) => if r !in s.requests { AdmitCounts(s, r); }
      case Finish(r) => DecrementCounts(s, r);
      case Close(r) => DecrementCounts(s, r);
    }
  }

  lemma DrainKeepsRequests(s: State, e: Event)
    requires !OfRequest(e)
    ensures Open(Step(s, e)) == Open(s) && Step(s, e).inFlight == s.inFlight
  {
  }

  /** Only the poll that reads a zero counter enters the drained phases, and no event leaves them
      except by exiting. */
  lemma DrainKeepsQuiet(s: State, e: Event)
    requires Counts(s) && Quiet(s) && !OfRequest(e)
    ensures Quiet(Step(s, e))
  {
    DrainKeepsRequests(s, e);
    if e.Tick? && s.phase.Waiting? && s.inFlight <= 0 { assert Open(s) == {}; }
  }

  lemma DrainKeepsPhased(s: State, e: Event)
    requires Phased(s) && !OfRequest(e)
    ensures Phased(Step(s, e))
  {
  }

  lemma DrainKeepsLogged(s: State, e: Event)
    requires Quiet(s) && Phased(s) && Logged(s) && !OfRequest(e)
    ensures Logged(Step(s, e))
  {
    var t := Step(s, e);
    if e.Proceed? && Drained(s.phase) && !s.phase.Exited? {
      assert t.log == s.log + [Entry(ORDER[Done(s.phase)], 0)];
      assert Done(t.phase) == Done(s.phase) + 1;
    }
  }

  lemma DrainStep(s: State, e: Event)
    requires Inv(s) && !OfRequest(e)
    ensures Open(Step(s, e)) == Open(s) && Step(s, e).inFlight == s.inFlight
    ensures Inv(Step(s, e))
  {
    DrainKeepsRequests(s, e);
    DrainKeepsQuiet(s, e);
    DrainKeepsPhased(s, e);
    DrainKeepsLogged(s, e);
  }

  lemma StepKeepsInv(s: State, e: Event)
    requires Inv(s)
    ensures Inv(Step(s, e))
  {
    if OfRequest(e) { RequestStep(s, e); } else { DrainStep(s, e); }
  }

  lemma {:induction false} RunKeepsInv(s: State, events: seq<Event>)
    requires Inv(s)
    ensures Inv(Run(s, events))
    decreases |events|
  {
    if events != [] {
      StepKeepsInv(s, events[0]);
      RunKeepsInv(Step(s, events[0]), events[1..]);
    }
  }

  lemma StartInv()
    ensures Inv(START)
  {
    assert Open(START) == {};
  }

  // --------------------------------------------------------------- the promises

  /** The counter always equals the number of admitted requests neither finished nor closed. */
  lemma CounterIsExact(events: seq<Event>)
    ensures var s := Run(START, events);
            s.inFlight == |set r | r in s.requests && s.requests[r].gate.Admitted? && !s.requests[r].handled|
  {
    StartInv();
    RunKeepsInv(START, events);
    var s := Run(START, events);
    assert Open(s) == set r | r in s.requests && s.requests[r].gate.Admitted? && !s.requests[r].handled;
  }

  /** Once shutdown has begun the counter never rises and no request is admitted. */
  lemma {:induction false} NoAdmissionAfterSignal(s: State, events: seq<Event>)
    requires Inv(s) && s.isShuttingDown
    ensures Run(s, events).inFlight <= s.inFlight
    ensures Open(Run(s, events)) <= Open(s)
    decreases |events|
  {
    if events != [] {
      var t := Step(s, events[0]);
      if OfRequest(events[0]) { RequestStep(s, events[0]); } else { DrainStep(s, events[0]); }
      NoAdmissionAfterSignal(t, events[1..]);
    }
  }

  /** Every run does the drain actions in one fixed order, each at most once and each with no
      admitted request open; any number of signals starts at most one drain; and exit(0) comes
      after all of them. */
  lemma DrainIsSafe(events: seq<Event>)
    ensures var s := Run(START, events);
            && s.drains <= 1
            && |s.log| <= |ORDER|
            && (forall i :: 0 <= i < |s.log| ==>
                  s.log[i] == Entry([FlushWebhooks, StopSchedulers, Checkpoint, FlushAudit, CloseDb, Exit][i], 0))
            && (s.phase == Exited(0) ==> |s.log| == |ORDER| && Open(s) == {})
            && (s.phase == Exited(1) ==> |s.log| <= 1)
  {
    StartInv();
    RunKeepsInv(START, events);
  }

  /** In every run the force timer, should it fire, exits with 1 exactly from the first signal until the
      schedulers are stopped, and does nothing before and after that. */
  lemma TimeoutForcesExitIff(events: seq<Event>)
    requires !Run(START, events).phase.Exited?
    ensures var s := Run(START, events);
            if (exists i :: 0 <= i < |events| && events[i] == Signal) && |s.log| < 2
            then Step(s, Timeout).phase == Exited(1) else Step(s, Timeout) == s
  {
    StartInv();
    RunKeepsInv(START, events);
    SignalStarts(START, events);
  }

  lemma {:induction false} SignalStarts(s: State, events: seq<Event>)
    requires Inv(s) && !Run(s, events).phase.Exited?
    ensures Run(s, events).isShuttingDown
            <==> s.isShuttingDown || exists i :: 0 <= i < |events| && events[i] == Signal
    decreases |events|
  {
    if events != [] {
      var rest := events[1..];
      StepKeepsInv(s, events[0]);
      if s.phase.Exited? { ExitIsFinal(s, events); }
      SignalStarts(Step(s, events[0]), rest);
      if i :| 0 <= i < |events| && events[i] == Signal {
        assert i > 0 ==> rest[i - 1] == Signal;
      }
      if i :| 0 <= i < |rest| && rest[i] == Signal {
        assert events[i + 1] == Signal;
      }
    }
  }

  lemma {:induction false} ExitIsFinal(s: State, events: seq<Event>)
    requires s.phase.Exited?
    ensures Run(s, events) == s
    decreases |events|
  {
    if events != [] {
      ExitIsFinal(s, events[1..]);
    }
  }

  ghost predicate NotTimedOut(events: seq<Event>) { forall i :: 0 <= i < |events| ==> !events[i].Timeout? }

  function CountProceeds(events: seq<Event>): nat {
    if events == [] then 0 else (if events[0].Proceed? then 1 else 0) + CountProceeds(events[1..])
  }

  /** Past the wait only an action moves the drain on, one step at a time. */
  lemma DrainedStep(s: State, e: Event)
    requires Inv(s) && Drained(s.phase) && !e.Timeout?
    ensures Drained(Step(s, e).phase)
    ensures Done(Step(s, e).phase) == if e.Proceed? && !s.phase.Exited? then Done(s.phase) + 1 else Done(s.phase)
  {
  }

  lemma {:induction false} ActionsReachExit(s: State, events: seq<Event>)
    requires Inv(s) && Drained(s.phase) && NotTimedOut(events)
    requires Done(s.phase) + CountProceeds(events) >= |ORDER|
    ensures Run(s, events).phase == Exited(0)
    decreases |events|
  {
    if events != [] {
      assert !events[0].Timeout?;
      DrainedStep(s, events[0]);
      StepKeepsInv(s, events[0]);
      assert forall i :: 0 <= i < |events| - 1 ==> events[1..][i] == events[i + 1];
      ActionsReachExit(Step(s, events[0]), events[1..]);
    }
  }

  predicate WaitsOrDrained(p: Phase) { p.Waiting? || Drained(p) }

  lemma TickDrains(s: State)
    requires Inv(s) && WaitsOrDrained(s.phase) && Open(s) == {}
    ensures Inv(Step(s, Tick)) && Drained(Step(s, Tick).phase)
  {
    StepKeepsInv(s, Tick);
  }

  /** A poll that finds no admitted request open drains, unless an earlier one did. */
  lemma {:induction false} QuietPollDrains(s: State, events: seq<Event>, i: nat)
    requires Inv(s) && WaitsOrDrained(s.phase) && NotTimedOut(events)
    requires i < |events| && events[i] == Tick && Open(Run(s, events[..i])) == {}
    requires CountProceeds(events[i + 1..]) >= |ORDER|
    ensures Run(s, events).phase == Exited(0)
    decreases i
  {
    var rest := events[1..];
    assert !events[0].Timeout?;
    assert forall j :: 0 <= j < |rest| ==> rest[j] == events[j + 1];
    if i == 0 {
      assert events[..0] == [] && events[0 + 1..] == rest;
      TickDrains(s);
      ActionsReachExit(Step(s, Tick), rest);
    } else {
      StepKeepsInv(s, events[0]);
      assert WaitsOrDrained(Step(s, events[0]).phase);
      assert events[..i][1..] == rest[..i - 1] && rest[i - 1 + 1..] == events[i + 1..];
      QuietPollDrains(Step(s, events[0]), rest, i - 1);
    }
  }

  /** A waiting drain, whose timer does not fire, reaches exit(0) with every action done in every run
      that polls at some moment with no admitted request open and then finishes its six actions,
      whatever requests, signals and polls come between. */
  lemma CleanDrainExits(s: State, events: seq<Event>, i: nat)
    requires Inv(s) && s.phase == Waiting && NotTimedOut(events)
    requires i < |events| && events[i] == Tick && Open(Run(s, events[..i])) == {}
    requires CountProceeds(events[i + 1..]) >= |ORDER|
    ensures var t := Run(s, events);
            t.phase == Exited(0) && |t.log| == |ORDER|
  {
    QuietPollDrains(s, events, i);
    RunKeepsInv(s, events);
  }

  // -------------------------------------------------------------- the module state

  /** state.js, the request middleware and the signal handler, changed in place. */
  class Server {
    var isShuttingDown: bool
    var inFlightRequests: int
    var requests: map<nat, Request>
    var phase: Phase
    var timerArmed: bool
    ghost var drains: nat
    ghost var log: seq<Entry>

    ghost function Value(): State
      reads this
    {
      State(isShuttingDown, inFlightRequests, requests, phase, timerArmed, drains, log)
    }

    constructor ()
      ensures Value() == START
    {
      isShuttingDown, inFlightRequests, requests := false, 0, map[];
      phase, timerArmed, drains, log := Running, false, 0, [];
    }

    /** The gate: 503, or an uncounted health probe, once shutting down; admitted and counted otherwise. */
    method OnRequest(r: nat, health: bool) returns (gate: Gate)
      requires !phase.Exited? && r !in requests
      modifies this
      ensures Value() == Step(old(Value()), Arrive(r, health))
      ensures gate == requests[r].gate
      ensures (gate.Admitted? <==> !old(isShuttingDown)) && (gate.Probe? <==> old(isShuttingDown) && health)
      ensures inFlightRequests == old(inFlightRequests) + if gate.Admitted? then 1 else 0
    {
      if isShuttingDown {
        gate := if health then Probe else Refused;
      } else {
        gate := Admitted;
        inFlightRequests := inFlightRequests + 1;
      }
      requests := requests[r := Request(gate, false)];
    }

    /** The listener on both finish and close. */
    method OnResponseOver(r: nat)
      requires !phase.Exited?
      modifies this
      ensures Value() == Step(old(Value()), Finish(r)) == Step(old(Value()), Close(r))
      ensures var counted := r in old(requests) && old(requests)[r] == Request(Admitted, false);
              inFlightRequests == old(inFlightRequests) - if counted then 1 else 0
    {
      if r in requests && requests[r].gate.Admitted? && !requests[r].handled {
        requests := requests[r := requests[r].(handled := true)];
        inFlightRequests := inFlightRequests - 1;
      }
    }

    method OnSignal()
      requires !phase.Exited?
      modifies this
      ensures Value() == Step(old(Value()), Signal)
      ensures isShuttingDown && (!old(isShuttingDown) ==> timerArmed && phase == Closing)
    {
      if isShuttingDown {
        return;
      }
      isShuttingDown := true;
      timerArmed := true;
      phase := Closing;
      drains := drains + 1;
    }

    /** One poll of the wait interval. */
    method OnTick()
      requires !phase.Exited?
      modifies this
      ensures Value() == Step(old(Value()), Tick)
    {
      if phase == Waiting && inFlightRequests <= 0 {
        phase := Flushing;
      }
    }

    /** The callback of server.close. */
    method OnServerClosed()
      requires !phase.Exited?
      modifies this
      ensures Value() == Step(old(Value()), ServerClosed)
    {
      if phase == Closing {
        phase := Waiting;
      }
    }

    /** The awaited drain step is over: the action is done and the next one begins. Stopping the
        schedulers also clears the force timer. */
    method OnProceed()
      requires !phase.Exited?
      modifies this
      ensures Value() == Step(old(Value()), Proceed)
    {
      ghost var open := |Open(Value())|;
      match phase {
        case Flushing => log := log + [Entry(FlushWebhooks, open)]; phase := Stopping;
        case Stopping =>
          log := log + [Entry(StopSchedulers, open)];
          timerArmed := false;
          phase := Checkpointing;
        case Checkpointing => log := log + [Entry(Checkpoint, open)]; phase := Auditing;
        case Auditing => log := log + [Entry(FlushAudit, open)]; phase := ClosingDb;
        case ClosingDb => log := log + [Entry(CloseDb, open)]; phase := Exiting;
        case Exiting => log := log + [Entry(Exit, open)]; phase := Exited(0);
        case _ =>
      }
    }

    /** The force timer fires. */
    method OnTimeout()
      requires !phase.Exited?
      modifies this
      ensures Value() == Step(old(Value()), Timeout)
    {
      if timerArmed {
        phase := Exited(1);
      }
    }
  }
}
