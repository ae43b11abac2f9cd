/**
 * The idempotency protocol: any number of concurrent requests step through reads and a
 * reservation on one shared table. Each database call is one atomic step, so between any two
 * steps of a request every other request may move.
 */
module Idempotency {

  /** A row is keyed by (apiKeyId, idempotencyKey), the UNIQUE pair of the table. */
  datatype Slot = Slot(apiKeyId: nat, key: string)

  datatype Status = Pending | Completed(response: string)

  /** `body` is the text whose digest the row keeps as its request hash. */
  datatype Row = Row(status: Status, expired: bool, body: string)

  /** Where a request is: named after the call it makes next, or after how it ended. */
  datatype Pc =
    | AtGet          // IdempotencyService.get
    | AtIsPending    // IdempotencyService.isPending
    | AtReserve      // IdempotencyService.reserve
    | AtRacing       // the second isPending, after a lost reservation
    | AtRecheck      // the second get
    | AtFindByHash   // findByHash, then next()
    | Executing      // the route handler runs
    | Finished(response: string)  // the handler stored and sent its response
    | Failed         // the handler ended without storing one
    | Conflict       // 409
    | Replayed(response: string)  // 200 with the stored response

  /** `warned`: the request carries a warning about a similar one. */
  datatype Request = Request(slot: Slot, body: string, pc: Pc, warned: bool)

  /** `executions` logs the requests whose handler started, in order. */
  datatype State = State(table: map<Slot, Row>, requests: map<nat, Request>, executions: seq<nat>)

  const START := State(map[], map[], [])

  // ------------------------------------------------- the service's statements

  function Get(s: State, k: Slot): Pc {
    if k in s.table && !s.table[k].expired && s.table[k].status.Completed?
    then Replayed(s.table[k].status.response) else AtIsPending
  }

  predicate IsPending(s: State, k: Slot) {
    k in s.table && !s.table[k].expired && s.table[k].status.Pending?
  }

  /** A live completed row of the same API key under another key, with the same body. */
  predicate IsSimilar(s: State, k: Slot, body: string, other: Slot) {
    && other in s.table && other.apiKeyId == k.apiKeyId && other.key != k.key
    && !s.table[other].expired && s.table[other].status.Completed? && s.table[other].body == body
  }

  predicate FindByHash(s: State, k: Slot, body: string) {
    exists other :: other in s.table && IsSimilar(s, k, body, other)
  }

  function LiveRows(table: map<Slot, Row>): map<Slot, Row> {
    map k | k in table && !table[k].expired :: table[k]
  }

  datatype Event =
    | Arrive(r: nat, slot: Slot, body: string)
    | Advance(r: nat)
    | HandlerStores(r: nat, response: string)
    | HandlerFails(r: nat)
    | Expire(slot: Slot)
    | Cleanup

  function Move(s: State, r: nat, pc: Pc): State
    requires r in s.requests
  {
    s.(requests := s.requests[r := s.requests[r].(pc := pc)])
  }

  /** One call of requireIdempotency. */
  function AdvanceStep(s: State, r: nat): State
    requires r in s.requests
  {
    var k, body := s.requests[r].slot, s.requests[r].body;
    match s.requests[r].pc
    case AtGet => Move(s, r, Get(s, k))
    case AtIsPending => Move(s, r, if IsPending(s, k) then Conflict else AtReserve)
    case AtReserve =>
      if k in s.table then Move(s, r, AtRacing)
      else Move(s, r, AtFindByHash).(table := s.table[k := Row(Pending, false, body)])
    case AtRacing => Move(s, r, if IsPending(s, k) then Conflict else AtRecheck)
    case AtRecheck =>
      // a second get that finds nothing falls through to the handler
      Move(s, r, if Get(s, k).Replayed? then Get(s, k) else AtFindByHash)
    case AtFindByHash =>
      State(s.table, s.requests[r := Request(k, body, Executing, FindByHash(s, k, body))], s.executions + [r])
    case _ => s
  }

  /** The environment's choice of what happens next; an event that does not apply changes nothing. */
  function Step(s: State, e: Event): State {
    match e
    case Arrive(r, slot, body) =>
      if r in s.requests then s else s.(requests := s.requests[r := Request(slot, body, AtGet, false)])
    case Advance(r) => if r in s.requests then AdvanceStep(s, r) else s
    case HandlerStores(r, response) =>
      if r in s.requests && s.requests[r].pc.Executing? then
        var k := s.requests[r].slot;
        var s' := Move(s, r, Finished(response));
        if k in s.table then s'.(table := s.table[k := s.table[k].(status := Completed(response))]) else s'
      else s
    case HandlerFails(r) =>
      if r in s.requests && s.requests[r].pc.Executing? then Move(s, r, Failed) else s
    case Expire(k) => if k in s.table then s.(table := s.table[k := s.table[k].(expired := true)]) else s
    case Cleanup => s.(table := LiveRows(s.table))
  }

  function Run(s: State, events: seq<Event>): State
    decreases |events|
  {
    if events == [] then s else Run(Step(s, events[0]), events[1..])
  }

  lemma {:induction false} RunConcat(s: State, a: seq<Event>, b: seq<Event>)
    ensures Run(s, a + b) == Run(Run(s, a), b)
    decreases |a|
  {
    if a == [] {
      assert a + b == b;
    } else {
      assert (a + b)[1..] == a[1..] + b;
      RunConcat(Step(s, a[0]), a[1..], b);
    }
  }

  // ------------------------------------------------------------- the log of handlers

  predicate HasStarted(pc: Pc) { pc.Executing? || pc.Finished? || pc.Failed? }

  /** In every run: the log holds exactly the requests whose handler started, each once. */
  ghost predicate LogSound(s: State) {
    && (forall r :: r in s.executions <==> r in s.requests && HasStarted(s.requests[r].pc))
    && (forall i, j :: 0 <= i < j < |s.executions| ==> s.executions[i] != s.executions[j])
  }

  lemma StepKeepsLog(s: State, e: Event)
    requires LogSound(s)
    ensures LogSound(Step(s, e))
  {
    if e.Advance? && e.r in s.requests && s.requests[e.r].pc.AtFindByHash? {
      StartKeepsLog(s, e.r);
    }
  }

  lemma StartKeepsLog(s: State, r: nat)
    requires LogSound(s) && r in s.requests && s.requests[r].pc.AtFindByHash?
    ensures LogSound(AdvanceStep(s, r))
  {
    var t := AdvanceStep(s, r);
    assert r !in s.executions;
    assert t.executions == s.executions + [r] && t.executions[|s.executions|] == r;
  }

  lemma {:induction false} RunKeepsLog(s: State, events: seq<Event>)
    requires LogSound(s)
    ensures LogSound(Run(s, events))
    decreases |events|
  {
    if events != [] {
      StepKeepsLog(s, events[0]);
      RunKeepsLog(Step(s, events[0]), events[1..]);
    }
  }

  // --------------------------------------------------------- one row, from insert on

  predicate NoExpiry(e: Event, k: Slot) { e != Expire(k) }

  ghost predicate NeverExpires(events: seq<Event>, k: Slot) {
    forall i :: 0 <= i < |events| ==> NoExpiry(events[i], k)
  }

  /** The request has made its reservation call, or has ended. */
  predicate PastReservation(s: State, r: nat) {
    r in s.requests && !(s.requests[r].pc.AtGet? || s.requests[r].pc.AtIsPending? || s.requests[r].pc.AtReserve?)
  }

  predicate Young(s: State, k: Slot, past: set<nat>, r: nat) {
    r in s.requests && s.requests[r].slot == k && r !in past
  }

  predicate Reserved(pc: Pc) { pc.AtFindByHash? || HasStarted(pc) }

  /** What the position of a young request says about the row of its slot. */
  predicate RowKnown(s: State, k: Slot, pc: Pc) {
    && (pc.AtRacing? || Reserved(pc) ==> k in s.table)
    && (pc.AtRecheck? ==> k in s.table && s.table[k].status.Completed?)
  }

  ghost predicate OneHolder(s: State, k: Slot, past: set<nat>) {
    forall q, r :: Young(s, k, past, q) && Young(s, k, past, r) && Reserved(s.requests[q].pc)
      && Reserved(s.requests[r].pc)
      ==> q == r
  }

  /** From the insert of a row on: the row lives, and among the requests that had not called reserve
      before it, one at most holds it. */
  ghost predicate OneLife(s: State, k: Slot, past: set<nat>) {
    && (k in s.table ==> !s.table[k].expired)
    && (forall r :: Young(s, k, past, r) ==> RowKnown(s, k, s.requests[r].pc))
    && OneHolder(s, k, past)
  }

  lemma RowOutlives(s: State, e: Event, k: Slot)
    requires NoExpiry(e, k) && (k in s.table ==> !s.table[k].expired)
    ensures k in Step(s, e).table ==> !Step(s, e).table[k].expired
    ensures k in s.table ==> k in Step(s, e).table
    ensures k in s.table && s.table[k].status.Completed? ==> Step(s, e).table[k].status.Completed?
  {
  }

  lemma YoungStep(s: State, e: Event, k: Slot, past: set<nat>, r: nat)
    requires OneLife(s, k, past) && NoExpiry(e, k) && Young(Step(s, e), k, past, r)
    ensures RowKnown(Step(s, e), k, Step(s, e).requests[r].pc)
    ensures Reserved(Step(s, e).requests[r].pc) ==>
              || (Young(s, k, past, r) && Reserved(s.requests[r].pc))
              || (e == Advance(r) && k !in s.table)
  {
    RowOutlives(s, e, k);
    if r in s.requests {
      assert Young(s, k, past, r);
      assert RowKnown(s, k, s.requests[r].pc);
    }
  }

  lemma StepKeepsLife(s: State, e: Event, k: Slot, past: set<nat>)
    requires OneLife(s, k, past) && NoExpiry(e, k)
    ensures OneLife(Step(s, e), k, past)
  {
    var t := Step(s, e);
    RowOutlives(s, e, k);
    forall r | Young(t, k, past, r) ensures RowKnown(t, k, t.requests[r].pc) {
      YoungStep(s, e, k, past, r);
    }
    forall q, r | Young(t, k, past, q) && Young(t, k, past, r) && Reserved(t.requests[q].pc)
      && Reserved(t.requests[r].pc)
      ensures q == r
    {
      YoungStep(s, e, k, past, q);
      YoungStep(s, e, k, past, r);
    }
  }

  lemma {:induction false} RunKeepsLife(s: State, events: seq<Event>, k: Slot, past: set<nat>)
    requires OneLife(s, k, past) && NeverExpires(events, k)
    ensures OneLife(Run(s, events), k, past)
    decreases |events|
  {
    if events != [] {
      assert NoExpiry(events[0], k);
      StepKeepsLife(s, events[0], k, past);
      assert forall i :: 0 <= i < |events| - 1 ==> events[1..][i] == events[i + 1];
      RunKeepsLife(Step(s, events[0]), events[1..], k, past);
    }
  }

  /** The requests that are past their reservation. */
  function Past(s: State): set<nat> { set r | r in s.requests && PastReservation(s, r) }

  /** In every run, from any moment at which the slot has no row until the row inserted then expires,
      the handler starts at most once among the requests that had not called reserve before: at most
      once per row, whatever happened to earlier rows. */
  lemma HandlerStartsOncePerRow(before: seq<Event>, during: seq<Event>, k: Slot, i: nat, j: nat)
    requires k !in Run(START, before).table && NeverExpires(during, k)
    requires var s := Run(START, before + during);
             && i < |s.executions| && j < |s.executions|
             && s.executions[i] in s.requests && s.requests[s.executions[i]].slot == k
             && s.executions[j] in s.requests && s.requests[s.executions[j]].slot == k
             && !PastReservation(Run(START, before), s.executions[i])
             && !PastReservation(Run(START, before), s.executions[j])
    ensures i == j
  {
    var s0 := Run(START, before);
    RunConcat(START, before, during);
    RunKeepsLog(START, before + during);
    assert OneLife(s0, k, Past(s0));
    RunKeepsLife(s0, during, k, Past(s0));
    var s := Run(s0, during);
    var q, r := s.executions[i], s.executions[j];
    assert q in s.executions && r in s.executions;
    assert Young(s, k, Past(s0), q) && Young(s, k, Past(s0), r);
  }

  /** In every interleaving in which the slot's row does not expire, its handler starts at most once. */
  lemma HandlerRunsAtMostOnce(events: seq<Event>, k: Slot, i: nat, j: nat)
    requires NeverExpires(events, k)
    requires var s := Run(START, events);
             && i < |s.executions| && j < |s.executions|
             && s.executions[i] in s.requests && s.requests[s.executions[i]].slot == k
             && s.executions[j] in s.requests && s.requests[s.executions[j]].slot == k
    ensures i == j
  {
    assert [] + events == events;
    HandlerStartsOncePerRow([], events, k, i, j);
  }

  // ------------------------------------------------------ what the others are told

  /** The row says what became of its holder, and a replay what the row says. */
  predicate RowTells(s: State, k: Slot, pc: Pc) {
    && (pc.AtFindByHash? || pc.Executing? || pc.Failed? ==> k in s.table && s.table[k].status.Pending?)
    && (pc.Finished? || pc.Replayed? ==> k in s.table && s.table[k].status == Completed(pc.response))
  }

  ghost predicate AllTold(s: State, k: Slot) {
    forall r :: r in s.requests && s.requests[r].slot == k ==> RowTells(s, k, s.requests[r].pc)
  }

  lemma StepKeepsTold(s: State, e: Event, k: Slot)
    requires OneLife(s, k, {}) && AllTold(s, k) && NoExpiry(e, k)
    ensures AllTold(Step(s, e), k)
  {
    var t := Step(s, e);
    forall r | r in t.requests && t.requests[r].slot == k ensures RowTells(t, k, t.requests[r].pc) {
      OneTold(s, e, k, r);
    }
  }

  lemma OneTold(s: State, e: Event, k: Slot, r: nat)
    requires OneLife(s, k, {}) && AllTold(s, k) && NoExpiry(e, k)
    requires r in Step(s, e).requests && Step(s, e).requests[r].slot == k
    ensures RowTells(Step(s, e), k, Step(s, e).requests[r].pc)
  {
    if r in s.requests {
      assert Young(s, k, {}, r);
      assert RowKnown(s, k, s.requests[r].pc) && RowTells(s, k, s.requests[r].pc);
      if e.HandlerStores? && e.r in s.requests && s.requests[e.r].slot == k {
        assert Young(s, k, {}, e.r);
        assert RowTells(s, k, s.requests[e.r].pc);
      }
    }
  }

  lemma {:induction false} RunKeepsTold(s: State, events: seq<Event>, k: Slot)
    requires OneLife(s, k, {}) && AllTold(s, k) && NeverExpires(events, k)
    ensures AllTold(Run(s, events), k)
    decreases |events|
  {
    if events != [] {
      assert NoExpiry(events[0], k);
      StepKeepsLife(s, events[0], k, {});
      StepKeepsTold(s, events[0], k);
      assert forall i :: 0 <= i < |events| - 1 ==> events[1..][i] == events[i + 1];
      RunKeepsTold(Step(s, events[0]), events[1..], k);
    }
  }

  ghost predicate Terminal(pc: Pc) {
    pc.Finished? || pc.Failed? || pc.Conflict? || pc.Replayed?
  }

  /** Every other request of the slot ends in a 409 or replays exactly the response the executing
      request stored, whatever their bodies. */
  lemma OthersConflictOrReplay(events: seq<Event>, k: Slot, r: nat, q: nat)
    requires NeverExpires(events, k)
    requires var s := Run(START, events);
             && r in s.executions && q in s.requests && q != r
             && r in s.requests && s.requests[r].slot == k == s.requests[q].slot
             && Terminal(s.requests[q].pc)
    ensures var s := Run(START, events);
            || s.requests[q].pc == Conflict
            || (s.requests[q].pc.Replayed? && s.requests[r].pc == Finished(s.requests[q].pc.response))
  {
    RunKeepsLog(START, events);
    RunKeepsLife(START, events, k, {});
    RunKeepsTold(START, events, k);
    var s := Run(START, events);
    assert HasStarted(s.requests[r].pc);
    assert Young(s, k, {}, q) && Young(s, k, {}, r);
    assert RowTells(s, k, s.requests[q].pc) && RowTells(s, k, s.requests[r].pc);
  }

  // ------------------------------------------------------- where a response comes from

  /** A handler of this slot stored this response. */
  ghost predicate StoredBy(s: State, k: Slot, x: string, r: nat) {
    r in s.executions && r in s.requests && s.requests[r].slot == k && s.requests[r].pc == Finished(x)
  }

  ghost predicate Stored(s: State, k: Slot, x: string) { exists r :: StoredBy(s, k, x, r) }

  ghost predicate Sourced(s: State) {
    && (forall k :: k in s.table && s.table[k].status.Completed? ==> Stored(s, k, s.table[k].status.response))
    && (forall q :: q in s.requests && s.requests[q].pc.Replayed? ==>
      Stored(s, s.requests[q].slot, s.requests[q].pc.response))
  }

  lemma StoredStays(s: State, e: Event, k: Slot, x: string)
    requires Stored(s, k, x)
    ensures Stored(Step(s, e), k, x)
  {
    var r :| StoredBy(s, k, x, r);
    assert StoredBy(Step(s, e), k, x, r);
  }

  lemma StepKeepsSourced(s: State, e: Event)
    requires LogSound(s) && Sourced(s)
    ensures Sourced(Step(s, e))
  {
    var t := Step(s, e);
    if e.HandlerStores? && e.r in s.requests && s.requests[e.r].pc.Executing? {
      assert StoredBy(t, s.requests[e.r].slot, e.response, e.r);
    }
    forall k | k in t.table && t.table[k].status.Completed? ensures Stored(t, k, t.table[k].status.response) {
      if k in s.table && s.table[k].status == t.table[k].status {
        StoredStays(s, e, k, t.table[k].status.response);
      }
    }
    forall q | q in t.requests && t.requests[q].pc.Replayed?
      ensures Stored(t, t.requests[q].slot, t.requests[q].pc.response)
    {
      StoredStays(s, e, t.requests[q].slot, t.requests[q].pc.response);
    }
  }

  lemma {:induction false} RunKeepsSourced(s: State, events: seq<Event>)
    requires LogSound(s) && Sourced(s)
    ensures Sourced(Run(s, events))
    decreases |events|
  {
    if events != [] {
      StepKeepsLog(s, events[0]);
      StepKeepsSourced(s, events[0]);
      RunKeepsSourced(Step(s, events[0]), events[1..]);
    }
  }

  /** In every run, with expiry and cleanup: a replayed response was stored by a handler of the same
      slot, so no tenant and no key ever sees another's. */
  lemma ReplayHasSource(events: seq<Event>, q: nat)
    requires var s := Run(START, events); q in s.requests && s.requests[q].pc.Replayed?
    ensures var s := Run(START, events);
            exists r :: r in s.executions && r in s.requests && s.requests[r].slot == s.requests[q].slot
                        && s.requests[r].pc == Finished(s.requests[q].pc.response)
  {
    RunKeepsSourced(START, events);
    var s := Run(START, events);
    var r :| StoredBy(s, s.requests[q].slot, s.requests[q].pc.response, r);
    assert r in s.executions;
  }

  // ------------------------------------------------------- exactly when a request gets in

  function Advances(r: nat, n: nat): seq<Event> {
    if n == 0 then [] else [Advance(r)] + Advances(r, n - 1)
  }

  /** A request that meets no other: its arrival and its calls. */
  function Alone(r: nat, k: Slot, body: string): seq<Event> { [Arrive(r, k, body)] + Advances(r, 6) }

  function At(s: State, r: nat, k: Slot, body: string, pc: Pc): State {
    s.(requests := s.requests[r := Request(k, body, pc, false)])
  }

  lemma RunAdvances(s: State, r: nat, n: nat)
    requires n > 0
    ensures Run(s, Advances(r, n)) == Run(Step(s, Advance(r)), Advances(r, n - 1))
  {
    assert Advances(r, n)[1..] == Advances(r, n - 1);
  }

  lemma {:induction false} StaysPut(s: State, r: nat, n: nat)
    requires r in s.requests && (s.requests[r].pc.Executing? || Terminal(s.requests[r].pc))
    ensures Run(s, Advances(r, n)) == s
  {
    if n > 0 {
      RunAdvances(s, r, n);
      StaysPut(s, r, n - 1);
    }
  }

  /** One call that only moves the request. */
  lemma OneCall(s: State, r: nat, k: Slot, body: string, pc: Pc, next: Pc, n: nat)
    requires n > 0 && AdvanceStep(At(s, r, k, body, pc), r) == Move(At(s, r, k, body, pc), r, next)
    ensures Run(At(s, r, k, body, pc), Advances(r, n)) == Run(At(s, r, k, body, next), Advances(r, n - 1))
  {
    RunAdvances(At(s, r, k, body, pc), r, n);
    assert Move(At(s, r, k, body, pc), r, next).requests == At(s, r, k, body, next).requests;
  }

  /** What a request that meets no other comes to. */
  function Outcome(s: State, k: Slot): Pc {
    if k !in s.table || s.table[k].expired then Executing
    else if s.table[k].status.Pending? then Conflict
    else Replayed(s.table[k].status.response)
  }

  lemma LastCall(s: State, r: nat, k: Slot, body: string, n: nat)
    requires n > 0
    ensures Run(At(s, r, k, body, AtFindByHash), Advances(r, n))
            == State(s.table, s.requests[r := Request(k, body, Executing, FindByHash(s, k, body))], s.executions + [r])
  {
    var t := Step(At(s, r, k, body, AtFindByHash), Advance(r));
    assert t.requests == s.requests[r := t.requests[r]];
    assert FindByHash(At(s, r, k, body, AtFindByHash), k, body) <==> FindByHash(s, k, body) by {
      var at := At(s, r, k, body, AtFindByHash);
      assert forall other :: IsSimilar(at, k, body, other) <==> IsSimilar(s, k, body, other);
    }
    RunAdvances(At(s, r, k, body, AtFindByHash), r, n);
    StaysPut(t, r, n - 1);
  }

  lemma AloneStart(s: State, r: nat, k: Slot, body: string)
    requires r !in s.requests
    ensures Run(s, Alone(r, k, body)) == Run(At(s, r, k, body, AtGet), Advances(r, 6))
  {
    assert Alone(r, k, body)[1..] == Advances(r, 6);
  }

  lemma AloneOverCompleted(s: State, r: nat, k: Slot, body: string)
    requires r !in s.requests && Outcome(s, k).Replayed?
    ensures Run(s, Alone(r, k, body)) == At(s, r, k, body, Outcome(s, k))
  {
    AloneStart(s, r, k, body);
    OneCall(s, r, k, body, AtGet, Outcome(s, k), 6);
    StaysPut(At(s, r, k, body, Outcome(s, k)), r, 5);
  }

  lemma AloneOverPending(s: State, r: nat, k: Slot, body: string)
    requires r !in s.requests && Outcome(s, k).Conflict?
    ensures Run(s, Alone(r, k, body)) == At(s, r, k, body, Conflict)
  {
    AloneStart(s, r, k, body);
    OneCall(s, r, k, body, AtGet, AtIsPending, 6);
    OneCall(s, r, k, body, AtIsPending, Conflict, 5);
    StaysPut(At(s, r, k, body, Conflict), r, 4);
  }

  /** Over an expired row both lookups pass, the reservation fails, and the request gets in. */
  lemma AloneOverExpired(s: State, r: nat, k: Slot, body: string)
    requires r !in s.requests && k in s.table && s.table[k].expired
    ensures Run(s, Alone(r, k, body))
            == State(s.table, s.requests[r := Request(k, body, Executing, FindByHash(s, k, body))], s.executions + [r])
  {
    AloneStart(s, r, k, body);
    OneCall(s, r, k, body, AtGet, AtIsPending, 6);
    OneCall(s, r, k, body, AtIsPending, AtReserve, 5);
    OneCall(s, r, k, body, AtReserve, AtRacing, 4);
    OneCall(s, r, k, body, AtRacing, AtRecheck, 3);
    OneCall(s, r, k, body, AtRecheck, AtFindByHash, 2);
    LastCall(s, r, k, body, 1);
  }

  lemma AloneOverNothing(s: State, r: nat, k: Slot, body: string)
    requires r !in s.requests && k !in s.table
    ensures var t := s.(table := s.table[k := Row(Pending, false, body)]);
            Run(s, Alone(r, k, body))
            == State(t.table, s.requests[r := Request(k, body, Executing, FindByHash(t, k, body))], s.executions + [r])
  {
    AloneStart(s, r, k, body);
    OneCall(s, r, k, body, AtGet, AtIsPending, 6);
    OneCall(s, r, k, body, AtIsPending, AtReserve, 5);
    var at := At(s, r, k, body, AtReserve);
    var t := s.(table := s.table[k := Row(Pending, false, body)]);
    RunAdvances(at, r, 4);
    assert Step(at, Advance(r)).requests == At(t, r, k, body, AtFindByHash).requests;
    LastCall(t, r, k, body, 3);
  }

  /** In every state, a new request that meets no other runs the handler exactly when its slot has no
      row or an expired one; otherwise it is a 409 while the row is pending and the stored response
      once it is completed. Its body plays no part. */
  lemma GetsInIff(s: State, r: nat, k: Slot, body: string)
    requires r !in s.requests
    ensures var t := Run(s, Alone(r, k, body));
            && r in t.requests && t.requests[r].pc == Outcome(s, k)
            && (t.requests[r].pc == Executing <==> k !in s.table || s.table[k].expired)
            && t.executions == (if Outcome(s, k).Executing? then s.executions + [r] else s.executions)
            && forall q :: q in s.requests && q != r ==> q in t.requests && t.requests[q] == s.requests[q]
  {
    if k !in s.table {
      AloneOverNothing(s, r, k, body);
    } else if s.table[k].expired {
      AloneOverExpired(s, r, k, body);
    } else if s.table[k].status.Pending? {
      AloneOverPending(s, r, k, body);
    } else {
      AloneOverCompleted(s, r, k, body);
    }
  }

  /** A request that has not been told yet, and its place among the calls. */
  predicate Waiting(pc: Pc) { pc.AtGet? || pc.AtIsPending? || pc.AtReserve? || pc.AtRacing? }

  function CallsLeft(pc: Pc): nat
    requires Waiting(pc)
  {
    match pc
    case AtGet => 7
    case AtIsPending => 6
    case AtReserve => 5
    case AtRacing => 4
  }

  lemma ReservesAndRuns(s: State, r: nat, k: Slot, body: string, n: nat)
    requires k !in s.table && n >= 2
    ensures var t := Run(At(s, r, k, body, AtReserve), Advances(r, n));
            r in t.requests && t.requests[r].slot == k && t.requests[r].pc == Executing
  {
    var at := At(s, r, k, body, AtReserve);
    var t := s.(table := s.table[k := Row(Pending, false, body)]);
    RunAdvances(at, r, n);
    assert Step(at, Advance(r)).requests == At(t, r, k, body, AtFindByHash).requests;
    LastCall(t, r, k, body, n - 1);
  }

  lemma RacedOut(s: State, r: nat, k: Slot, body: string, n: nat)
    requires n >= 4
    ensures var t := Run(At(s, r, k, body, AtRacing), Advances(r, n));
            r in t.requests && t.requests[r].slot == k && t.requests[r].pc == Outcome(s, k)
  {
    if IsPending(s, k) {
      OneCall(s, r, k, body, AtRacing, Conflict, n);
      StaysPut(At(s, r, k, body, Conflict), r, n - 1);
    } else {
      OneCall(s, r, k, body, AtRacing, AtRecheck, n);
      if Get(s, k).Replayed? {
        OneCall(s, r, k, body, AtRecheck, Get(s, k), n - 1);
        StaysPut(At(s, r, k, body, Get(s, k)), r, n - 2);
      } else {
        OneCall(s, r, k, body, AtRecheck, AtFindByHash, n - 1);
        LastCall(s, r, k, body, n - 2);
      }
    }
  }

  /** In every state and at every call up to the reservation and the test after it: a request that meets
      no other from there on ends as its slot's row then says. It runs the handler over no row or an
      expired one, is a 409 over a pending row, and replays a completed one. */
  lemma ResumedEndsAsRowSays(s: State, r: nat, k: Slot, body: string, pc: Pc, n: nat)
    requires Waiting(pc) && n >= CallsLeft(pc)
    ensures var t := Run(At(s, r, k, body, pc), Advances(r, n));
            r in t.requests && t.requests[r].slot == k && t.requests[r].pc == Outcome(s, k)
    decreases n
  {
    match pc
    case AtGet =>
      OneCall(s, r, k, body, AtGet, Get(s, k), n);
      if Get(s, k).Replayed? {
        StaysPut(At(s, r, k, body, Get(s, k)), r, n - 1);
      } else {
        ResumedEndsAsRowSays(s, r, k, body, AtIsPending, n - 1);
      }
    case AtIsPending =>
      if IsPending(s, k) {
        OneCall(s, r, k, body, AtIsPending, Conflict, n);
        StaysPut(At(s, r, k, body, Conflict), r, n - 1);
      } else {
        OneCall(s, r, k, body, AtIsPending, AtReserve, n);
        ResumedEndsAsRowSays(s, r, k, body, AtReserve, n - 1);
      }
    case AtReserve =>
      if k in s.table {
        OneCall(s, r, k, body, AtReserve, AtRacing, n);
        RacedOut(s, r, k, body, n - 1);
      } else {
        ReservesAndRuns(s, r, k, body, n);
      }
    case AtRacing =>
      RacedOut(s, r, k, body, n);
  }

  /** The row of the slot lives, and the request is not and never will be let in. */
  predicate KeptOut(s: State, k: Slot, r: nat) {
    && k in s.table && !s.table[k].expired
    && (r in s.requests && s.requests[r].slot == k ==>
          && !Reserved(s.requests[r].pc)
          && (s.requests[r].pc.AtRecheck? ==> s.table[k].status.Completed?))
  }

  lemma StepKeepsOut(s: State, e: Event, k: Slot, r: nat)
    requires KeptOut(s, k, r) && NoExpiry(e, k)
    ensures KeptOut(Step(s, e), k, r)
  {
    RowOutlives(s, e, k);
  }

  /** In every interleaving, however many other requests come and go: over a live row, until it expires,
      a request that had not called reserve never runs the handler, and if it ends, it ends in a 409 or
      a stored response. */
  lemma {:induction false} LiveRowKeepsOut(s: State, events: seq<Event>, k: Slot, r: nat)
    requires KeptOut(s, k, r) && NeverExpires(events, k)
    ensures KeptOut(Run(s, events), k, r)
    ensures var t := Run(s, events);
            r in t.requests && t.requests[r].slot == k ==>
              && !HasStarted(t.requests[r].pc)
              && (Terminal(t.requests[r].pc) ==> t.requests[r].pc.Conflict? || t.requests[r].pc.Replayed?)
    decreases |events|
  {
    if events != [] {
      assert NoExpiry(events[0], k);
      StepKeepsOut(s, events[0], k, r);
      assert forall i :: 0 <= i < |events| - 1 ==> events[1..][i] == events[i + 1];
      LiveRowKeepsOut(Step(s, events[0]), events[1..], k, r);
    }
  }

  /** The run lets this request of the slot into the handler before the slot's row expires. */
  ghost predicate LetsIn(s: State, events: seq<Event>, k: Slot, r: nat) {
    && NeverExpires(events, k)
    && var t := Run(s, events);
       r in t.requests && t.requests[r].slot == k && HasStarted(t.requests[r].pc)
  }

  lemma {:induction false} AdvancesAre(r: nat, n: nat)
    ensures |Advances(r, n)| == n && forall i :: 0 <= i < n ==> Advances(r, n)[i] == Advance(r)
  {
    if n > 0 {
      AdvancesAre(r, n - 1);
    }
  }

  /** In every state: some interleaving without an expiry of its row lets a new request of the slot
      into the handler exactly when the slot has no live row. */
  lemma CanGetInIff(s: State, k: Slot, r: nat)
    requires r !in s.requests
    ensures (exists events :: LetsIn(s, events, k, r)) <==> !(k in s.table && !s.table[k].expired)
  {
    if k in s.table && !s.table[k].expired {
      forall events | NeverExpires(events, k) ensures !LetsIn(s, events, k, r) {
        LiveRowKeepsOut(s, events, k, r);
      }
    } else {
      GetsInIff(s, r, k, "");
      AloneKeepsSlot(s, r, k, "");
      AdvancesAre(r, 6);
      assert LetsIn(s, Alone(r, k, ""), k, r);
    }
  }

  lemma AloneKeepsSlot(s: State, r: nat, k: Slot, body: string)
    requires r !in s.requests && Outcome(s, k).Executing?
    ensures var t := Run(s, Alone(r, k, body)); r in t.requests && t.requests[r].slot == k
  {
    if k in s.table {
      AloneOverExpired(s, r, k, body);
    } else {
      AloneOverNothing(s, r, k, body);
    }
  }

  /** Why the per-row bound leaves out late requests: one that lost its reservation to a row that has
      since expired or gone runs the handler without a reservation of its own. */
  lemma LateRequestGetsIn(s: State, r: nat)
    requires r in s.requests && (s.requests[r].pc.AtRacing? || s.requests[r].pc.AtRecheck?)
    requires s.requests[r].slot !in s.table || s.table[s.requests[r].slot].expired
    ensures var t := Run(s, Advances(r, 3));
            t.executions == s.executions + [r] && t.table == s.table && r in t.requests && t.requests[r].pc == Executing
  {
    RunAdvances(s, r, 3);
    var s1 := Step(s, Advance(r));
    RunAdvances(s1, r, 2);
    var s2 := Step(s1, Advance(r));
    if s.requests[r].pc.AtRacing? {
      RunAdvances(s2, r, 1);
    } else {
      StaysPut(s2, r, 1);
    }
  }

  /** An expired row that has not been cleaned up. */
  ghost predicate Lingers(s: State, k: Slot) {
    k in s.table && s.table[k].expired
  }

  /** After any run that leaves an expired row, two new requests with its key run the handler at the
      same time. */
  lemma TwoHandlersAtOnce(events: seq<Event>, k: Slot, q: nat, r: nat, a: string, b: string)
    requires var s := Run(START, events); Lingers(s, k) && q !in s.requests && r !in s.requests && q != r
    ensures var s, t := Run(START, events), Run(START, events + (Alone(q, k, a) + Alone(r, k, b)));
            && t.executions == s.executions + [q, r] && q in t.requests && r in t.requests
            && t.requests[q].slot == t.requests[r].slot == k
            && t.requests[q].pc == t.requests[r].pc == Executing
  {
    var s := Run(START, events);
    RunConcat(START, events, Alone(q, k, a) + Alone(r, k, b));
    RunConcat(s, Alone(q, k, a), Alone(r, k, b));
    AloneOverExpired(s, q, k, a);
    AloneOverExpired(Run(s, Alone(q, k, a)), r, k, b);
    assert s.executions + [q] + [r] == s.executions + [q, r];
  }

  /** Such runs exist after every run in which the slot has no row: a handler completes, and its row
      outlives its time to live. */
  lemma ExpiryLetsTheHandlerRunAgain(events: seq<Event>, k: Slot, p: nat, body: string, x: string)
    requires var s := Run(START, events); k !in s.table && p !in s.requests
    ensures var s, t := Run(START, events), Run(START, events + (Alone(p, k, body) + [HandlerStores(p, x), Expire(k)]));
            Lingers(t, k) && t.executions == s.executions + [p] && t.requests.Keys == s.requests.Keys + {p}
  {
    var s := Run(START, events);
    var rest := [HandlerStores(p, x), Expire(k)];
    RunConcat(START, events, Alone(p, k, body) + rest);
    RunConcat(s, Alone(p, k, body), rest);
    AloneOverNothing(s, p, k, body);
    var t := Run(s, Alone(p, k, body));
    RunTwo(t, HandlerStores(p, x), Expire(k));
  }

  lemma RunTwo(s: State, e: Event, f: Event)
    ensures Run(s, [e, f]) == Step(Step(s, e), f)
  {
    assert [e, f][1..] == [f] && [f][1..] == [];
    assert Run(Step(s, e), [f]) == Run(Step(Step(s, e), f), []);
  }

  // -------------------------------------------------------------- what bodies decide

  /** The two requests differ in body, and the second gets the answer given to the first. */
  lemma KeyReuseIsNotDetected(k: Slot, a: string, b: string, x: string)
    requires a != b
    ensures var t := Run(START, Alone(0, k, a) + Alone(1, k, b)); 1 in t.requests && t.requests[1].pc == Conflict
    ensures var t := Run(START, Alone(0, k, a) + ([HandlerStores(0, x)] + Alone(1, k, b)));
            1 in t.requests && t.requests[1].pc == Replayed(x)
  {
    AloneOverNothing(START, 0, k, a);
    var s := Run(START, Alone(0, k, a));
    RunConcat(START, Alone(0, k, a), Alone(1, k, b));
    AloneOverPending(s, 1, k, b);
    RunConcat(START, Alone(0, k, a), [HandlerStores(0, x)] + Alone(1, k, b));
    assert ([HandlerStores(0, x)] + Alone(1, k, b))[1..] == Alone(1, k, b);
    AloneOverCompleted(Step(s, HandlerStores(0, x)), 1, k, b);
  }

  predicate SameButBody(e: Event, f: Event) {
    if e.Arrive? then f.Arrive? && f.r == e.r && f.slot == e.slot else f == e
  }

  ghost predicate SameButBodies(a: seq<Event>, b: seq<Event>) {
    |a| == |b| && forall i :: 0 <= i < |a| ==> SameButBody(a[i], b[i])
  }

  /** Equal states but for bodies and warnings. */
  ghost predicate Alike(s: State, t: State) {
    && s.table.Keys == t.table.Keys && s.requests.Keys == t.requests.Keys && s.executions == t.executions
    && (forall k :: k in s.table ==> s.table[k].status == t.table[k].status && s.table[k].expired == t.table[k].expired)
    && (forall r :: r in s.requests ==>
      s.requests[r].slot == t.requests[r].slot && s.requests[r].pc == t.requests[r].pc)
  }

  lemma StepKeepsAlike(s: State, t: State, e: Event, f: Event)
    requires Alike(s, t) && SameButBody(e, f)
    ensures Alike(Step(s, e), Step(t, f))
  {
    match e
    case Advance(r) => if r in s.requests { AdvanceKeepsAlike(s, t, r); }
    case Cleanup => CleanupKeepsAlike(s, t);
    case _ =>
  }

  predicate AlikeRow(s: State, t: State, k: Slot) {
    && (k in s.table <==> k in t.table)
    && (k in s.table ==> s.table[k].status == t.table[k].status && s.table[k].expired == t.table[k].expired)
  }

  function NextPc(s: State, k: Slot, pc: Pc): Pc {
    match pc
    case AtGet => Get(s, k)
    case AtIsPending => if IsPending(s, k) then Conflict else AtReserve
    case AtReserve => if k in s.table then AtRacing else AtFindByHash
    case AtRacing => if IsPending(s, k) then Conflict else AtRecheck
    case AtRecheck => if Get(s, k).Replayed? then Get(s, k) else AtFindByHash
    case AtFindByHash => Executing
    case _ => pc
  }

  /** A call moves its own request, and inserts at most a pending row for its own slot. */
  lemma AdvanceShape(s: State, r: nat)
    requires r in s.requests
    ensures var q, t := s.requests[r], AdvanceStep(s, r);
            && t.requests == s.requests[r := t.requests[r]]
            && t.requests[r].slot == q.slot && t.requests[r].pc == NextPc(s, q.slot, q.pc)
            && t.executions == (if q.pc.AtFindByHash? then s.executions + [r] else s.executions)
            && t.table == (if q.pc.AtReserve? && q.slot !in s.table
              then s.table[q.slot := Row(Pending, false, q.body)] else s.table)
  {
  }

  lemma AdvanceKeepsAlike(s: State, t: State, r: nat)
    requires Alike(s, t) && r in s.requests
    ensures Alike(AdvanceStep(s, r), AdvanceStep(t, r))
  {
    var k, pc := s.requests[r].slot, s.requests[r].pc;
    assert AlikeRow(s, t, k);
    assert Get(s, k) == Get(t, k) && (IsPending(s, k) <==> IsPending(t, k));
    assert NextPc(s, k, pc) == NextPc(t, k, pc);
    AdvanceShape(s, r);
    AdvanceShape(t, r);
    AlikeAfter(s, t, AdvanceStep(s, r), AdvanceStep(t, r), r, k, pc.AtReserve?);
  }

  lemma AlikeAfter(s: State, t: State, s': State, t': State, r: nat, k: Slot, inserts: bool)
    requires Alike(s, t) && r in s.requests && s.requests[r].slot == k
    requires r in s'.requests && s'.requests == s.requests[r := s'.requests[r]]
    requires r in t'.requests && t'.requests == t.requests[r := t'.requests[r]]
    requires s'.requests[r].slot == t'.requests[r].slot == k && s'.requests[r].pc == t'.requests[r].pc
    requires s'.executions == t'.executions
    requires s'.table == if inserts && k !in s.table
             then s.table[k := Row(Pending, false, s.requests[r].body)] else s.table
    requires t'.table == if inserts && k !in t.table
             then t.table[k := Row(Pending, false, t.requests[r].body)] else t.table
    ensures Alike(s', t')
  {
  }

  lemma CleanupKeepsAlike(s: State, t: State)
    requires Alike(s, t)
    ensures Alike(Step(s, Cleanup), Step(t, Cleanup))
  {
    forall k ensures AlikeRow(s, t, k) { }
    assert LiveRows(s.table).Keys == LiveRows(t.table).Keys;
  }

  /** Over every run, bodies decide nothing: changing every body changes no status, no response, no
      handler start; only warnings can differ. */
  lemma {:induction false} BodiesDecideNothing(s: State, t: State, a: seq<Event>, b: seq<Event>)
    requires Alike(s, t) && SameButBodies(a, b)
    ensures Alike(Run(s, a), Run(t, b))
    decreases |a|
  {
    if a != [] {
      assert SameButBody(a[0], b[0]);
      StepKeepsAlike(s, t, a[0], b[0]);
      assert forall i :: 0 <= i < |a| - 1 ==> a[1..][i] == a[i + 1] && b[1..][i] == b[i + 1];
      BodiesDecideNothing(Step(s, a[0]), Step(t, b[0]), a[1..], b[1..]);
    }
  }

  /** A request is warned exactly when, as its handler starts, another key of the same API key holds a
      live completed row with its body. */
  lemma WarnedIff(s: State, r: nat)
    requires r in s.requests && s.requests[r].pc.AtFindByHash?
    ensures var q := s.requests[r];
            Step(s, Advance(r)).requests[r].warned
            <==> exists other: Slot :: other in s.table && other.apiKeyId == q.slot.apiKeyId && other.key != q.slot.key
                   && !s.table[other].expired && s.table[other].status.Completed? && s.table[other].body == q.body
  {
    var q := s.requests[r];
    if other: Slot :| other in s.table && other.apiKeyId == q.slot.apiKeyId && other.key != q.slot.key
                      && !s.table[other].expired && s.table[other].status.Completed? && s.table[other].body == q.body {
      assert IsSimilar(s, q.slot, q.body, other);
    }
  }

  /** A request of this slot with this body. */
  predicate Sent(s: State, q: nat, k: Slot, body: string) {
    q in s.requests && s.requests[q].slot == k && s.requests[q].body == body
  }

  /** Another key of the same API key was used with this body, and a handler stored its response. */
  ghost predicate AnsweredElsewhere(s: State, k: Slot, body: string) {
    exists other: Slot, q: nat, x: string ::
      other.apiKeyId == k.apiKeyId && other.key != k.key && Sent(s, q, other, body) && Stored(s, other, x)
  }

  ghost predicate WarningsSound(s: State) {
    && (forall k :: k in s.table ==> exists q: nat :: Sent(s, q, k, s.table[k].body))
    && (forall r :: r in s.requests && s.requests[r].warned ==>
          AnsweredElsewhere(s, s.requests[r].slot, s.requests[r].body))
  }

  lemma SentStays(s: State, e: Event, q: nat, k: Slot, body: string)
    requires Sent(s, q, k, body)
    ensures Sent(Step(s, e), q, k, body)
  {
  }

  lemma AnsweredStays(s: State, e: Event, k: Slot, body: string)
    requires AnsweredElsewhere(s, k, body)
    ensures AnsweredElsewhere(Step(s, e), k, body)
  {
    var other: Slot, q: nat, x: string :|
      other.apiKeyId == k.apiKeyId && other.key != k.key && Sent(s, q, other, body) && Stored(s, other, x);
    SentStays(s, e, q, other, body);
    StoredStays(s, e, other, x);
  }

  lemma StepKeepsOwners(s: State, e: Event, k: Slot)
    requires WarningsSound(s) && k in Step(s, e).table
    ensures exists q: nat :: Sent(Step(s, e), q, k, Step(s, e).table[k].body)
  {
    if k in s.table {
      var q: nat :| Sent(s, q, k, s.table[k].body);
      SentStays(s, e, q, k, s.table[k].body);
    } else {
      assert Sent(Step(s, e), e.r, k, Step(s, e).table[k].body);
    }
  }

  /** The warning is given as the handler starts, and what findByHash saw was a stored response. */
  lemma WarnedNow(s: State, r: nat)
    requires WarningsSound(s) && Sourced(s) && r in s.requests && s.requests[r].pc.AtFindByHash?
    requires Step(s, Advance(r)).requests[r].warned
    ensures AnsweredElsewhere(s, s.requests[r].slot, s.requests[r].body)
  {
    var k, body := s.requests[r].slot, s.requests[r].body;
    WarnedIff(s, r);
    var other: Slot :| other in s.table && other.apiKeyId == k.apiKeyId && other.key != k.key
                       && !s.table[other].expired && s.table[other].status.Completed? && s.table[other].body == body;
    var q: nat :| Sent(s, q, other, s.table[other].body);
    assert Stored(s, other, s.table[other].status.response);
  }

  lemma WarnedBefore(s: State, e: Event, r: nat)
    requires r in Step(s, e).requests && Step(s, e).requests[r].warned
    ensures r in s.requests
    ensures Step(s, e).requests[r].slot == s.requests[r].slot && Step(s, e).requests[r].body == s.requests[r].body
    ensures s.requests[r].warned || (e == Advance(r) && s.requests[r].pc.AtFindByHash?)
  {
  }

  lemma StepKeepsWarned(s: State, e: Event, r: nat)
    requires WarningsSound(s) && Sourced(s) && r in Step(s, e).requests && Step(s, e).requests[r].warned
    ensures AnsweredElsewhere(Step(s, e), Step(s, e).requests[r].slot, Step(s, e).requests[r].body)
  {
    WarnedBefore(s, e, r);
    if !s.requests[r].warned {
      WarnedNow(s, r);
    }
    AnsweredStays(s, e, s.requests[r].slot, s.requests[r].body);
  }

  lemma StepKeepsWarnings(s: State, e: Event)
    requires WarningsSound(s) && Sourced(s)
    ensures WarningsSound(Step(s, e))
  {
    var t := Step(s, e);
    forall k | k in t.table ensures exists q: nat :: Sent(t, q, k, t.table[k].body) {
      StepKeepsOwners(s, e, k);
    }
    forall r | r in t.requests && t.requests[r].warned
      ensures AnsweredElsewhere(t, t.requests[r].slot, t.requests[r].body)
    {
      StepKeepsWarned(s, e, r);
    }
  }

  lemma {:induction false} RunKeepsWarnings(s: State, events: seq<Event>)
    requires LogSound(s) && Sourced(s) && WarningsSound(s)
    ensures WarningsSound(Run(s, events))
    decreases |events|
  {
    if events != [] {
      StepKeepsLog(s, events[0]);
      StepKeepsSourced(s, events[0]);
      StepKeepsWarnings(s, events[0]);
      RunKeepsWarnings(Step(s, events[0]), events[1..]);
    }
  }

  /** In every run, with expiry and cleanup: a warning is never idle. Another request of the same API
      key had sent the body under another key, and a handler under that key stored a response. */
  lemma WarningHasSource(events: seq<Event>, r: nat)
    requires var s := Run(START, events); r in s.requests && s.requests[r].warned
    ensures var s := Run(START, events);
            exists q: nat, p: nat ::
              && q in s.requests && p in s.requests && s.requests[q].slot == s.requests[p].slot
              && s.requests[q].slot.apiKeyId == s.requests[r].slot.apiKeyId
              && s.requests[q].slot.key != s.requests[r].slot.key
              && s.requests[q].body == s.requests[r].body && s.requests[p].pc.Finished?
  {
    RunKeepsWarnings(START, events);
    var s := Run(START, events);
    var other: Slot, q: nat, x: string :|
      && other.apiKeyId == s.requests[r].slot.apiKeyId && other.key != s.requests[r].slot.key
      && Sent(s, q, other, s.requests[r].body) && Stored(s, other, x);
    var p :| StoredBy(s, other, x, p);
    assert s.requests[p].pc.Finished? && s.requests[q].slot == s.requests[p].slot;
  }

  // ------------------------------------------------------------------------- cleanup

  /** Cleaning up changes no answer of the two lookups, no request's outcome, and no request; what it
      changes is that an expired slot can be reserved again, and so lives once more. */
  lemma CleanupIsInvisible(s: State, k: Slot)
    ensures var t := Step(s, Cleanup);
            && Get(t, k) == Get(s, k) && (IsPending(t, k) <==> IsPending(s, k)) && Outcome(t, k) == Outcome(s, k)
            && t.requests == s.requests && t.executions == s.executions
            && (k in t.table <==> k in s.table && !s.table[k].expired)
  {
  }

  // ------------------------------------------------------------- the shared table in place

  /** The key table and the requests stepping over it. The methods of the service are single
      statements on the table; Advance runs requireIdempotency up to its next await. */
  class Middleware {
    var table: map<Slot, Row>
    var requests: map<nat, Request>
    var executions: seq<nat>

    ghost function Value(): State
      reads this
    {
      State(table, requests, executions)
    }

    constructor ()
      ensures Value() == START
    {
      table, requests, executions := map[], map[], [];
    }

    /** INSERT OR IGNORE: true for the one request that wins the slot. */
    method Reserve(k: Slot, body: string) returns (won: bool)
      modifies this`table
      ensures won <==> k !in old(table)
      ensures table == if won then old(table)[k := Row(Pending, false, body)] else old(table)
    {
      won := k !in table;
      if won {
        table := table[k := Row(Pending, false, body)];
      }
    }

    method Advance(r: nat)
      requires r in requests
      modifies this
      ensures Value() == Step(old(Value()), Event.Advance(r))
    {
      var k, body := requests[r].slot, requests[r].body;
      var pc, warned := requests[r].pc, requests[r].warned;
      match requests[r].pc {
        case AtGet =>
          var found := k in table && !table[k].expired && table[k].status.Completed?;
          pc := if found then Replayed(table[k].status.response) else AtIsPending;
        case AtIsPending =>
          var pending := k in table && !table[k].expired && table[k].status.Pending?;
          pc := if pending then Conflict else AtReserve;
        case AtReserve =>
          var won := Reserve(k, body);
          pc := if won then AtFindByHash else AtRacing;
        case AtRacing =>
          var pending := k in table && !table[k].expired && table[k].status.Pending?;
          pc := if pending then Conflict else AtRecheck;
        case AtRecheck =>
          var found := k in table && !table[k].expired && table[k].status.Completed?;
          pc := if found then Replayed(table[k].status.response) else AtFindByHash;
        case AtFindByHash =>
          warned := FindByHash(State(table, requests, executions), k, body);
          executions := executions + [r];
          pc := Executing;
        case _ =>
      }
      requests := requests[r := Request(k, body, pc, warned)];
    }

    /** storeIdempotencyResponse, at the end of the handler. */
    method StoreIdempotencyResponse(r: nat, response: string)
      requires r in requests && requests[r].pc.Executing?
      modifies this
      ensures Value() == Step(old(Value()), HandlerStores(r, response))
    {
      var k := requests[r].slot;
      if k in table {
        table := table[k := table[k].(status := Completed(response))];
      }
      requests := requests[r := requests[r].(pc := Finished(response))];
    }

    /** The DELETE, row by row. */
    method DeleteExpired() returns (deleted: nat)
      modifies this`table
      ensures table == LiveRows(old(table)) && deleted == |old(table).Keys| - |table.Keys|
    {
      var left := table.Keys;
      deleted := 0;
      while left != {}
        invariant left <= table.Keys <= old(table).Keys
        invariant forall k :: k in table ==> table[k] == old(table)[k]
        invariant forall k :: k in old(table) ==> (k in table <==> k in left || !old(table)[k].expired)
        invariant deleted == |old(table).Keys| - |table.Keys|
        decreases left
      {
        var k :| k in left;
        if table[k].expired {
          assert (table - {k}).Keys == table.Keys - {k};
          table := table - {k};
          deleted := deleted + 1;
        }
        left := left - {k};
      }
    }

    /** The protocol's cleanup step, which changes no lookup's answer and no request's outcome. */
    method CleanupExpiredKeys() returns (deleted: nat)
      modifies this`table
      ensures Value() == Step(old(Value()), Cleanup)
      ensures forall k :: Get(Value(), k) == Get(old(Value()), k) && Outcome(Value(), k) == Outcome(old(Value()), k)
      ensures deleted == |old(table).Keys| - |table.Keys|
    {
      deleted := DeleteExpired();
      forall k ensures Get(Value(), k) == Get(old(Value()), k) && Outcome(Value(), k) == Outcome(old(Value()), k) {
        CleanupIsInvisible(old(Value()), k);
      }
    }
  }
}
