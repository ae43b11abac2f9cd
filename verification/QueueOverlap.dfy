/**
 * Batches of the donation queue running at the same time. Each reads its rows, then takes its
 * donations one by one through up to four awaited statements, any of which can fail; other batches
 * move between any two of them, and a batch can stop anywhere.
 */
module QueueOverlap {
  import opened DonationQueue

  /** A donation a batch has still to finish, with the attempt count the batch read. */
  datatype Held = Held(id: nat, read: nat)

  /** What the batch does next with its first donation. */
  datatype Stage =
    | Unsent               // submit it to the network
    | Taken(hash: string)  // the network took it: record that
    | Caught               // the submission or its record failed: count the attempt
    | Counted              // the attempt was the last one: mark the donation failed

  datatype Worker = Worker(left: seq<Held>, stage: Stage)

  /** `accepted` logs the submissions the network took, in order. */
  datatype State = State(rows: Rows, workers: map<nat, Worker>, accepted: seq<nat>)

  datatype Event =
    | Query(w: nat, batch: seq<nat>)  // the batch query answers
    | Advance(w: nat, ok: bool, hash: string := "")  // the next statement succeeds or throws; a submission
                                                     // that succeeds gives a hash
    | Stop(w: nat)                    // the batch goes no further

  predicate Idle(s: State, w: nat) { w !in s.workers || s.workers[w].left == [] }

  function Read(rows: Rows, batch: seq<nat>): seq<Held>
    requires forall i :: 0 <= i < |batch| ==> batch[i] in rows
  {
    seq(|batch|, i requires 0 <= i < |batch| => Held(batch[i], rows[batch[i]].attempts))
  }

  predicate AnswersQuery(rows: Rows, batch: seq<nat>) {
    && (forall i :: 0 <= i < |batch| ==> EligibleIn(rows, batch[i]))
    && (forall i, j :: 0 <= i < j < |batch| ==> batch[i] != batch[j])
  }

  /** The first donation of a busy batch. */
  function Head(s: State, w: nat): Held
    requires !Idle(s, w)
  {
    s.workers[w].left[0]
  }

  /** An UPDATE by id: no row, no effect. */
  function Update(rows: Rows, id: nat, f: Row -> Row): Rows {
    if id in rows then rows[id := f(rows[id])] else rows
  }

  function AsSubmitted(row: Row, hash: string): Row { row.(status := Submitted(hash), attempts := row.attempts + 1) }
  function AsCounted(row: Row): Row { row.(attempts := row.attempts + 1) }
  function AsFailed(row: Row): Row { row.(status := Failed) }

  function InStage(s: State, w: nat, stage: Stage): State
    requires w in s.workers
  {
    s.(workers := s.workers[w := s.workers[w].(stage := stage)])
  }

  /** On to the next donation of the batch. */
  function Done(s: State, w: nat): State
    requires !Idle(s, w)
  {
    s.(workers := s.workers[w := Worker(s.workers[w].left[1..], Unsent)])
  }

  /** The exception leaves the batch. */
  function Dropped(s: State, w: nat): State { s.(workers := s.workers[w := Worker([], Unsent)]) }

  function AdvanceStep(s: State, w: nat, ok: bool, hash: string): State
    requires !Idle(s, w)
  {
    var h := Head(s, w);
    match s.workers[w].stage
    case Unsent => if ok then InStage(s, w, Taken(hash)).(accepted := s.accepted + [h.id]) else InStage(s, w, Caught)
    case Taken(got) =>
      if ok then Done(s.(rows := Update(s.rows, h.id, (row: Row) => AsSubmitted(row, got))), w)
      else InStage(s, w, Caught)
    case Caught =>
      if !ok then Dropped(s, w)
      else
        var t := s.(rows := Update(s.rows, h.id, AsCounted));
        if h.read + 1 >= MAX_QUEUE_ATTEMPTS then InStage(t, w, Counted) else Done(t, w)
    case Counted => if ok then Done(s.(rows := Update(s.rows, h.id, AsFailed)), w) else Dropped(s, w)
  }

  function Step(s: State, e: Event): State {
    match e
    case Query(w, batch) =>
      if Idle(s, w) && AnswersQuery(s.rows, batch)
      then s.(workers := s.workers[w := Worker(Read(s.rows, batch), Unsent)]) else s
    case Advance(w, ok, hash) => if Idle(s, w) then s else AdvanceStep(s, w, ok, hash)
    case Stop(w) => Dropped(s, w)
  }

  function Run(s: State, events: seq<Event>): State
    decreases |events|
  {
    if events == [] then s else Run(Step(s, events[0]), events[1..])
  }

  lemma RunOn(s: State, e: Event, rest: seq<Event>)
    ensures Run(s, [e] + rest) == Run(Step(s, e), rest)
  {
    assert ([e] + rest)[1..] == rest;
  }

  function Fresh(rows: Rows): State { State(rows, map[], []) }

  function Times(log: seq<nat>, id: nat): nat {
    if log == [] then 0 else Times(log[..|log| - 1], id) + if log[|log| - 1] == id then 1 else 0
  }

  lemma TimesSnoc(log: seq<nat>, x: nat, id: nat)
    ensures Times(log + [x], id) == Times(log, id) + if x == id then 1 else 0
  {
    assert (log + [x])[..|log|] == log;
  }

  // ------------------------------------------------------- when it can be accepted again

  /** Position n of batch w's list is this donation. */
  predicate HoldsAt(s: State, w: nat, n: nat, id: nat) {
    w in s.workers && n < |s.workers[w].left| && s.workers[w].left[n].id == id
  }

  /** It is, and it has not been submitted by the batch. */
  predicate UnsentAt(s: State, w: nat, n: nat, id: nat) {
    HoldsAt(s, w, n, id) && (n > 0 || s.workers[w].stage.Unsent?)
  }

  ghost predicate CanBeAccepted(s: State, id: nat) {
    EligibleIn(s.rows, id) || exists w, n :: UnsentAt(s, w, n, id)
  }

  lemma NeverEligibleAgain(s: State, e: Event, id: nat)
    requires EligibleIn(Step(s, e).rows, id)
    ensures EligibleIn(s.rows, id)
  {
  }

  lemma NothingNewUnsent(s: State, e: Event, id: nat, w: nat, n: nat)
    requires !EligibleIn(s.rows, id) && UnsentAt(Step(s, e), w, n, id)
    ensures UnsentAt(s, w, n, id) || UnsentAt(s, w, n + 1, id)
  {
  }

  lemma StepNeedsCan(s: State, e: Event, id: nat)
    requires !CanBeAccepted(s, id)
    ensures !CanBeAccepted(Step(s, e), id) && Times(Step(s, e).accepted, id) == Times(s.accepted, id)
  {
    forall w: nat, n: nat ensures !UnsentAt(Step(s, e), w, n, id) {
      if UnsentAt(Step(s, e), w, n, id) { NothingNewUnsent(s, e, id, w, n); }
    }
    if e.Advance? && !Idle(s, e.w) && s.workers[e.w].stage.Unsent? {
      assert !UnsentAt(s, e.w, 0, id);
      TimesSnoc(s.accepted, Head(s, e.w).id, id);
    }
  }

  lemma {:induction false} RunNeedsCan(s: State, events: seq<Event>, id: nat)
    requires !CanBeAccepted(s, id)
    ensures Times(Run(s, events).accepted, id) == Times(s.accepted, id)
    decreases |events|
  {
    if events != [] {
      StepNeedsCan(s, events[0], id);
      RunNeedsCan(Step(s, events[0]), events[1..], id);
    }
  }

  lemma StepKeepsLog(s: State, e: Event, id: nat)
    ensures Times(Step(s, e).accepted, id) >= Times(s.accepted, id)
  {
    if e.Advance? && !Idle(s, e.w) && s.workers[e.w].stage.Unsent? {
      TimesSnoc(s.accepted, Head(s, e.w).id, id);
    }
  }

  /** How many statements a batch needs at most to come to its n-th donation. */
  function Distance(stage: Stage, n: nat): nat {
    4 * n + match stage case Unsent => 4 case Taken(_) => 3 case Caught => 2 case Counted => 1
  }

  /** A batch that runs on comes to every donation of its list. */
  lemma {:induction false} Reaches(s: State, w: nat, n: nat, id: nat) returns (events: seq<Event>)
    requires UnsentAt(s, w, n, id)
    ensures Times(Run(s, events).accepted, id) > Times(s.accepted, id)
    ensures forall i :: 0 <= i < |events| ==> events[i] == Advance(w, true)
    decreases Distance(s.workers[w].stage, n)
  {
    var e := Advance(w, true);
    var t := Step(s, e);
    if n == 0 {
      events := [e];
      TimesSnoc(s.accepted, id, id);
      RunOn(s, e, []);
      assert [e] + [] == [e];
    } else {
      StepKeepsLog(s, e, id);
      var m := if t.workers[w].left == s.workers[w].left then n else n - 1;
      assert UnsentAt(t, w, m, id);
      var rest := Reaches(t, w, m, id);
      RunOn(s, e, rest);
      events := [e] + rest;
    }
  }

  lemma FreshWorker(s: State) returns (w: nat)
    ensures w !in s.workers
  {
    w := Above(s.workers.Keys);
  }

  lemma {:induction false} Above(ids: set<nat>) returns (m: nat)
    ensures forall x :: x in ids ==> x < m
  {
    if ids == {} {
      m := 0;
    } else {
      var x :| x in ids;
      var k := Above(ids - {x});
      m := if k > x then k else x + 1;
      assert forall y :: y in ids ==> y == x || y in ids - {x};
    }
  }

  /** In every state: some continuation has the network accept the donation once more exactly when its
      row can still be picked or some batch holds it unsent. */
  lemma MoreAcceptancesIff(s: State, id: nat)
    ensures (exists events :: Times(Run(s, events).accepted, id) > Times(s.accepted, id)) <==> CanBeAccepted(s, id)
  {
    if CanBeAccepted(s, id) {
      if w: nat, n: nat :| UnsentAt(s, w, n, id) {
        var events := Reaches(s, w, n, id);
      } else {
        var w := FreshWorker(s);
        var t := Step(s, Query(w, [id]));
        assert UnsentAt(t, w, 0, id);
        var events := Reaches(t, w, 0, id);
        RunOn(s, Query(w, [id]), events);
        assert Times(Run(s, [Query(w, [id])] + events).accepted, id) > Times(s.accepted, id);
      }
    } else {
      forall events ensures Times(Run(s, events).accepted, id) <= Times(s.accepted, id) {
        RunNeedsCan(s, events, id);
      }
    }
  }

  // -------------------------------------------------- how often it can be accepted at most

  /** No batch lists a donation twice, as no query answers with it twice. */
  ghost predicate Lists(s: State) {
    forall w :: w in s.workers ==> forall i, j :: 0 <= i < j < |s.workers[w].left| ==>
      s.workers[w].left[i].id != s.workers[w].left[j].id
  }

  lemma StepKeepsLists(s: State, e: Event)
    requires Lists(s)
    ensures Lists(Step(s, e))
  {
  }

  ghost predicate HoldsUnsent(s: State, w: nat, id: nat) { exists n: nat :: UnsentAt(s, w, n, id) }

  ghost function Holders(s: State, id: nat): set<nat> { set w | w in s.workers && HoldsUnsent(s, w, id) }

  /** Acceptances, and submissions still to come from batches that hold it. */
  ghost function Claims(s: State, id: nat): nat { Times(s.accepted, id) + |Holders(s, id)| }

  /** The query is answered, and picks the donation up. */
  predicate Picks(s: State, e: Event, id: nat) {
    e.Query? && Idle(s, e.w) && AnswersQuery(s.rows, e.batch) && id in e.batch
  }

  /** Some query can pick a donation up exactly when it is queued, has had fewer than ten attempts, and is
      not deleted. */
  lemma CanBePickedIff(s: State, id: nat)
    ensures (exists e :: Picks(s, e, id))
            <==> id in s.rows && s.rows[id].status == Queued && s.rows[id].attempts < 10 && !s.rows[id].deleted
  {
    if EligibleIn(s.rows, id) {
      var w := FreshWorker(s);
      assert Picks(s, Query(w, [id]), id);
    }
  }

  /** A step moves the donations of its own batch alone. */
  lemma OthersKeepHolding(s: State, e: Event, w: nat, id: nat)
    requires w != e.w
    ensures HoldsUnsent(Step(s, e), w, id) <==> HoldsUnsent(s, w, id)
  {
    assert forall n: nat :: UnsentAt(Step(s, e), w, n, id) <==> UnsentAt(s, w, n, id);
  }

  lemma HoldersOf(s: State, e: Event, id: nat)
    ensures Holders(Step(s, e), id) - {e.w} == Holders(s, id) - {e.w}
  {
    forall w ensures w in Holders(Step(s, e), id) - {e.w} <==> w in Holders(s, id) - {e.w} {
      if w != e.w { OthersKeepHolding(s, e, w, id); }
    }
  }

  /** Submitting its first donation, a batch gives up its hold on it and logs it. */
  lemma OwnSubmission(s: State, e: Event, id: nat)
    requires Lists(s) && e.Advance? && !Idle(s, e.w) && s.workers[e.w].stage.Unsent?
    ensures var t, w := Step(s, e), e.w;
            && (HoldsUnsent(t, w, id) <==> HoldsUnsent(s, w, id) && Head(s, w).id != id)
            && Times(t.accepted, id) == Times(s.accepted, id) + if e.ok && Head(s, w).id == id then 1 else 0
  {
    var t, w := Step(s, e), e.w;
    TimesSnoc(s.accepted, Head(s, w).id, id);
    forall n: nat ensures UnsentAt(t, w, n, id) <==> UnsentAt(s, w, n, id) && Head(s, w).id != id {
    }
    assert Head(s, w).id == id ==> UnsentAt(s, w, 0, id);
    if HoldsUnsent(s, w, id) && Head(s, w).id != id {
      var n: nat :| UnsentAt(s, w, n, id);
      assert UnsentAt(t, w, n, id);
    }
  }

  /** Later statements submit nothing; one that succeeds keeps every hold of its batch. */
  lemma OwnUpdate(s: State, e: Event, id: nat)
    requires e.Advance? && !Idle(s, e.w) && !s.workers[e.w].stage.Unsent?
    ensures var t, w := Step(s, e), e.w;
            && t.accepted == s.accepted
            && (HoldsUnsent(t, w, id) ==> HoldsUnsent(s, w, id))
            && (e.ok && HoldsUnsent(s, w, id) ==> HoldsUnsent(t, w, id))
  {
    var t, w := Step(s, e), e.w;
    if HoldsUnsent(t, w, id) {
      var n: nat :| UnsentAt(t, w, n, id);
      assert UnsentAt(s, w, n, id) || UnsentAt(s, w, n + 1, id);
    }
    if e.ok && HoldsUnsent(s, w, id) {
      var n: nat :| UnsentAt(s, w, n, id);
      assert n > 0;
      assert UnsentAt(t, w, n, id) || UnsentAt(t, w, n - 1, id);
    }
  }

  lemma OwnHold(s: State, e: Event, id: nat)
    requires Lists(s) && !Picks(s, e, id)
    ensures var (t, w) := (Step(s, e), e.w);
            && (HoldsUnsent(t, w, id) ==> HoldsUnsent(s, w, id))
            && (Times(t.accepted, id) == Times(s.accepted, id)
                || (&& Times(t.accepted, id) == Times(s.accepted, id) + 1
                    && HoldsUnsent(s, w, id) && !HoldsUnsent(t, w, id)))
  {
    if e.Advance? && !Idle(s, e.w) {
      if s.workers[e.w].stage.Unsent? {
        OwnSubmission(s, e, id);
        assert Head(s, e.w).id == id ==> UnsentAt(s, e.w, 0, id);
      } else {
        OwnUpdate(s, e, id);
      }
    }
  }

  lemma CardinalitySplit(a: set<nat>, b: set<nat>, w: nat)
    requires a - {w} == b - {w}
    ensures |a| == |b| + (if w in a then 1 else 0) - (if w in b then 1 else 0)
  {
    assert w in a ==> a == (a - {w}) + {w};
    assert w in b ==> b == (b - {w}) + {w};
    assert w !in a ==> a == a - {w};
    assert w !in b ==> b == b - {w};
  }

  /** Claims grow only when a query picks the donation up, and then by one. */
  lemma ClaimsStep(s: State, e: Event, id: nat)
    requires Lists(s)
    ensures Picks(s, e, id) ==> Claims(Step(s, e), id) == Claims(s, id) + 1
    ensures !Picks(s, e, id) ==> Claims(Step(s, e), id) <= Claims(s, id)
  {
    HoldersOf(s, e, id);
    CardinalitySplit(Holders(Step(s, e), id), Holders(s, id), e.w);
    if Picks(s, e, id) {
      var i :| 0 <= i < |e.batch| && e.batch[i] == id;
      assert UnsentAt(Step(s, e), e.w, i, id) && !HoldsUnsent(s, e.w, id);
    } else {
      OwnHold(s, e, id);
    }
  }

  /** No query of the run picks the donation up. */
  ghost predicate NotPicked(s: State, events: seq<Event>, id: nat)
    decreases |events|
  {
    events == [] || (!Picks(s, events[0], id) && NotPicked(Step(s, events[0]), events[1..], id))
  }

  lemma {:induction false} ClaimsBound(s: State, events: seq<Event>, id: nat)
    requires Lists(s) && NotPicked(s, events, id)
    ensures Times(Run(s, events).accepted, id) <= Claims(s, id)
    decreases |events|
  {
    if events != [] {
      StepKeepsLists(s, events[0]);
      ClaimsStep(s, events[0], id);
      ClaimsBound(Step(s, events[0]), events[1..], id);
    }
  }

  lemma SetFrom(a: set<nat>, b: set<nat>, w: nat)
    requires a - {w} == b - {w}
    ensures (w in a <==> w in b) ==> a == b
    ensures w !in a ==> a == b - {w}
  {
    forall x ensures x != w ==> (x in a <==> x in b) {
      assert x in a - {w} <==> x in b - {w};
    }
  }

  lemma HoldersAfterSuccess(s: State, w: nat, id: nat)
    requires Lists(s) && !Idle(s, w)
    ensures Holders(Step(s, Advance(w, true)), id)
            == if s.workers[w].stage.Unsent? && Head(s, w).id == id then Holders(s, id) - {w} else Holders(s, id)
  {
    var e := Advance(w, true);
    HoldersOf(s, e, id);
    SetFrom(Holders(Step(s, e), id), Holders(s, id), w);
    if s.workers[w].stage.Unsent? {
      OwnSubmission(s, Advance(w, true), id);
    } else {
      OwnUpdate(s, Advance(w, true), id);
    }
  }

  /** A batch whose statements succeed keeps the claims as they are. */
  lemma SuccessKeepsClaims(s: State, w: nat, id: nat)
    requires Lists(s) && !Idle(s, w)
    ensures Claims(Step(s, Advance(w, true)), id) == Claims(s, id)
  {
    HoldersAfterSuccess(s, w, id);
    if s.workers[w].stage.Unsent? {
      OwnSubmission(s, Advance(w, true), id);
      assert Head(s, w).id == id ==> UnsentAt(s, w, 0, id);
    } else {
      OwnUpdate(s, Advance(w, true), id);
    }
  }

  ghost predicate AllClaimed(s: State, events: seq<Event>, id: nat) {
    NotPicked(s, events, id) && Times(Run(s, events).accepted, id) == Claims(s, id)
  }

  /** Every claim can come true: the batches that hold the donation run on, one after the other. */
  lemma {:induction false} ClaimsComeTrue(s: State, id: nat) returns (events: seq<Event>)
    requires Lists(s)
    ensures AllClaimed(s, events, id)
    decreases |Holders(s, id)|, 1, 0
  {
    if Holders(s, id) == {} {
      events := [];
    } else {
      var w :| w in Holders(s, id);
      var n: nat :| UnsentAt(s, w, n, id);
      events := ClaimOf(s, w, n, id);
    }
  }

  lemma {:induction false} ClaimOf(s: State, w: nat, n: nat, id: nat) returns (events: seq<Event>)
    requires Lists(s) && UnsentAt(s, w, n, id)
    ensures AllClaimed(s, events, id)
    decreases |Holders(s, id)|, 0, Distance(s.workers[w].stage, n)
  {
    var e := Advance(w, true);
    var t := Step(s, e);
    StepKeepsLists(s, e);
    SuccessKeepsClaims(s, w, id);
    HoldersAfterSuccess(s, w, id);
    assert w in Holders(s, id);
    var rest;
    if n == 0 {
      rest := ClaimsComeTrue(t, id);
    } else {
      assert HoldsAt(s, w, n, id) && Head(s, w).id != id;
      var m := if t.workers[w].left == s.workers[w].left then n else n - 1;
      rest := ClaimOf(t, w, m, id);
    }
    RunOn(s, e, rest);
    events := [e] + rest;
    assert events[1..] == rest;
  }

  /** However the run goes on, as long as no query picks the donation up, it is accepted at most once. */
  ghost predicate OnceFrom(s: State, id: nat) {
    forall events :: NotPicked(s, events, id) ==> Times(Run(s, events).accepted, id) <= 1
  }

  lemma OnceIff(s: State, id: nat)
    requires Lists(s)
    ensures OnceFrom(s, id) <==> Claims(s, id) <= 1
  {
    var events := ClaimsComeTrue(s, id);
    forall events | NotPicked(s, events, id) ensures Times(Run(s, events).accepted, id) <= Claims(s, id) {
      ClaimsBound(s, events, id);
    }
  }

  ghost predicate OnceThroughout(s: State, events: seq<Event>, id: nat)
    decreases |events|
  {
    OnceFrom(s, id) && (events == [] || OnceThroughout(Step(s, events[0]), events[1..], id))
  }

  /** Every query that picks the donation up finds it never accepted, and no batch holding it unsent. */
  ghost predicate PickedUnclaimed(s: State, events: seq<Event>, id: nat)
    decreases |events|
  {
    events == [] || (&& (Picks(s, events[0], id) ==> Claims(s, id) == 0)
                     && PickedUnclaimed(Step(s, events[0]), events[1..], id))
  }

  lemma {:induction false} OnceThroughoutIff(s: State, events: seq<Event>, id: nat)
    requires Lists(s) && Claims(s, id) <= 1
    ensures OnceThroughout(s, events, id) <==> PickedUnclaimed(s, events, id)
    decreases |events|
  {
    OnceIff(s, id);
    if events != [] {
      var t := Step(s, events[0]);
      StepKeepsLists(s, events[0]);
      ClaimsStep(s, events[0], id);
      if Claims(t, id) <= 1 {
        OnceThroughoutIff(t, events[1..], id);
      } else {
        OnceIff(t, id);
      }
    }
  }

  lemma FreshClaims(rows: Rows, id: nat)
    ensures Lists(Fresh(rows)) && Claims(Fresh(rows), id) == 0
  {
    assert Holders(Fresh(rows), id) == {};
  }

  /** Over every run, whatever fails: the donation is safe from a second acceptance at every moment
      exactly when each query that picked it up found it unclaimed. */
  lemma AcceptedOnceIff(rows: Rows, events: seq<Event>, id: nat)
    ensures OnceThroughout(Fresh(rows), events, id) <==> PickedUnclaimed(Fresh(rows), events, id)
  {
    FreshClaims(rows, id);
    OnceThroughoutIff(Fresh(rows), events, id);
  }

  lemma {:induction false} OnceAtEnd(s: State, events: seq<Event>, id: nat)
    requires OnceThroughout(s, events, id)
    ensures Times(Run(s, events).accepted, id) <= 1
    decreases |events|
  {
    if events != [] {
      OnceAtEnd(Step(s, events[0]), events[1..], id);
    } else {
      assert NotPicked(s, [], id) && Run(s, []) == s;
    }
  }

  lemma AcceptedAtMostOnce(rows: Rows, events: seq<Event>, id: nat)
    requires PickedUnclaimed(Fresh(rows), events, id)
    ensures Times(Run(Fresh(rows), events).accepted, id) <= 1
  {
    AcceptedOnceIff(rows, events, id);
    OnceAtEnd(Fresh(rows), events, id);
  }
}
