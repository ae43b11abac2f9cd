/**
 * Donations left in the queue for good, and donations marked failed although the network took them:
 * over all runs of overlapping batches, and over those in which no two batches share the donation.
 */
module QueueStranding {
  import opened DonationQueue
  import opened QueueOverlap

  predicate QueuedIn(rows: Rows, id: nat) { id in rows && rows[id].status == Queued }

  /** The statements still to come from this batch can take the donation out of the queue: it has yet
      to be submitted, or the count the batch read lets it mark the donation failed. */
  predicate CanSettleAt(s: State, w: nat, n: nat, id: nat) {
    && HoldsAt(s, w, n, id)
    && (n > 0 || !s.workers[w].stage.Caught? || s.workers[w].left[n].read + 1 >= MAX_QUEUE_ATTEMPTS)
  }

  /** In the queue, out of every query's sight, and beyond every batch at work. */
  ghost predicate Stuck(s: State, id: nat) {
    QueuedIn(s.rows, id) && !EligibleIn(s.rows, id) && forall w: nat, n: nat :: !CanSettleAt(s, w, n, id)
  }

  // ------------------------------------------------------------------ stuck is for good

  lemma NoNewSettler(s: State, e: Event, id: nat, w: nat, n: nat)
    requires !EligibleIn(s.rows, id) && CanSettleAt(Step(s, e), w, n, id)
    ensures CanSettleAt(s, w, n, id) || CanSettleAt(s, w, n + 1, id)
  {
  }

  lemma StepKeepsStuck(s: State, e: Event, id: nat)
    requires Stuck(s, id)
    ensures Stuck(Step(s, e), id)
  {
    var t := Step(s, e);
    forall w: nat, n: nat ensures !CanSettleAt(t, w, n, id) {
      if CanSettleAt(t, w, n, id) { NoNewSettler(s, e, id, w, n); }
    }
    if e.Advance? && !Idle(s, e.w) {
      assert !CanSettleAt(s, e.w, 0, id);
    }
  }

  lemma {:induction false} StuckForGood(s: State, events: seq<Event>, id: nat)
    requires Stuck(s, id)
    ensures Stuck(Run(s, events), id)
    decreases |events|
  {
    if events != [] {
      StepKeepsStuck(s, events[0], id);
      StuckForGood(Step(s, events[0]), events[1..], id);
    }
  }

  predicate LeftQueue(s: State, id: nat) { id in s.rows && s.rows[id].status != Queued }

  predicate LeftAfter(s: State, events: seq<Event>, id: nat) { LeftQueue(Run(s, events), id) }

  lemma {:induction false} LeftForGood(s: State, events: seq<Event>, id: nat)
    requires LeftQueue(s, id)
    ensures LeftQueue(Run(s, events), id)
    decreases |events|
  {
    if events != [] {
      LeftForGood(Step(s, events[0]), events[1..], id);
    }
  }

  /** A batch that can settle the donation does so when it runs on. */
  lemma {:induction false} Settles(s: State, w: nat, n: nat, id: nat) returns (events: seq<Event>)
    requires id in s.rows && CanSettleAt(s, w, n, id)
    ensures LeftQueue(Run(s, events), id)
    decreases Distance(s.workers[w].stage, n)
  {
    var e := Advance(w, true);
    var t := Step(s, e);
    var rest := [];
    if !LeftQueue(t, id) {
      var m := if t.workers[w].left == s.workers[w].left then n else n - 1;
      assert CanSettleAt(t, w, m, id);
      rest := Settles(t, w, m, id);
    }
    RunOn(s, e, rest);
    events := [e] + rest;
  }

  /** In every state with the donation queued: some continuation takes it out of the queue exactly
      when a query can still pick it up or some batch can still settle it. */
  lemma LeavesQueueIff(s: State, id: nat)
    requires QueuedIn(s.rows, id)
    ensures (exists events :: LeftAfter(s, events, id)) <==> !Stuck(s, id)
  {
    if Stuck(s, id) {
      forall events ensures !LeftAfter(s, events, id) {
        StuckForGood(s, events, id);
      }
    } else if w: nat, n: nat :| CanSettleAt(s, w, n, id) {
      var events := Settles(s, w, n, id);
      assert LeftAfter(s, events, id);
    } else {
      var w := FreshWorker(s);
      var t := Step(s, Query(w, [id]));
      assert CanSettleAt(t, w, 0, id);
      var events := Settles(t, w, 0, id);
      RunOn(s, Query(w, [id]), events);
      assert LeftAfter(s, [Query(w, [id])] + events, id);
    }
  }

  // ------------------------------------------------------------- which step strands it

  /** The batch counts the last attempt of the donation without marking it failed, as the count it
      had read is behind. */
  predicate CountsOut(s: State, e: Event, id: nat) {
    && e.Advance? && e.ok && !Idle(s, e.w) && s.workers[e.w].stage.Caught? && id in s.rows
    && Head(s, e.w).id == id && Head(s, e.w).read + 1 < MAX_QUEUE_ATTEMPTS
    && s.rows[id].attempts + 1 >= MAX_QUEUE_ATTEMPTS
  }

  /** The batch gives its donations up, or falls back on a count that is behind. */
  predicate LetsGo(s: State, e: Event, id: nat) {
    && !e.Query? && !Idle(s, e.w)
    && (e.Stop?
        || (!e.ok && (s.workers[e.w].stage.Caught? || s.workers[e.w].stage.Counted?
                      || (Head(s, e.w).id == id && Head(s, e.w).read + 1 < MAX_QUEUE_ATTEMPTS))))
  }

  /** No other batch can settle the donation, and this one uses up its last attempt on a stale count,
      or lets go of it with no attempt left. */
  ghost predicate Strands(s: State, e: Event, id: nat) {
    && QueuedIn(s.rows, id)
    && (forall w: nat, n: nat :: CanSettleAt(s, w, n, id) ==> w == e.w)
    && (CountsOut(s, e, id) || (!EligibleIn(s.rows, id) && LetsGo(s, e, id)))
  }

  lemma OthersKeepSettling(s: State, e: Event, w: nat, n: nat, id: nat)
    requires w != e.w
    ensures CanSettleAt(Step(s, e), w, n, id) <==> CanSettleAt(s, w, n, id)
  {
  }

  /** Letting go, and nothing else, takes from a batch what it needs to settle a queued donation. */
  lemma KeepsSettling(s: State, e: Event, n: nat, id: nat) returns (m: nat)
    requires Lists(s) && CanSettleAt(s, e.w, n, id) && !LetsGo(s, e, id) && QueuedIn(Step(s, e).rows, id)
    ensures CanSettleAt(Step(s, e), e.w, m, id)
  {
    m := if Step(s, e).workers[e.w].left == s.workers[e.w].left then n else n - 1;
  }

  lemma LetGo(s: State, e: Event, n: nat, id: nat)
    requires Lists(s) && LetsGo(s, e, id)
    ensures !CanSettleAt(Step(s, e), e.w, n, id)
  {
  }

  lemma StrandsOnlyIf(s: State, e: Event, id: nat)
    requires Lists(s) && QueuedIn(s.rows, id) && !Stuck(s, id) && Stuck(Step(s, e), id)
    ensures Strands(s, e, id)
  {
    var t := Step(s, e);
    forall w: nat, n: nat | CanSettleAt(s, w, n, id) ensures w == e.w && LetsGo(s, e, id) {
      if w != e.w {
        OthersKeepSettling(s, e, w, n, id);
      } else if !LetsGo(s, e, id) {
        var m := KeepsSettling(s, e, n, id);
      }
    }
    if EligibleIn(s.rows, id) {
      assert !CanSettleAt(t, e.w, 0, id);
    } else {
      var w: nat, n: nat :| CanSettleAt(s, w, n, id);
    }
  }

  lemma StrandsIf(s: State, e: Event, id: nat)
    requires Lists(s) && Strands(s, e, id)
    ensures Stuck(Step(s, e), id)
  {
    var t := Step(s, e);
    forall w: nat, n: nat ensures !CanSettleAt(t, w, n, id) {
      if w != e.w {
        OthersKeepSettling(s, e, w, n, id);
      } else if LetsGo(s, e, id) {
        LetGo(s, e, n, id);
      } else {
        CountedOut(s, e, n, id);
      }
    }
    if LetsGo(s, e, id) {
      assert t.rows == s.rows;
    }
  }

  lemma CountedOut(s: State, e: Event, n: nat, id: nat)
    requires Lists(s) && CountsOut(s, e, id)
    ensures !CanSettleAt(Step(s, e), e.w, n, id)
  {
  }

  ghost predicate StrandsAlong(s: State, events: seq<Event>, id: nat)
    decreases |events|
  {
    events != [] && (Strands(s, events[0], id) || StrandsAlong(Step(s, events[0]), events[1..], id))
  }

  lemma {:induction false} NotOnceLeft(s: State, events: seq<Event>, id: nat)
    requires LeftQueue(s, id)
    ensures !StrandsAlong(s, events, id)
    decreases |events|
  {
    if events != [] {
      NotOnceLeft(Step(s, events[0]), events[1..], id);
    }
  }

  lemma {:induction false} StuckIff(s: State, events: seq<Event>, id: nat)
    requires Lists(s) && QueuedIn(s.rows, id) && !Stuck(s, id)
    ensures Stuck(Run(s, events), id) <==> StrandsAlong(s, events, id)
    decreases |events|
  {
    if events != [] {
      var t, rest := Step(s, events[0]), events[1..];
      StepKeepsLists(s, events[0]);
      if Stuck(t, id) {
        StrandsOnlyIf(s, events[0], id);
        StuckForGood(t, rest, id);
      } else {
        if Strands(s, events[0], id) { StrandsIf(s, events[0], id); }
        if LeftQueue(t, id) {
          NotOnceLeft(t, rest, id);
          LeftForGood(t, rest, id);
        } else {
          StuckIff(t, rest, id);
        }
      }
    }
  }

  /** No continuation takes the donation out of the queue. */
  ghost predicate QueuedForGood(s: State, id: nat) {
    QueuedIn(s.rows, id) && forall more :: !LeftAfter(s, more, id)
  }

  lemma QueuedForGoodIff(s: State, id: nat)
    ensures QueuedForGood(s, id) <==> Stuck(s, id)
  {
    if QueuedIn(s.rows, id) {
      LeavesQueueIff(s, id);
    }
  }

  /** Over every run, whatever fails: a donation that could be picked ends up queued for good exactly
      when some step of the run strands it. */
  lemma StrandedIff(rows: Rows, events: seq<Event>, id: nat)
    requires EligibleIn(rows, id)
    ensures QueuedForGood(Run(Fresh(rows), events), id) <==> StrandsAlong(Fresh(rows), events, id)
  {
    FreshClaims(rows, id);
    StuckIff(Fresh(rows), events, id);
    QueuedForGoodIff(Run(Fresh(rows), events), id);
  }

  // ------------------------------------------------------- runs that do not share it

  ghost predicate IsHeld(s: State, id: nat) { exists w: nat, n: nat :: HoldsAt(s, w, n, id) }

  /** No query picks the donation up while a batch has it. */
  ghost predicate NotShared(s: State, events: seq<Event>, id: nat)
    decreases |events|
  {
    events == [] || (!(Picks(s, events[0], id) && IsHeld(s, id)) && NotShared(Step(s, events[0]), events[1..], id))
  }

  /** The count the batch read is up to date, and the last attempt is counted before it is marked. */
  predicate InStep(s: State, w: nat, n: nat, id: nat)
    requires HoldsAt(s, w, n, id)
  {
    && QueuedIn(s.rows, id) && !s.rows[id].deleted
    && var read := s.workers[w].left[n].read;
       if n == 0 && s.workers[w].stage.Counted?
       then s.rows[id].attempts == MAX_QUEUE_ATTEMPTS == read + 1
       else s.rows[id].attempts == read < MAX_QUEUE_ATTEMPTS
  }

  /** At most one batch has the donation, once, and is in step with its row. */
  ghost predicate Sole(s: State, id: nat) {
    && (forall w: nat, n: nat :: HoldsAt(s, w, n, id) ==> InStep(s, w, n, id))
    && (forall w: nat, n: nat, v: nat, m: nat :: HoldsAt(s, w, n, id) && HoldsAt(s, v, m, id) ==> w == v && n == m)
  }

  /** Where a donation of the list was one step earlier. */
  function Before(s: State, e: Event, w: nat, n: nat): nat {
    if w == e.w && e.Advance? && w in s.workers && w in Step(s, e).workers
       && |Step(s, e).workers[w].left| < |s.workers[w].left| then n + 1 else n
  }

  lemma HeldBefore(s: State, e: Event, w: nat, n: nat, id: nat)
    requires HoldsAt(Step(s, e), w, n, id) && !Picks(s, e, id)
    ensures HoldsAt(s, w, Before(s, e, w, n), id)
    ensures Step(s, e).workers[w].left[n] == s.workers[w].left[Before(s, e, w, n)]
  {
  }

  lemma StepKeepsInStep(s: State, e: Event, w: nat, n: nat, id: nat)
    requires Sole(s, id) && HoldsAt(Step(s, e), w, n, id) && !Picks(s, e, id)
    ensures InStep(Step(s, e), w, n, id)
  {
    HeldBefore(s, e, w, n, id);
    var k := Before(s, e, w, n);
    assert InStep(s, w, k, id);
    if e.Advance? && !Idle(s, e.w) && Head(s, e.w).id == id {
      assert HoldsAt(s, e.w, 0, id);
    }
  }

  lemma PickHolds(s: State, e: Event, w: nat, n: nat, id: nat)
    requires Picks(s, e, id) && !IsHeld(s, id) && HoldsAt(Step(s, e), w, n, id)
    ensures w == e.w && n < |e.batch| && e.batch[n] == id && InStep(Step(s, e), w, n, id)
  {
    if w != e.w {
      assert HoldsAt(s, w, n, id);
    }
  }

  lemma StepKeepsSole(s: State, e: Event, id: nat)
    requires Sole(s, id) && !(Picks(s, e, id) && IsHeld(s, id))
    ensures Sole(Step(s, e), id)
  {
    var t := Step(s, e);
    forall w: nat, n: nat | HoldsAt(t, w, n, id) ensures InStep(t, w, n, id) {
      if Picks(s, e, id) { PickHolds(s, e, w, n, id); } else { StepKeepsInStep(s, e, w, n, id); }
    }
    forall w: nat, n: nat, v: nat, m: nat | HoldsAt(t, w, n, id) && HoldsAt(t, v, m, id) ensures w == v && n == m {
      if Picks(s, e, id) {
        PickHolds(s, e, w, n, id);
        PickHolds(s, e, v, m, id);
      } else {
        HeldBefore(s, e, w, n, id);
        HeldBefore(s, e, v, m, id);
      }
    }
  }

  /** What a batch can lose: the record of an acceptance, or the mark of a failure. */
  datatype Duty = Record | Mark

  predicate Owes(stage: Stage, duty: Duty) { if duty.Record? then stage.Taken? else stage.Counted? }

  /** Dealing with the donation, a batch that owes this sees its statement throw, or stops. */
  predicate Loses(s: State, e: Event, id: nat, duty: Duty) {
    && !e.Query? && !Idle(s, e.w) && Head(s, e.w).id == id && Owes(s.workers[e.w].stage, duty)
    && (e.Stop? || !e.ok)
  }

  ghost predicate LosesAlong(s: State, events: seq<Event>, id: nat, duty: Duty)
    decreases |events|
  {
    events != [] && (Loses(s, events[0], id, duty) || LosesAlong(Step(s, events[0]), events[1..], id, duty))
  }

  lemma UnheldStep(s: State, e: Event, id: nat)
    requires !EligibleIn(s.rows, id) && !IsHeld(s, id)
    ensures !IsHeld(Step(s, e), id) && !EligibleIn(Step(s, e).rows, id)
    ensures id in s.rows ==> id in Step(s, e).rows && Step(s, e).rows[id] == s.rows[id]
  {
    assert !HoldsAt(s, e.w, 0, id);
    forall w: nat, n: nat ensures !HoldsAt(Step(s, e), w, n, id) {
      if HoldsAt(Step(s, e), w, n, id) { HeldBefore(s, e, w, n, id); }
    }
  }

  lemma UnheldLog(s: State, e: Event, id: nat)
    requires !IsHeld(s, id)
    ensures Times(Step(s, e).accepted, id) == Times(s.accepted, id)
    ensures forall duty :: !Loses(s, e, id, duty)
  {
    assert !HoldsAt(s, e.w, 0, id);
    if e.Advance? && !Idle(s, e.w) {
      TimesSnoc(s.accepted, Head(s, e.w).id, id);
    }
  }

  /** Out of the queries' sight and with no batch, its row and its acceptances are final. */
  lemma {:induction false} UnheldIsFinal(s: State, events: seq<Event>, id: nat, duty: Duty)
    requires !EligibleIn(s.rows, id) && !IsHeld(s, id)
    ensures !LosesAlong(s, events, id, duty)
    ensures Times(Run(s, events).accepted, id) == Times(s.accepted, id)
    ensures id in s.rows ==> id in Run(s, events).rows && Run(s, events).rows[id] == s.rows[id]
    decreases |events|
  {
    if events != [] {
      UnheldStep(s, events[0], id);
      UnheldLog(s, events[0], id);
      UnheldIsFinal(Step(s, events[0]), events[1..], id, duty);
    }
  }

  lemma UnsharedStrands(s: State, e: Event, id: nat)
    requires Sole(s, id) && QueuedIn(s.rows, id) && !Stuck(s, id)
    ensures Stuck(Step(s, e), id) <==> Loses(s, e, id, Mark)
  {
    var t := Step(s, e);
    if Loses(s, e, id, Mark) {
      assert HoldsAt(s, e.w, 0, id);
      forall w: nat, n: nat ensures !CanSettleAt(t, w, n, id) {
        if HoldsAt(t, w, n, id) { HeldBefore(s, e, w, n, id); }
      }
    } else {
      UnsharedKeepsSettler(s, e, id);
    }
  }

  lemma UnsharedKeepsSettler(s: State, e: Event, id: nat)
    requires Sole(s, id) && QueuedIn(s.rows, id) && !Stuck(s, id) && !Loses(s, e, id, Mark)
    ensures !Stuck(Step(s, e), id)
  {
    var t := Step(s, e);
    if EligibleIn(s.rows, id) {
      if e.Advance? && !Idle(s, e.w) && Head(s, e.w).id == id {
        assert HoldsAt(s, e.w, 0, id);
        assert t.workers[e.w].stage.Counted? ==> CanSettleAt(t, e.w, 0, id);
      }
    } else {
      var w: nat, n: nat :| CanSettleAt(s, w, n, id);
      assert InStep(s, w, n, id);
      assert w != e.w ==> CanSettleAt(t, w, n, id);
    }
  }

  lemma {:induction false} UnsharedStuckIff(s: State, events: seq<Event>, id: nat)
    requires Sole(s, id) && QueuedIn(s.rows, id) && !Stuck(s, id) && NotShared(s, events, id)
    ensures Stuck(Run(s, events), id) <==> LosesAlong(s, events, id, Mark)
    decreases |events|
  {
    if events != [] {
      var t, rest := Step(s, events[0]), events[1..];
      StepKeepsSole(s, events[0], id);
      UnsharedStrands(s, events[0], id);
      if Stuck(t, id) {
        StuckForGood(t, rest, id);
      } else if LeftQueue(t, id) {
        LeftUnheld(t, id);
        UnheldIsFinal(t, rest, id, Mark);
        LeftForGood(t, rest, id);
      } else {
        UnsharedStuckIff(t, rest, id);
      }
    }
  }

  lemma LeftUnheld(s: State, id: nat)
    requires Sole(s, id) && LeftQueue(s, id)
    ensures !EligibleIn(s.rows, id) && !IsHeld(s, id)
  {
    assert forall w: nat, n: nat :: HoldsAt(s, w, n, id) ==> InStep(s, w, n, id);
  }

  /** Over every run in which no two batches share it, whatever fails: a donation is stranded exactly
      when the statement that marks it failed, the one after its last attempt is counted, is lost. */
  lemma UnsharedStrandedIff(rows: Rows, events: seq<Event>, id: nat)
    requires EligibleIn(rows, id) && NotShared(Fresh(rows), events, id)
    ensures QueuedForGood(Run(Fresh(rows), events), id) <==> LosesAlong(Fresh(rows), events, id, Mark)
  {
    UnsharedStuckIff(Fresh(rows), events, id);
    QueuedForGoodIff(Run(Fresh(rows), events), id);
  }

  // ------------------------------------------------------- failed though accepted

  /** The network took the donation, and its row does not say so yet. */
  ghost predicate Pending(s: State, id: nat) {
    exists w: nat :: AtWork(s, w, id)
  }

  predicate AtWork(s: State, w: nat, id: nat) { HoldsAt(s, w, 0, id) && s.workers[w].stage.Taken? }

  /** A batch writes down that the network took the donation, or loses that. */
  predicate Concludes(s: State, e: Event, id: nat) { !e.Query? && AtWork(s, e.w, id) }

  ghost predicate ConcludesAlong(s: State, events: seq<Event>, id: nat)
    decreases |events|
  {
    events != [] && (Concludes(s, events[0], id) || ConcludesAlong(Step(s, events[0]), events[1..], id))
  }

  lemma AcceptedStep(s: State, e: Event, id: nat)
    ensures Pending(Step(s, e), id) && Times(Step(s, e).accepted, id) == Times(s.accepted, id) ==> Pending(s, id)
    ensures Times(Step(s, e).accepted, id) > Times(s.accepted, id) ==> Pending(Step(s, e), id)
    ensures Pending(s, id) ==> Concludes(s, e, id) || Pending(Step(s, e), id)
  {
    var t := Step(s, e);
    if e.Advance? && !Idle(s, e.w) && s.workers[e.w].stage.Unsent? {
      TimesSnoc(s.accepted, Head(s, e.w).id, id);
      assert e.ok && Head(s, e.w).id == id ==> AtWork(t, e.w, id);
    }
    if w: nat :| AtWork(s, w, id) {
      assert w != e.w ==> AtWork(t, w, id);
    }
    if Pending(t, id) {
      var w: nat :| AtWork(t, w, id);
      assert Times(t.accepted, id) == Times(s.accepted, id) ==> AtWork(s, w, id);
    }
  }

  /** Over every run, whatever overlaps and fails: a donation is accepted exactly when some batch came
      to write that down or to lose it, or still has it to write. */
  lemma {:induction false} AcceptedIff(s: State, events: seq<Event>, id: nat)
    ensures Times(Run(s, events).accepted, id) > Times(s.accepted, id) || Pending(s, id)
            <==> ConcludesAlong(s, events, id) || Pending(Run(s, events), id)
    decreases |events|
  {
    if events != [] {
      AcceptedStep(s, events[0], id);
      StepKeepsLog(s, events[0], id);
      AcceptedIff(Step(s, events[0]), events[1..], id);
      RunKeepsLog(Step(s, events[0]), events[1..], id);
    }
  }

  lemma {:induction false} RunKeepsLog(s: State, events: seq<Event>, id: nat)
    ensures Times(Run(s, events).accepted, id) >= Times(s.accepted, id)
    decreases |events|
  {
    if events != [] {
      StepKeepsLog(s, events[0], id);
      RunKeepsLog(Step(s, events[0]), events[1..], id);
    }
  }

  lemma {:induction false} ConcludesIsLoss(s: State, events: seq<Event>, id: nat)
    requires Sole(s, id) && QueuedIn(s.rows, id) && NotShared(s, events, id)
    requires id in Run(s, events).rows && Run(s, events).rows[id].status == Failed
    ensures ConcludesAlong(s, events, id) <==> LosesAlong(s, events, id, Record)
    ensures !Pending(Run(s, events), id)
    decreases |events|
  {
    if events != [] {
      var e, t, rest := events[0], Step(s, events[0]), events[1..];
      StepKeepsSole(s, e, id);
      if LeftQueue(t, id) {
        LeftUnheld(t, id);
        UnheldIsFinal(t, rest, id, Record);
        NothingConcludes(t, rest, id);
        NotPendingOnceLeft(s, e, id);
      } else {
        ConcludesIsLoss(t, rest, id);
      }
    }
  }

  /** Leaving the queue for `failed`, the donation is at its batch's last statement. */
  lemma NotPendingOnceLeft(s: State, e: Event, id: nat)
    requires Sole(s, id) && QueuedIn(s.rows, id) && LeftQueue(Step(s, e), id)
    ensures Step(s, e).rows[id].status == Failed ==> !Concludes(s, e, id)
    ensures !Loses(s, e, id, Record)
  {
  }

  lemma {:induction false} NothingConcludes(s: State, events: seq<Event>, id: nat)
    requires !EligibleIn(s.rows, id) && !IsHeld(s, id)
    ensures !ConcludesAlong(s, events, id) && !Pending(Run(s, events), id)
    decreases |events|
  {
    if events == [] {
      forall w: nat ensures !AtWork(s, w, id) {
        assert !HoldsAt(s, w, 0, id);
      }
    } else {
      var e := events[0];
      assert !HoldsAt(s, e.w, 0, id);
      UnheldStep(s, e, id);
      NothingConcludes(Step(s, e), events[1..], id);
    }
  }

  /** Over every run in which no two batches share it: a donation that ends up failed was never
      accepted, unless a batch lost what it had to write down of its acceptance. */
  lemma FailedWasAcceptedIff(rows: Rows, events: seq<Event>, id: nat)
    requires EligibleIn(rows, id) && NotShared(Fresh(rows), events, id)
    requires id in Run(Fresh(rows), events).rows && Run(Fresh(rows), events).rows[id].status == Failed
    ensures Times(Run(Fresh(rows), events).accepted, id) > 0 <==> LosesAlong(Fresh(rows), events, id, Record)
  {
    AcceptedIff(Fresh(rows), events, id);
    ConcludesIsLoss(Fresh(rows), events, id);
  }

  /** Accepted at most once, and if so either not yet written down or out of the queue. */
  ghost predicate WrittenDown(s: State, id: nat) {
    Times(s.accepted, id) == 0 || (Times(s.accepted, id) == 1 && (Pending(s, id) || LeftQueue(s, id)))
  }

  lemma StepKeepsWrittenDown(s: State, e: Event, id: nat)
    requires Sole(s, id) && id in s.rows && WrittenDown(s, id) && !Loses(s, e, id, Record)
    ensures WrittenDown(Step(s, e), id)
  {
    AcceptedStep(s, e, id);
    if LeftQueue(s, id) { LeftUnheld(s, id); }
    if e.Advance? && !Idle(s, e.w) {
      TimesSnoc(s.accepted, Head(s, e.w).id, id);
      assert Head(s, e.w).id == id ==> HoldsAt(s, e.w, 0, id);
    }
  }

  lemma {:induction false} RunKeepsWrittenDown(s: State, events: seq<Event>, id: nat)
    requires Sole(s, id) && id in s.rows && WrittenDown(s, id)
    requires NotShared(s, events, id) && !LosesAlong(s, events, id, Record)
    ensures WrittenDown(Run(s, events), id)
    decreases |events|
  {
    if events != [] {
      StepKeepsSole(s, events[0], id);
      StepKeepsWrittenDown(s, events[0], id);
      RunKeepsWrittenDown(Step(s, events[0]), events[1..], id);
    }
  }

  /** What the job can do about a second acceptance: keep batches apart, and not lose the record. */
  lemma UnsharedAcceptedOnce(rows: Rows, events: seq<Event>, id: nat)
    requires id in rows && NotShared(Fresh(rows), events, id) && !LosesAlong(Fresh(rows), events, id, Record)
    ensures Times(Run(Fresh(rows), events).accepted, id) <= 1
  {
    RunKeepsWrittenDown(Fresh(rows), events, id);
  }

  // ------------------------------------------- one batch on its own is DonationQueue's

  /** How the statements of the catch branch answer. */
  function CatchAnswers(w: nat, read: nat, c: Catch): seq<Event> {
    match c
    case CountThrows => [Advance(w, false)]
    case Completes => [Advance(w, true)] + if read + 1 >= MAX_QUEUE_ATTEMPTS then [Advance(w, true)] else []
    case MarkThrows => [Advance(w, true)] + if read + 1 >= MAX_QUEUE_ATTEMPTS then [Advance(w, false)] else []
  }

  /** How the statements for one donation answer. */
  function Answers(w: nat, read: nat, outcome: Outcome): seq<Event> {
    match outcome
    case Accepted(hash) => [Advance(w, true, hash)] + [Advance(w, true)]
    case Unrecorded(hash, c) => [Advance(w, true, hash)] + ([Advance(w, false)] + CatchAnswers(w, read, c))
    case Rejected(c) => [Advance(w, false)] + CatchAnswers(w, read, c)
  }

  /** The batch is past the donation, or left by an exception. */
  function Leaves(s: State, w: nat, rows: Rows, threw: bool): State
    requires !Idle(s, w)
  {
    s.(rows := rows, workers := s.workers[w := Worker(if threw then [] else s.workers[w].left[1..], Unsent)])
  }

  lemma CatchOnItsOwn(s: State, w: nat, outcome: Outcome)
    requires !Idle(s, w) && s.workers[w].stage.Caught? && !outcome.Accepted?
    requires Head(s, w).id in s.rows && s.rows[Head(s, w).id].attempts == Head(s, w).read
    ensures var h := Head(s, w);
            Run(s, CatchAnswers(w, h.read, outcome.handled))
            == Leaves(s, w, s.rows[h.id := Attempted(s.rows[h.id], outcome)], Throws(s.rows[h.id], outcome))
  {
    var h, t := Head(s, w), Step(s, Advance(w, true));
    match outcome.handled {
      case CountThrows =>
        RunOn(s, Advance(w, false), []);
        assert [Advance(w, false)] + [] == [Advance(w, false)];
        assert s.rows[h.id := s.rows[h.id]] == s.rows;
      case _ =>
        var e := Advance(w, outcome.handled.Completes?);
        if h.read + 1 >= MAX_QUEUE_ATTEMPTS {
          RunOn(s, Advance(w, true), [e]);
          RunOn(t, e, []);
          assert [e] + [] == [e];
        } else {
          RunOn(s, Advance(w, true), []);
        }
    }
  }

  /** Unless another batch moves in between, what a batch does with a donation whose count it read is
      what DonationQueue says of one attempt, whichever statements throw. */
  lemma OnItsOwn(s: State, w: nat, outcome: Outcome)
    requires !Idle(s, w) && s.workers[w].stage.Unsent?
    requires Head(s, w).id in s.rows && s.rows[Head(s, w).id].attempts == Head(s, w).read
    ensures var h := Head(s, w);
            Run(s, Answers(w, h.read, outcome))
            == Leaves(s, w, s.rows[h.id := Attempted(s.rows[h.id], outcome)], Throws(s.rows[h.id], outcome))
               .(accepted := s.accepted + if outcome.Rejected? then [] else [h.id])
  {
    var h := Head(s, w);
    match outcome {
      case Accepted(hash) =>
        var t := Step(s, Advance(w, true, hash));
        RunOn(s, Advance(w, true, hash), [Advance(w, true)]);
        RunOn(t, Advance(w, true), []);
        assert [Advance(w, true)] + [] == [Advance(w, true)];
      case Unrecorded(hash, c) =>
        var t := Step(s, Advance(w, true, hash));
        var u := Step(t, Advance(w, false));
        RunOn(s, Advance(w, true, hash), [Advance(w, false)] + CatchAnswers(w, h.read, c));
        RunOn(t, Advance(w, false), CatchAnswers(w, h.read, c));
        CatchOnItsOwn(u, w, outcome);
      case Rejected(c) =>
        RunOn(s, Advance(w, false), CatchAnswers(w, h.read, c));
        CatchOnItsOwn(Step(s, Advance(w, false)), w, outcome);
        assert s.accepted + [] == s.accepted;
    }
  }

  // ----------------------------------------------------------------------- examples

  lemma RunSix(s: State, a: Event, b: Event, c: Event, d: Event, e: Event, f: Event)
    ensures Run(s, [a, b, c, d, e, f]) == Step(Step(Step(Step(Step(Step(s, a), b), c), d), e), f)
  {
    var t := Step(Step(Step(s, a), b), c);
    RunOn(s, a, [b, c, d, e, f]);
    RunOn(Step(s, a), b, [c, d, e, f]);
    RunOn(Step(Step(s, a), b), c, [d, e, f]);
    RunOn(t, d, [e, f]);
    RunOn(Step(t, d), e, [f]);
    RunOn(Step(Step(t, d), e), f, []);
    assert [a] + [b, c, d, e, f] == [a, b, c, d, e, f] && [b] + [c, d, e, f] == [b, c, d, e, f];
    assert [c] + [d, e, f] == [c, d, e, f] && [d] + [e, f] == [d, e, f] && [e] + [f] == [e, f] && [f] + [] == [f];
  }

  /** Two batches that overlap have it accepted twice; both record it, and the later hash stays. */
  lemma OverlapSubmitsTwice(rows: Rows, id: nat, a: string, b: string)
    requires EligibleIn(rows, id)
    ensures var s := Run(Fresh(rows), [Query(0, [id]), Query(1, [id]), Advance(0, true, a), Advance(1, true, b),
                                       Advance(0, true), Advance(1, true)]);
            && s.accepted == [id, id]
            && s.rows == rows[id := rows[id].(status := Submitted(b), attempts := rows[id].attempts + 2)]
  {
    RunSix(Fresh(rows), Query(0, [id]), Query(1, [id]), Advance(0, true, a), Advance(1, true, b),
           Advance(0, true), Advance(1, true));
  }

  /** One batch takes the donation up on its own, and its statements answer like this. */
  function Lone(rows: Rows, id: nat, outcome: Outcome): seq<Event>
    requires id in rows
  {
    [Query(0, [id])] + Answers(0, rows[id].attempts, outcome)
  }

  lemma AfterLone(rows: Rows, id: nat, outcome: Outcome)
    requires EligibleIn(rows, id)
    ensures Run(Fresh(rows), Lone(rows, id, outcome))
            == State(rows[id := Attempted(rows[id], outcome)], map[0 := Worker([], Unsent)],
                     if outcome.Rejected? then [] else [id])
  {
    var s := Step(Fresh(rows), Query(0, [id]));
    assert s.workers[0].left == [Held(id, rows[id].attempts)] && s.workers[0].left[1..] == [];
    assert s.workers[0 := Worker([], Unsent)] == map[0 := Worker([], Unsent)];
    RunOn(Fresh(rows), Query(0, [id]), Answers(0, rows[id].attempts, outcome));
    OnItsOwn(s, 0, outcome);
    assert Fresh(rows).accepted + [id] == [id] && Fresh(rows).accepted + [] == [];
  }

  /** One batch, whose record of the acceptance throws and is counted as a failed attempt: the network
      can be made to accept it again exactly if that was not the last attempt. */
  lemma UnrecordedSubmitsTwiceIff(rows: Rows, id: nat, hash: string)
    requires EligibleIn(rows, id)
    ensures var s := Run(Fresh(rows), Lone(rows, id, Unrecorded(hash, Completes)));
            && s.accepted == [id]
            && ((exists more :: Times(Run(s, more).accepted, id) > Times(s.accepted, id))
                <==> rows[id].attempts + 1 < MAX_QUEUE_ATTEMPTS)
  {
    AfterLone(rows, id, Unrecorded(hash, Completes));
    MoreAcceptancesIff(Run(Fresh(rows), Lone(rows, id, Unrecorded(hash, Completes))), id);
  }

  /** One batch on its own strands a donation exactly when the network rejects the last attempt, or its
      record throws, and then the statement that marks the donation failed throws. */
  lemma LoneStrandsIff(rows: Rows, id: nat, outcome: Outcome)
    requires EligibleIn(rows, id)
    ensures QueuedForGood(Run(Fresh(rows), Lone(rows, id, outcome)), id) <==> Unmarked(rows[id], outcome)
  {
    AfterLone(rows, id, outcome);
    QueuedForGoodIff(Run(Fresh(rows), Lone(rows, id, outcome)), id);
  }

  function BothFail(id: nat): seq<Event> {
    [Query(0, [id]), Query(1, [id]), Advance(0, false), Advance(1, false), Advance(0, true), Advance(1, true)]
  }

  lemma AfterBothFail(rows: Rows, id: nat)
    requires EligibleIn(rows, id)
    ensures var s := Run(Fresh(rows), BothFail(id));
            && s.rows == rows[id := rows[id].(attempts := rows[id].attempts + 2)]
            && s.workers.Keys == {0, 1}
            && forall w :: w in s.workers ==>
                 s.workers[w] == if rows[id].attempts == 9 then Worker([Held(id, 9)], Counted) else Worker([], Unsent)
  {
    RunSix(Fresh(rows), Query(0, [id]), Query(1, [id]), Advance(0, false), Advance(1, false),
           Advance(0, true), Advance(1, true));
  }

  /** Two batches that both read the count of a donation, fail and count an attempt strand it exactly
      when it stood at eight: ten attempts, and neither marks it. */
  lemma OverlapStrands(rows: Rows, id: nat)
    requires EligibleIn(rows, id)
    ensures QueuedForGood(Run(Fresh(rows), BothFail(id)), id) <==> rows[id].attempts == 8
  {
    var s := Run(Fresh(rows), BothFail(id));
    AfterBothFail(rows, id);
    QueuedForGoodIff(s, id);
    assert rows[id].attempts == 9 ==> CanSettleAt(s, 0, 0, id);
  }

  /** Two batches at the last attempt: one records its acceptance, then the other, rejected, counts an
      eleventh attempt and marks the submitted donation failed. */
  lemma SubmittedTurnsFailed(rows: Rows, id: nat)
    requires EligibleIn(rows, id) && rows[id].attempts == 9
    ensures var s := Run(Fresh(rows), [Query(0, [id]), Query(1, [id]), Advance(0, true), Advance(0, true),
                                       Advance(1, false), Advance(1, true)]);
            && s.accepted == [id]
            && Step(s, Advance(1, true)).rows == rows[id := rows[id].(status := Failed, attempts := 11)]
  {
    RunSix(Fresh(rows), Query(0, [id]), Query(1, [id]), Advance(0, true), Advance(0, true),
           Advance(1, false), Advance(1, true));
  }
}
