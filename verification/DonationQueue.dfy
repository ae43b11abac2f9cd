/**
 * Draining the queue of donations accepted while Horizon was unreachable: oldest-first batches,
 * at most ten attempts each. Any statement can throw, and one in the catch branch ends its batch.
 * Runs of processBatch do not overlap here; QueueOverlap lets them.
 */
module DonationQueue {

  const MAX_QUEUE_ATTEMPTS: nat := 10

  datatype Status = Queued | Submitted(hash: string) | Failed | Other

  datatype Row = Row(status: Status, attempts: nat, queuedAt: int, deleted: bool)

  type Rows = map<nat, Row>

  /** How the catch branch went: its update of the attempts or the one that marks the donation failed
      can throw, and the exception then leaves the batch. */
  datatype Catch = Completes | CountThrows | MarkThrows

  /** What submitting one donation came to: accepted and recorded, accepted by the network with the
      update of its row failing inside the same try, or rejected. */
  datatype Outcome = Accepted(hash: string) | Unrecorded(hash: string, handled: Catch) | Rejected(handled: Catch)

  /** The WHERE clause of the batch query. */
  predicate Eligible(row: Row) {
    row.status == Queued && row.attempts < MAX_QUEUE_ATTEMPTS && !row.deleted
  }

  predicate EligibleIn(rows: Rows, id: nat) {
    id in rows && Eligible(rows[id])
  }

  ghost predicate Distinct(s: seq<nat>) {
    forall i, j :: 0 <= i < j < |s| ==> s[i] != s[j]
  }

  /** An answer the batch query may give: ORDER BY queuedAt ASC LIMIT batchSize, ties in any order. */
  ghost predicate IsOldestBatch(rows: Rows, batchSize: nat, batch: seq<nat>) {
    && |batch| <= batchSize
    && Distinct(batch)
    && (forall id :: id in batch ==> EligibleIn(rows, id))
    && (forall i, j :: 0 <= i < j < |batch| ==>
          batch[i] in rows && batch[j] in rows && rows[batch[i]].queuedAt <= rows[batch[j]].queuedAt)
    && (forall id :: EligibleIn(rows, id) && id !in batch ==>
          && |batch| == batchSize
          && forall b :: b in batch ==> rows[b].queuedAt <= rows[id].queuedAt)
  }

  /** Both updates of the catch branch, given the attempts the batch query had read. */
  function Retried(row: Row, attemptsRead: nat): Row {
    var counted := row.(attempts := row.attempts + 1);
    if attemptsRead + 1 >= MAX_QUEUE_ATTEMPTS then counted.(status := Failed) else counted
  }

  /** What of that is done when one of them throws. */
  function AfterCatch(row: Row, attemptsRead: nat, c: Catch): Row {
    match c
    case Completes => Retried(row, attemptsRead)
    case CountThrows => row
    case MarkThrows => row.(attempts := row.attempts + 1)
  }

  function Attempted(row: Row, outcome: Outcome): Row {
    if outcome.Accepted? then row.(status := Submitted(outcome.hash), attempts := row.attempts + 1)
    else AfterCatch(row, row.attempts, outcome.handled)
  }

  /** The last attempt is counted, and marking the donation failed throws. */
  predicate Unmarked(row: Row, outcome: Outcome) {
    !outcome.Accepted? && outcome.handled.MarkThrows? && row.attempts + 1 >= MAX_QUEUE_ATTEMPTS
  }

  predicate Throws(row: Row, outcome: Outcome) {
    (!outcome.Accepted? && outcome.handled.CountThrows?) || Unmarked(row, outcome)
  }

  /** The donations a batch comes to: all, or those up to the first whose catch branch throws. */
  function Tried(rows: Rows, batch: seq<nat>, outcomes: nat -> Outcome): seq<nat> {
    if batch == [] then []
    else if batch[0] in rows && Throws(rows[batch[0]], outcomes(batch[0])) then [batch[0]]
    else [batch[0]] + Tried(rows, batch[1..], outcomes)
  }

  function AfterBatch(rows: Rows, batch: seq<nat>, outcomes: nat -> Outcome): Rows {
    map id | id in rows :: if id in batch then Attempted(rows[id], outcomes(id)) else rows[id]
  }

  predicate ThrowsAt(rows: Rows, batch: seq<nat>, outcomes: nat -> Outcome, i: nat)
    requires i < |batch|
  {
    batch[i] in rows && Throws(rows[batch[i]], outcomes(batch[i]))
  }

  lemma {:induction false} TriedIs(rows: Rows, batch: seq<nat>, outcomes: nat -> Outcome, n: nat)
    requires n <= |batch| && forall i :: 0 <= i < n ==> !ThrowsAt(rows, batch, outcomes, i)
    ensures n == |batch| ==> Tried(rows, batch, outcomes) == batch
    ensures n < |batch| && ThrowsAt(rows, batch, outcomes, n) ==> Tried(rows, batch, outcomes) == batch[..n + 1]
    decreases n
  {
    if n > 0 {
      assert !ThrowsAt(rows, batch, outcomes, 0);
      forall i | 0 <= i < n - 1 ensures !ThrowsAt(rows, batch[1..], outcomes, i) {
        assert !ThrowsAt(rows, batch, outcomes, i + 1);
      }
      TriedIs(rows, batch[1..], outcomes, n - 1);
      assert n < |batch| ==> [batch[0]] + batch[1..][..n] == batch[..n + 1];
      assert [batch[0]] + batch[1..] == batch;
      assert n < |batch| ==> (ThrowsAt(rows, batch[1..], outcomes, n - 1) <==> ThrowsAt(rows, batch, outcomes, n));
    }
  }

  /** The batch comes to its end. */
  predicate RunsThrough(rows: Rows, batch: seq<nat>, outcomes: nat -> Outcome) {
    forall i :: 0 <= i < |batch| ==> !ThrowsAt(rows, batch, outcomes, i)
  }

  lemma {:induction false} TriedInBatch(rows: Rows, batch: seq<nat>, outcomes: nat -> Outcome, id: nat)
    requires id in Tried(rows, batch, outcomes)
    ensures id in batch
  {
    if id != batch[0] {
      TriedInBatch(rows, batch[1..], outcomes, id);
    }
  }

  /** A batch processes its donations one by one, each once. */
  lemma AfterOneMore(rows: Rows, batch: seq<nat>, outcomes: nat -> Outcome, i: nat)
    requires i < |batch| && Distinct(batch) && batch[i] in rows
    ensures AfterBatch(rows, batch[..i], outcomes)[batch[i]] == rows[batch[i]]
    ensures AfterBatch(rows, batch[..i + 1], outcomes)
            == AfterBatch(rows, batch[..i], outcomes)[batch[i] := Attempted(rows[batch[i]], outcomes(batch[i]))]
  {
    var a, b := AfterBatch(rows, batch[..i + 1], outcomes), AfterBatch(rows, batch[..i], outcomes);
    forall id | id in rows && id != batch[i] ensures a[id] == b[id] {
      assert id in batch[..i + 1] <==> id in batch[..i] by {
        assert batch[..i + 1] == batch[..i] + [batch[i]];
      }
    }
  }

  /** The donation's row after its attempt: with the hash the network gave once that is recorded; counted
      after a failure, and failed at the tenth; the same if not even the count is written. */
  predicate IsRecorded(was: Row, got: Row, outcome: Outcome) {
    && got.queuedAt == was.queuedAt && got.deleted == was.deleted
    && match outcome
       case Accepted(hash) => got.status == Submitted(hash) && got.attempts == was.attempts + 1
       case _ =>
         if outcome.handled.CountThrows? then got == was
         else
           && got.attempts == was.attempts + 1
           && got.status == if outcome.handled.Completes? && was.attempts + 1 == 10 then Failed else Queued
  }

  /** The exception of the catch branch leaves the batch: the count throws, or the mark after the tenth
      attempt does. */
  predicate Leaves(was: Row, outcome: Outcome) {
    !outcome.Accepted? && (outcome.handled.CountThrows? || (outcome.handled.MarkThrows? && was.attempts + 1 == 10))
  }

  /** Every donation of a batch is recorded as its attempt went until one makes the batch throw, that one
      included; those after it keep their rows. */
  lemma BatchMeans(rows: Rows, batchSize: nat, batch: seq<nat>, outcomes: nat -> Outcome, i: nat)
    requires IsOldestBatch(rows, batchSize, batch) && i < |batch|
    ensures batch[i] in rows
    ensures var after := AfterBatch(rows, Tried(rows, batch, outcomes), outcomes);
            && batch[i] in after
            && if forall j :: 0 <= j < i ==> batch[j] in rows && !Leaves(rows[batch[j]], outcomes(batch[j]))
               then IsRecorded(rows[batch[i]], after[batch[i]], outcomes(batch[i]))
               else after[batch[i]] == rows[batch[i]]
  {
    assert forall j :: 0 <= j < |batch| ==> batch[j] in batch && EligibleIn(rows, batch[j]);
    assert forall j :: 0 <= j < |batch| ==>
      (ThrowsAt(rows, batch, outcomes, j) <==> Leaves(rows[batch[j]], outcomes(batch[j])));
    TriedUpTo(rows, batch, outcomes, i);
  }

  predicate NoneThrows(rows: Rows, batch: seq<nat>, outcomes: nat -> Outcome, n: nat)
    requires n <= |batch|
  {
    forall j :: 0 <= j < n ==> !ThrowsAt(rows, batch, outcomes, j)
  }

  lemma NoneThrowsHead(rows: Rows, batch: seq<nat>, outcomes: nat -> Outcome, n: nat)
    requires 0 < n <= |batch|
    ensures NoneThrows(rows, batch, outcomes, n)
            <==> !ThrowsAt(rows, batch, outcomes, 0) && NoneThrows(rows, batch[1..], outcomes, n - 1)
  {
    forall j | 0 <= j < n - 1
      ensures ThrowsAt(rows, batch[1..], outcomes, j) <==> ThrowsAt(rows, batch, outcomes, j + 1)
    {
    }
    forall j | 0 < j < n
      ensures ThrowsAt(rows, batch, outcomes, j) <==> ThrowsAt(rows, batch[1..], outcomes, j - 1)
    {
    }
  }

  lemma {:induction false} TriedUpTo(rows: Rows, batch: seq<nat>, outcomes: nat -> Outcome, i: nat)
    requires Distinct(batch) && i < |batch|
    ensures batch[i] in Tried(rows, batch, outcomes) <==> NoneThrows(rows, batch, outcomes, i)
    decreases i
  {
    if i > 0 {
      assert batch[1..][i - 1] == batch[i] && batch[i] != batch[0];
      TriedUpTo(rows, batch[1..], outcomes, i - 1);
      NoneThrowsHead(rows, batch, outcomes, i);
    }
  }

  /** No batch touches a donation that is not queued, is deleted, or has had ten attempts, nor one that
      it was not given. */
  lemma BatchTouchesOnly(rows: Rows, batchSize: nat, batch: seq<nat>, outcomes: nat -> Outcome, id: nat)
    requires IsOldestBatch(rows, batchSize, batch) && id in rows
    requires rows[id].status != Queued || rows[id].deleted || rows[id].attempts >= 10 || id !in batch
    ensures var after := AfterBatch(rows, Tried(rows, batch, outcomes), outcomes);
            after.Keys == rows.Keys && after[id] == rows[id]
  {
    if id in Tried(rows, batch, outcomes) {
      TriedInBatch(rows, batch, outcomes, id);
    }
  }

  function CountAccepted(batch: seq<nat>, outcomes: nat -> Outcome): nat {
    if batch == [] then 0
    else CountAccepted(batch[..|batch| - 1], outcomes) + if outcomes(batch[|batch| - 1]).Accepted? then 1 else 0
  }

  lemma CountOneMore(batch: seq<nat>, outcomes: nat -> Outcome, i: nat)
    requires i < |batch|
    ensures CountAccepted(batch[..i + 1], outcomes)
            == CountAccepted(batch[..i], outcomes) + if outcomes(batch[i]).Accepted? then 1 else 0
  {
    assert batch[..i + 1][..i] == batch[..i];
  }

  /** Where among the first n the donation was accepted and recorded. */
  function AcceptedAt(batch: seq<nat>, outcomes: nat -> Outcome, n: nat): set<nat>
    requires n <= |batch|
  {
    set i: nat | i < n && outcomes(batch[i]).Accepted?
  }

  lemma {:induction false} CountUpTo(batch: seq<nat>, outcomes: nat -> Outcome, n: nat)
    requires n <= |batch|
    ensures CountAccepted(batch[..n], outcomes) == |AcceptedAt(batch, outcomes, n)|
    decreases n
  {
    if n > 0 {
      CountUpTo(batch, outcomes, n - 1);
      CountOneMore(batch, outcomes, n - 1);
      var before := AcceptedAt(batch, outcomes, n - 1);
      assert AcceptedAt(batch, outcomes, n) == if outcomes(batch[n - 1]).Accepted? then before + {n - 1} else before;
    }
  }

  /** The count is the number of the batch's donations that were accepted and recorded. */
  lemma CountAcceptedIs(batch: seq<nat>, outcomes: nat -> Outcome)
    ensures CountAccepted(batch, outcomes) == |set i: nat | i < |batch| && outcomes(batch[i]).Accepted?|
  {
    CountUpTo(batch, outcomes, |batch|);
    assert batch[..|batch|] == batch;
    assert AcceptedAt(batch, outcomes, |batch|) == set i: nat | i < |batch| && outcomes(batch[i]).Accepted?;
  }

  class Database {
    var rows: Rows

    constructor ()
      ensures rows == map[]
    {
      rows := map[];
    }

    /** Submitting one donation and recording how it went; an exception in the catch branch leaves. */
    method ProcessOne(id: nat, outcome: Outcome) returns (threw: bool)
      requires id in rows
      modifies this
      ensures rows == old(rows)[id := Attempted(old(rows)[id], outcome)]
      ensures threw <==> Throws(old(rows)[id], outcome)
    {
      var read := rows[id].attempts;
      if outcome.Accepted? {
        rows := rows[id := rows[id].(status := Submitted(outcome.hash), attempts := rows[id].attempts + 1)];
        return false;
      }
      if outcome.handled.CountThrows? {
        return true;
      }
      rows := rows[id := rows[id].(attempts := rows[id].attempts + 1)];
      if read + 1 >= MAX_QUEUE_ATTEMPTS {
        if outcome.handled.MarkThrows? {
          return true;
        }
        rows := rows[id := rows[id].(status := Failed)];
      }
      threw := false;
    }

    /** One batch: `batch` is what the query answered, `outcomes` what network and database do. The
        counts mean nothing when it throws. */
    method ProcessBatch(breakerOpen: bool, batchSize: nat, batch: seq<nat>, outcomes: nat -> Outcome)
      returns (threw: bool, processed: nat, succeeded: nat, failed: nat)
      requires IsOldestBatch(rows, batchSize, batch)
      modifies this
      ensures breakerOpen ==> rows == old(rows) && !threw && processed == succeeded == failed == 0
      ensures !breakerOpen ==>
                && rows == AfterBatch(old(rows), Tried(old(rows), batch, outcomes), outcomes)
                && (threw <==> !RunsThrough(old(rows), batch, outcomes))
      ensures !breakerOpen && !threw ==>
                && processed == |batch| == succeeded + failed
                && succeeded == CountAccepted(batch, outcomes)
    {
      threw, processed, succeeded, failed := false, 0, 0, 0;
      if breakerOpen {
        return;
      }
      for i := 0 to |batch|
        invariant !threw
        invariant rows == AfterBatch(old(rows), batch[..i], outcomes)
        invariant forall j :: 0 <= j < i ==> !ThrowsAt(old(rows), batch, outcomes, j)
        invariant succeeded + failed == i
        invariant succeeded == CountAccepted(batch[..i], outcomes)
      {
        var id := batch[i];
        assert id in batch && EligibleIn(old(rows), id);
        AfterOneMore(old(rows), batch, outcomes, i);
        threw := ProcessOne(id, outcomes(id));
        assert rows == AfterBatch(old(rows), batch[..i + 1], outcomes);
        assert threw <==> ThrowsAt(old(rows), batch, outcomes, i);
        if threw {
          TriedIs(old(rows), batch, outcomes, i);
          return;
        }
        CountOneMore(batch, outcomes, i);
        if outcomes(id).Accepted? {
          succeeded := succeeded + 1;
        } else {
          failed := failed + 1;
        }
      }
      TriedIs(old(rows), batch, outcomes, |batch|);
      assert batch[..|batch|] == batch;
      processed := |batch|;
    }
  }

  // -------------------------------------------------------------- bounded retries

  /** No attempt count exceeds ten, and nothing is left queued at ten. */
  ghost predicate Bounded(rows: Rows) {
    forall id :: id in rows ==>
      && rows[id].attempts <= MAX_QUEUE_ATTEMPTS
      && (rows[id].status == Queued ==> rows[id].attempts < MAX_QUEUE_ATTEMPTS)
  }

  /** A batch keeps that exactly when none of its donations goes unmarked after its last attempt. */
  lemma BatchKeepsBoundedIff(rows: Rows, batchSize: nat, batch: seq<nat>, outcomes: nat -> Outcome)
    requires Bounded(rows) && IsOldestBatch(rows, batchSize, batch)
    ensures Bounded(AfterBatch(rows, Tried(rows, batch, outcomes), outcomes)) <==> AllMarked(rows, batch, outcomes)
  {
    var tried := Tried(rows, batch, outcomes);
    var after := AfterBatch(rows, tried, outcomes);
    forall id | id in tried ensures EligibleIn(rows, id) {
      TriedInBatch(rows, batch, outcomes, id);
    }
    forall id | id in tried
      ensures after[id].attempts <= MAX_QUEUE_ATTEMPTS
      ensures (after[id].status == Queued && after[id].attempts >= MAX_QUEUE_ATTEMPTS)
              <==> Unmarked(rows[id], outcomes(id))
    {
      assert EligibleIn(rows, id);
    }
    if Bounded(after) {
      forall id | id in tried && id in rows ensures !Unmarked(rows[id], outcomes(id)) {
        assert id in after;
      }
    }
  }

  ghost predicate AllMarked(rows: Rows, batch: seq<nat>, outcomes: nat -> Outcome) {
    forall id :: id in Tried(rows, batch, outcomes) && id in rows ==> !Unmarked(rows[id], outcomes(id))
  }

  /** What other writers do to the table after round i respects the bound. */
  ghost predicate OthersKeepBound(rounds: seq<Round>, final: Rows, i: nat)
    requires i < |rounds|
  {
    Bounded(After(rounds[i])) ==> Bounded(if i + 1 < |rounds| then rounds[i + 1].before else final)
  }

  ghost predicate RoundMarks(r: Round) { AllMarked(r.before, r.batch, r.outcomes) }

  /** Over every run whose other writers keep to the bound, whatever else throws: unless the statement
      that marks a donation failed does, no donation is ever tried an eleventh time or left queued with
      no attempts, and getQueueDepth counts only donations still to be tried. */
  lemma {:induction false} RunStaysBounded(rounds: seq<Round>, final: Rows, batchSize: nat, t: int)
    requires IsRun(rounds, final, batchSize, t) && Bounded(First(rounds, final))
    requires forall i :: 0 <= i < |rounds| ==> OthersKeepBound(rounds, final, i) && RoundMarks(rounds[i])
    ensures Bounded(final)
    ensures forall id :: id in final && final[id].status == Queued && !final[id].deleted ==> Eligible(final[id])
    decreases |rounds|
  {
    if rounds != [] {
      BatchKeepsBoundedIff(rounds[0].before, batchSize, rounds[0].batch, rounds[0].outcomes);
      var rest := rounds[1..];
      assert OthersKeepBound(rounds, final, 0) && RoundMarks(rounds[0]);
      forall i | 0 <= i < |rest| ensures OthersKeepBound(rest, final, i) && RoundMarks(rest[i]) {
        assert OthersKeepBound(rounds, final, i + 1) && RoundMarks(rounds[i + 1]);
      }
      RunStaysBounded(rest, final, batchSize, t);
    }
  }

  // ---------------------------------------------------------------- no starvation

  /** Between two batches: at or before instant `t` nothing joins the queue, and no attempt count
      goes back. Newer donations may arrive, and any donation may leave. */
  ghost predicate QuietUpTo(a: Rows, b: Rows, t: int) {
    forall id :: EligibleIn(b, id) && b[id].queuedAt <= t ==>
      EligibleIn(a, id) && a[id].queuedAt == b[id].queuedAt && a[id].attempts <= b[id].attempts
  }

  datatype Round = Round(before: Rows, batch: seq<nat>, outcomes: nat -> Outcome)

  function After(r: Round): Rows { AfterBatch(r.before, Tried(r.before, r.batch, r.outcomes), r.outcomes) }

  predicate Completed(r: Round) { RunsThrough(r.before, r.batch, r.outcomes) }

  function Completions(rounds: seq<Round>): nat {
    if rounds == [] then 0 else (if Completed(rounds[0]) then 1 else 0) + Completions(rounds[1..])
  }

  /** Successive batches with the breaker closed, and the table after the last of them. */
  ghost predicate IsRun(rounds: seq<Round>, final: Rows, batchSize: nat, t: int)
    decreases |rounds|
  {
    rounds == []
    || (&& IsOldestBatch(rounds[0].before, batchSize, rounds[0].batch)
        && QuietUpTo(After(rounds[0]), if |rounds| > 1 then rounds[1].before else final, t)
        && IsRun(rounds[1..], final, batchSize, t))
  }

  /** Attempts a donation still has if it is queued at or before `t`. */
  function Left(rows: Rows, id: nat, t: int): nat {
    if id in rows && Eligible(rows[id]) && rows[id].queuedAt <= t then MAX_QUEUE_ATTEMPTS - rows[id].attempts else 0
  }

  function TotalLeft(rows: Rows, ids: seq<nat>, t: int): nat {
    if ids == [] then 0 else Left(rows, ids[0], t) + TotalLeft(rows, ids[1..], t)
  }

  /** How many of `ids` are in the set. */
  function Hits(ids: seq<nat>, s: set<nat>): nat {
    if ids == [] then 0 else (if ids[0] in s then 1 else 0) + Hits(ids[1..], s)
  }

  lemma {:induction false} HitsCoverSet(ids: seq<nat>, s: set<nat>)
    requires forall x :: x in s ==> x in ids
    ensures Hits(ids, s) >= |s|
  {
    if ids == [] {
      assert s == {};
    } else {
      var s' := s - {ids[0]};
      forall x | x in s' ensures x in ids[1..] { assert x in ids; }
      HitsCoverSet(ids[1..], s');
      HitsMonotone(ids[1..], s', s);
      assert s <= s' + {ids[0]};
      assert ids[0] in s ==> |s'| == |s| - 1;
      assert ids[0] !in s ==> s' == s;
    }
  }

  lemma {:induction false} HitsMonotone(ids: seq<nat>, a: set<nat>, b: set<nat>)
    requires a <= b
    ensures Hits(ids, a) <= Hits(ids, b)
  {
    if ids != [] {
      HitsMonotone(ids[1..], a, b);
    }
  }

  function Elements(s: seq<nat>): set<nat> { set x | x in s }

  lemma {:induction false} DistinctSize(s: seq<nat>)
    requires Distinct(s)
    ensures |Elements(s)| == |s|
  {
    if s != [] {
      DistinctSize(s[1..]);
      assert s == [s[0]] + s[1..];
      assert Elements(s) == {s[0]} + Elements(s[1..]);
      assert s[0] !in Elements(s[1..]);
    }
  }

  lemma NoAttemptBack(r: Round, next: Rows, batchSize: nat, id: nat, t: int)
    requires IsOldestBatch(r.before, batchSize, r.batch) && QuietUpTo(After(r), next, t)
    ensures Left(next, id, t) <= Left(r.before, id, t)
  {
    if EligibleIn(next, id) && next[id].queuedAt <= t {
      assert EligibleIn(After(r), id);
    }
  }

  /** A batch that ends counts an attempt of each of its donations, or takes it out of the queue. */
  lemma AttemptCounted(r: Round, id: nat)
    requires Completed(r) && id in r.batch && EligibleIn(r.before, id)
    ensures EligibleIn(After(r), id) ==> After(r)[id].attempts > r.before[id].attempts
  {
    TriedIs(r.before, r.batch, r.outcomes, |r.batch|);
    var i :| 0 <= i < |r.batch| && r.batch[i] == id;
    assert !ThrowsAt(r.before, r.batch, r.outcomes, i);
  }

  /** A round gives nobody attempts back, and uses up one of every donation in a batch that ends. */
  lemma RoundUsesAttempt(r: Round, next: Rows, batchSize: nat, id: nat, t: int)
    requires IsOldestBatch(r.before, batchSize, r.batch) && QuietUpTo(After(r), next, t)
    ensures Left(next, id, t) <= Left(r.before, id, t)
    ensures Completed(r) && id in r.batch && r.before[id].queuedAt <= t ==> Left(next, id, t) < Left(r.before, id, t)
  {
    NoAttemptBack(r, next, batchSize, id, t);
    if Completed(r) && id in r.batch {
      assert EligibleIn(r.before, id);
      AttemptCounted(r, id);
      assert EligibleIn(next, id) && next[id].queuedAt <= t ==> EligibleIn(After(r), id);
    }
  }

  lemma {:induction false} RoundUsesAttempts(r: Round, next: Rows, batchSize: nat, ids: seq<nat>, s: set<nat>, t: int)
    requires IsOldestBatch(r.before, batchSize, r.batch) && QuietUpTo(After(r), next, t)
    requires forall id :: id in s ==> Completed(r) && id in r.batch && r.before[id].queuedAt <= t
    ensures TotalLeft(next, ids, t) + Hits(ids, s) <= TotalLeft(r.before, ids, t)
  {
    if ids != [] {
      RoundUsesAttempt(r, next, batchSize, ids[0], t);
      RoundUsesAttempts(r, next, batchSize, ids[1..], s, t);
    }
  }

  /** `ids` lists every queued donation at least as old as d. */
  ghost predicate Covers(rows: Rows, ids: seq<nat>, d: nat, t: int) {
    forall id :: EligibleIn(rows, id) && rows[id].queuedAt <= t && id != d ==> id in ids
  }

  /** What stands between d and the end of its wait. */
  function Potential(rows: Rows, ids: seq<nat>, d: nat, batchSize: nat, t: int): nat {
    batchSize * Left(rows, d, t) + TotalLeft(rows, ids, t)
  }

  lemma CoversNext(r: Round, next: Rows, batchSize: nat, ids: seq<nat>, d: nat, t: int)
    requires IsOldestBatch(r.before, batchSize, r.batch) && QuietUpTo(After(r), next, t)
    requires Covers(r.before, ids, d, t)
    ensures Covers(next, ids, d, t)
  {
    forall id | EligibleIn(next, id) && next[id].queuedAt <= t && id != d ensures id in ids {
      assert EligibleIn(After(r), id);
      assert EligibleIn(r.before, id);
    }
  }

  lemma Scale(b: nat, x: nat, y: nat)
    requires x <= y
    ensures b * x <= b * y
  {
  }

  lemma ScaleStrictly(b: nat, x: nat, y: nat)
    requires x < y
    ensures b * x + b <= b * y
  {
    Scale(b, x + 1, y);
    assert b * (x + 1) == b * x + b;
  }

  /** A round that passes d over tries batchSize donations ahead of it. */
  lemma PassedOver(r: Round, next: Rows, batchSize: nat, ids: seq<nat>, d: nat, t: int)
    requires IsOldestBatch(r.before, batchSize, r.batch) && QuietUpTo(After(r), next, t)
    requires EligibleIn(r.before, d) && r.before[d].queuedAt == t && Covers(r.before, ids, d, t)
    requires Completed(r) && d !in r.batch
    ensures TotalLeft(next, ids, t) + batchSize <= TotalLeft(r.before, ids, t)
  {
    var s := Elements(r.batch);
    DistinctSize(r.batch);
    forall x | x in s ensures x in ids && x in r.batch && r.before[x].queuedAt <= t {
      assert EligibleIn(r.before, x);
    }
    HitsCoverSet(ids, s);
    RoundUsesAttempts(r, next, batchSize, ids, s, t);
  }

  /** A completed round brings d closer by a whole batch: either d is tried, or batchSize donations
      ahead of it are. */
  lemma RoundProgress(r: Round, next: Rows, batchSize: nat, ids: seq<nat>, d: nat, t: int)
    requires IsOldestBatch(r.before, batchSize, r.batch) && QuietUpTo(After(r), next, t)
    requires EligibleIn(r.before, d) && r.before[d].queuedAt == t && Covers(r.before, ids, d, t)
    ensures Potential(next, ids, d, batchSize, t) <= Potential(r.before, ids, d, batchSize, t)
    ensures Completed(r) ==>
              Potential(next, ids, d, batchSize, t) + batchSize <= Potential(r.before, ids, d, batchSize, t)
  {
    RoundUsesAttempt(r, next, batchSize, d, t);
    if !Completed(r) {
      RoundUsesAttempts(r, next, batchSize, ids, {}, t);
      Scale(batchSize, Left(next, d, t), Left(r.before, d, t));
    } else if d in r.batch {
      RoundUsesAttempts(r, next, batchSize, ids, {}, t);
      ScaleStrictly(batchSize, Left(next, d, t), Left(r.before, d, t));
    } else {
      PassedOver(r, next, batchSize, ids, d, t);
      Scale(batchSize, Left(next, d, t), Left(r.before, d, t));
    }
  }

  function First(rounds: seq<Round>, final: Rows): Rows {
    if rounds == [] then final else rounds[0].before
  }

  /** What the completed batches of a run take off a waiting donation's potential. */
  function Progress(rounds: seq<Round>, batchSize: nat): nat {
    if rounds == [] then 0 else (if Completed(rounds[0]) then batchSize else 0) + Progress(rounds[1..], batchSize)
  }

  lemma {:induction false} ProgressIs(rounds: seq<Round>, batchSize: nat)
    ensures Progress(rounds, batchSize) == Completions(rounds) * batchSize
  {
    if rounds != [] {
      ProgressIs(rounds[1..], batchSize);
      assert (Completions(rounds[1..]) + 1) * batchSize == Completions(rounds[1..]) * batchSize + batchSize;
    }
  }

  lemma StillWaiting(r: Round, next: Rows, batchSize: nat, d: nat, t: int)
    requires IsOldestBatch(r.before, batchSize, r.batch) && QuietUpTo(After(r), next, t)
    requires EligibleIn(next, d) && next[d].queuedAt == t
    ensures EligibleIn(r.before, d) && r.before[d].queuedAt == t
  {
    assert EligibleIn(After(r), d);
  }

  lemma {:induction false} RunProgress(rounds: seq<Round>, final: Rows, batchSize: nat, ids: seq<nat>, d: nat, t: int)
    requires IsRun(rounds, final, batchSize, t) && batchSize >= 1
    requires EligibleIn(final, d) && final[d].queuedAt == t
    requires Covers(First(rounds, final), ids, d, t)
    ensures EligibleIn(First(rounds, final), d) && First(rounds, final)[d].queuedAt == t
    ensures Potential(final, ids, d, batchSize, t) + Progress(rounds, batchSize)
            <= Potential(First(rounds, final), ids, d, batchSize, t)
    decreases |rounds|
  {
    if rounds != [] {
      var next := First(rounds[1..], final);
      assert next == if |rounds| > 1 then rounds[1].before else final;
      CoversNext(rounds[0], next, batchSize, ids, d, t);
      RunProgress(rounds[1..], final, batchSize, ids, d, t);
      StillWaiting(rounds[0], next, batchSize, d, t);
      RoundProgress(rounds[0], next, batchSize, ids, d, t);
    }
  }

  lemma {:induction false} TotalLeftAtMost(rows: Rows, ids: seq<nat>, t: int)
    ensures TotalLeft(rows, ids, t) <= MAX_QUEUE_ATTEMPTS * |ids|
  {
    if ids != [] {
      TotalLeftAtMost(rows, ids[1..], t);
    }
  }

  /** No starvation: a donation with `ids` the queued ones at least as old can no longer be picked once
      n batches of size b have come to their end with n * b >= 10 * (b + |ids|), however many newer ones
      arrive and however many batches throw in between. */
  lemma NoStarvation(rounds: seq<Round>, final: Rows, batchSize: nat, ids: seq<nat>, d: nat, t: int)
    requires batchSize >= 1 && IsRun(rounds, final, batchSize, t)
    requires Covers(First(rounds, final), ids, d, t)
    requires Completions(rounds) * batchSize >= MAX_QUEUE_ATTEMPTS * (batchSize + |ids|)
    ensures !(EligibleIn(final, d) && final[d].queuedAt == t)
  {
    if EligibleIn(final, d) && final[d].queuedAt == t {
      RunProgress(rounds, final, batchSize, ids, d, t);
      ProgressIs(rounds, batchSize);
      var first := First(rounds, final);
      TotalLeftAtMost(first, ids, t);
      Scale(batchSize, Left(first, d, t), MAX_QUEUE_ATTEMPTS);
      ScaleStrictly(batchSize, 0, Left(final, d, t));
      assert false;
    }
  }

  lemma TenPerDonation(n: nat, b: nat, k: nat)
    requires n >= MAX_QUEUE_ATTEMPTS * (k + 1) && b >= 1
    ensures n * b >= MAX_QUEUE_ATTEMPTS * (b + k)
  {
    assert n * b >= 10 * (k + 1) * b by { Scale(b, 10 * (k + 1), n); }
    assert 10 * (k + 1) * b == 10 * (k * b + b);
    assert k * b >= k by { Scale(k, 1, b); }
  }

  /** With k donations ahead, 10 * (k + 1) complete batches are enough whatever the batch size. */
  lemma LeavesWithinTenPerDonation(rounds: seq<Round>, final: Rows, batchSize: nat, ids: seq<nat>, d: nat, t: int)
    requires batchSize >= 1 && IsRun(rounds, final, batchSize, t)
    requires Covers(First(rounds, final), ids, d, t)
    requires Completions(rounds) >= MAX_QUEUE_ATTEMPTS * (|ids| + 1)
    ensures !(EligibleIn(final, d) && final[d].queuedAt == t)
    ensures Bounded(final) ==> !(d in final && final[d].status == Queued && !final[d].deleted && final[d].queuedAt == t)
  {
    TenPerDonation(Completions(rounds), batchSize, |ids|);
    NoStarvation(rounds, final, batchSize, ids, d, t);
  }

  /** If moreover other writers keep to the bound and no marking throws, it is no longer queued at all. */
  lemma LeavesQueued(rounds: seq<Round>, final: Rows, batchSize: nat, ids: seq<nat>, d: nat, t: int)
    requires batchSize >= 1 && IsRun(rounds, final, batchSize, t)
    requires Covers(First(rounds, final), ids, d, t) && Bounded(First(rounds, final))
    requires forall i :: 0 <= i < |rounds| ==> OthersKeepBound(rounds, final, i) && RoundMarks(rounds[i])
    requires Completions(rounds) * batchSize >= MAX_QUEUE_ATTEMPTS * (batchSize + |ids|)
    ensures !(d in final && final[d].status == Queued && !final[d].deleted && final[d].queuedAt == t)
  {
    RunStaysBounded(rounds, final, batchSize, t);
    NoStarvation(rounds, final, batchSize, ids, d, t);
  }

  // ------------------------------------------------------------ stranded by one attempt

  /** Queued with all attempts used: no batch query ever picks the donation again. */
  predicate Stranded(row: Row) {
    row.status == Queued && !row.deleted && row.attempts >= MAX_QUEUE_ATTEMPTS
  }

  /** A failed attempt strands the donation exactly when it is the last one and is counted, and either
      the count its batch had read is stale, which takes a second batch at the same time, or marking
      the donation failed throws. */
  lemma FailedAttemptStrandsIff(row: Row, attemptsRead: nat, c: Catch)
    requires Eligible(row)
    ensures Stranded(AfterCatch(row, attemptsRead, c))
            <==> row.attempts == MAX_QUEUE_ATTEMPTS - 1 && !c.CountThrows?
                 && (attemptsRead < MAX_QUEUE_ATTEMPTS - 1 || c.MarkThrows?)
  {
  }
}
