/** The page walk over the donation store itself: what its operations guarantee between two calls. */
module StoreWalk {
  import opened Ordering
  import opened Transactions
  import opened TransactionFilters
  import opened TransactionStore
  import opened Cursors
  import opened Pagination
  import opened PageWalk

  function NewId(d: Draft, uuid: string): string { if d.id == "" then uuid else d.id }

  /** Timestamps by id, of every record there has been. */
  type Dates = map<string, int>

  predicate DatesRow(dates: Dates, id: string, timestamp: int) { id in dates ==> dates[id] == timestamp }

  /** The create inserts a record: its status is valid and the index has nothing for its key. */
  predicate Inserts(s: State, d: Draft) {
    NormalizeState(d.status) in STATES && !(d.key != "" && d.key in s.index)
  }

  predicate RowsKeepDates(rows: seq<Tx>, dates: Dates)
    decreases |rows|
  {
    rows == [] || (DatesRow(dates, rows[0].id, rows[0].timestamp)
                   && RowsKeepDates(rows[1..], dates[rows[0].id := rows[0].timestamp]))
  }

  function RowDates(rows: seq<Tx>, dates: Dates): Dates
    decreases |rows|
  {
    if rows == [] then dates else RowDates(rows[1..], dates[rows[0].id := rows[0].timestamp])
  }

  /** A record that is inserted or read back has an id that none had before, or the timestamp the
      record of that id always had. */
  predicate KeepsDates(s: State, op: Op, dates: Dates) {
    match op
    case CreateOp(d, now, uuid) => Inserts(s, d) ==> DatesRow(dates, NewId(d, uuid), Or(d.timestamp, now))
    case LoadOp(rows) => RowsKeepDates(rows, dates)
    case _ => true
  }

  function DatesAfter(s: State, op: Op, dates: Dates): Dates {
    match op
    case CreateOp(d, now, uuid) => if Inserts(s, d) then dates[NewId(d, uuid) := Or(d.timestamp, now)] else dates
    case LoadOp(rows) => RowDates(rows, dates)
    case _ => dates
  }

  ghost predicate RunKeepsDates(s: State, ops: seq<Op>, dates: Dates)
    decreases |ops|
  {
    ops == []
    || (KeepsDates(s, ops[0], dates) && RunKeepsDates(Step(s, ops[0]), ops[1..], DatesAfter(s, ops[0], dates)))
  }

  ghost function DatesAtEnd(s: State, ops: seq<Op>, dates: Dates): Dates
    decreases |ops|
  {
    if ops == [] then dates else DatesAtEnd(Step(s, ops[0]), ops[1..], DatesAfter(s, ops[0], dates))
  }

  function DatesOf(s: State): Dates { map id | id in s.store :: s.store[id].timestamp }

  ghost predicate Dated(s: State, dates: Dates) {
    WellKeyed(s) && forall id :: id in s.store ==> id in dates && s.store[id].timestamp == dates[id]
  }

  ghost predicate Extends(a: Dates, b: Dates) { forall id :: id in a ==> id in b && b[id] == a[id] }

  lemma {:induction false} LoadKeepsDated(s: State, rows: seq<Tx>, dates: Dates)
    requires Dated(s, dates) && RowsKeepDates(rows, dates)
    ensures Dated(Load(s, rows), RowDates(rows, dates)) && Extends(dates, RowDates(rows, dates))
    decreases |rows|
  {
    if rows != [] {
      LoadKeepsDated(Put(s, rows[0].(ref := s.nextRef)).(nextRef := s.nextRef + 1), rows[1..],
                     dates[rows[0].id := rows[0].timestamp]);
    }
  }

  lemma StepKeepsDated(s: State, op: Op, dates: Dates)
    requires Dated(s, dates) && KeepsDates(s, op, dates)
    ensures Dated(Step(s, op), DatesAfter(s, op, dates)) && Extends(dates, DatesAfter(s, op, dates))
  {
    if op.LoadOp? {
      LoadKeepsDated(s, op.rows, dates);
    }
  }

  lemma {:induction false} RunExtends(s: State, ops: seq<Op>, dates: Dates)
    requires Dated(s, dates) && RunKeepsDates(s, ops, dates)
    ensures Extends(dates, DatesAtEnd(s, ops, dates))
    decreases |ops|
  {
    if ops != [] {
      StepKeepsDated(s, ops[0], dates);
      RunExtends(Step(s, ops[0]), ops[1..], DatesAfter(s, ops[0], dates));
    }
  }

  /** One list of dates, that of the whole run, dates the store after any number of its operations. */
  lemma {:induction false} DatedThroughout(s: State, ops: seq<Op>, dates: Dates, i: nat)
    requires Dated(s, dates) && RunKeepsDates(s, ops, dates) && i <= |ops|
    ensures Dated(Run(s, ops[..i]), DatesAtEnd(s, ops, dates))
    decreases i
  {
    if i == 0 {
      RunExtends(s, ops, dates);
    } else {
      StepKeepsDated(s, ops[0], dates);
      DatedThroughout(Step(s, ops[0]), ops[1..], DatesAfter(s, ops[0], dates), i - 1);
      assert ops[..i][1..] == ops[1..][..i - 1];
    }
  }

  /** Array.from(_store.values()): every record once, in the order of some list of the keys. */
  ghost predicate Lists(rows: seq<Tx>, keys: seq<string>, store: map<string, Tx>) {
    && |rows| == |keys|
    && (forall i, j :: 0 <= i < j < |keys| ==> keys[i] != keys[j])
    && (forall id :: id in store <==> id in keys)
    && (forall i :: 0 <= i < |keys| ==> keys[i] in store && rows[i] == store[keys[i]])
  }

  lemma ListedRow(rows: seq<Tx>, keys: seq<string>, s: State, tx: Tx)
    requires WellKeyed(s) && Lists(rows, keys, s.store) && tx in rows
    ensures tx.id in s.store && s.store[tx.id] == tx
  {
    var i :| 0 <= i < |rows| && rows[i] == tx;
    assert keys[i] in s.store;
  }

  /** Call k of the walk sees the store after marks[k] operations. */
  ghost predicate Snapshot(s: State, ops: seq<Op>, marks: seq<nat>, stores: seq<seq<Tx>>, keys: seq<seq<string>>) {
    && |marks| == |stores| == |keys|
    && (forall k :: 0 <= k < |marks| ==> marks[k] <= |ops|)
    && (forall k :: 0 <= k < |marks| ==> Lists(stores[k], keys[k], Run(s, ops[..marks[k]]).store))
  }

  lemma SnapshotsAreStable(s: State, ops: seq<Op>, marks: seq<nat>, stores: seq<seq<Tx>>, keys: seq<seq<string>>)
    requires WellKeyed(s) && RunKeepsDates(s, ops, DatesOf(s)) && Snapshot(s, ops, marks, stores, keys)
    ensures Snapshots(stores) && TimesStable(stores)
  {
    forall k | 0 <= k < |stores| ensures DistinctIds(stores[k]) {
      SnapshotHasDistinctIds(s, ops, marks, stores, keys, k);
    }
    forall i, j, a, b | 0 <= i < |stores| && 0 <= j < |stores| && a in stores[i] && b in stores[j] && a.id == b.id
      ensures a.timestamp == b.timestamp
    {
      SnapshotsAgree(s, ops, marks, stores, keys, i, j, a, b);
    }
  }

  lemma SnapshotHasDistinctIds(s: State, ops: seq<Op>, marks: seq<nat>, stores: seq<seq<Tx>>, keys: seq<seq<string>>,
                               k: nat)
    requires WellKeyed(s) && RunKeepsDates(s, ops, DatesOf(s)) && Snapshot(s, ops, marks, stores, keys) && k < |stores|
    ensures DistinctIds(stores[k])
  {
    DatedThroughout(s, ops, DatesOf(s), marks[k]);
    var t := Run(s, ops[..marks[k]]);
    assert Lists(stores[k], keys[k], t.store);
    assert forall i :: 0 <= i < |keys[k]| ==> stores[k][i].id == keys[k][i];
  }

  lemma SnapshotsAgree(s: State, ops: seq<Op>, marks: seq<nat>, stores: seq<seq<Tx>>, keys: seq<seq<string>>,
                       i: nat, j: nat, a: Tx, b: Tx)
    requires WellKeyed(s) && RunKeepsDates(s, ops, DatesOf(s)) && Snapshot(s, ops, marks, stores, keys)
    requires i < |stores| && j < |stores| && a in stores[i] && b in stores[j] && a.id == b.id
    ensures a.timestamp == b.timestamp
  {
    DatedThroughout(s, ops, DatesOf(s), marks[i]);
    DatedThroughout(s, ops, DatesOf(s), marks[j]);
    ListedRow(stores[i], keys[i], Run(s, ops[..marks[i]]), a);
    ListedRow(stores[j], keys[j], Run(s, ops[..marks[j]]), b);
  }

  /** Walking the pages of the store while records are created, updated, rolled back and reloaded
      between the calls never returns a record twice, and is in order throughout. */
  lemma NoRecordTwiceInStore(less: IdOrder, s: State, ops: seq<Op>, marks: seq<nat>, stores: seq<seq<Tx>>,
                             keys: seq<seq<string>>, f: Filters, limit: nat)
    requires StrictTotalOrder(less) && limit >= 1
    requires WellKeyed(s) && RunKeepsDates(s, ops, DatesOf(s)) && Snapshot(s, ops, marks, stores, keys)
    ensures DistinctIds(Walk(less, stores, f, limit, NoCursor))
    ensures Ascending(TxBefore(less), Walk(less, stores, f, limit, NoCursor))
  {
    SnapshotsAreStable(s, ops, marks, stores, keys);
    NoRecordTwice(less, stores, f, limit);
    WalkAscends(less, stores, f, limit);
  }

  /** A record that is stored and matches at every call of a finished walk is returned by it. */
  lemma NothingMissedInStore(less: IdOrder, s: State, ops: seq<Op>, marks: seq<nat>, stores: seq<seq<Tx>>,
                             keys: seq<seq<string>>, f: Filters, limit: nat, id: string)
    requires StrictTotalOrder(less) && limit >= 1 && stores != []
    requires WellKeyed(s) && RunKeepsDates(s, ops, DatesOf(s)) && Snapshot(s, ops, marks, stores, keys)
    requires forall k :: 0 <= k < |marks| ==>
               id in Run(s, ops[..marks[k]]).store && Matches(f, Run(s, ops[..marks[k]]).store[id])
    ensures Finishes(less, stores, f, limit, NoCursor)
            ==> exists tx :: tx in Walk(less, stores, f, limit, NoCursor) && tx.id == id
  {
    SnapshotsAreStable(s, ops, marks, stores, keys);
    var pos := Position(Run(s, ops[..marks[0]]).store[id].timestamp, id);
    forall k | 0 <= k < |stores| ensures exists tx :: tx in stores[k] && Matches(f, tx) && PositionOf(tx) == pos {
      KeptPosition(s, ops, marks, stores, keys, k, id);
      assert Lists(stores[k], keys[k], Run(s, ops[..marks[k]]).store);
    }
    NothingMissed(less, stores, f, limit, pos);
    if Finishes(less, stores, f, limit, NoCursor) {
      var tx :| tx in Walk(less, stores, f, limit, NoCursor) && PositionOf(tx) == pos;
      assert tx.id == id;
    }
  }

  lemma KeptPosition(s: State, ops: seq<Op>, marks: seq<nat>, stores: seq<seq<Tx>>, keys: seq<seq<string>>, k: nat,
                     id: string)
    requires WellKeyed(s) && RunKeepsDates(s, ops, DatesOf(s)) && Snapshot(s, ops, marks, stores, keys) && k < |marks|
    requires id in Run(s, ops[..marks[0]]).store && id in Run(s, ops[..marks[k]]).store
    ensures var tx := Run(s, ops[..marks[k]]).store[id];
            tx in stores[k] && PositionOf(tx) == Position(Run(s, ops[..marks[0]]).store[id].timestamp, id)
  {
    var t := Run(s, ops[..marks[k]]);
    DatedThroughout(s, ops, DatesOf(s), marks[k]);
    assert Lists(stores[k], keys[k], t.store);
    var i :| 0 <= i < |keys[k]| && keys[k][i] == id;
    assert stores[k][i] == t.store[id];
    DatedThroughout(s, ops, DatesOf(s), marks[0]);
  }
}
