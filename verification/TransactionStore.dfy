/**
 * The in-memory donation store with its idempotency index, conflict rollback and reload.
 *
 * The module-level maps are the fields of one object. A reload is two steps, because other
 * operations run while the table is being read: the maps are cleared, and later the rows arrive.
 */
module TransactionStore {
  import opened Text
  import opened Transactions

  datatype Outcome<+T> = Done(value: T) | Thrown(message: string)

  /** The maps, and the next unused object identity. */
  datatype State = State(store: map<string, Tx>, index: map<string, Tx>, nextRef: nat)

  /** What a caller of `create` supplies. */
  datatype Draft = Draft(
    id: string, key: string, donor: string, recipient: string, amount: real, memo: string,
    timestamp: Option<int>, status: string, statusUpdatedAt: Option<int>,
    stellarTxId: string, deleted: bool, extra: map<string, string>)

  /** What the network reported along with a status: texts, "" or None when not given. */
  datatype StellarData = StellarData(
    transactionId: string, ledger: string, confirmedAt: string, notes: Option<string>, tags: Option<string>)

  datatype Change = StatusChange(status: string, now: int, stellar: StellarData)
                  | FieldChange(extra: map<string, string>, stellarTxId: Option<string>)

  // ------------------------------------------------- what each operation does

  function Or(o: Option<int>, default: int): int { if o.Some? then o.value else default }

  /** The record `create` builds: the caller's data with the defaults filled in. */
  function NewRecord(d: Draft, ref: nat, now: int, uuid: string): Tx {
    Tx(ref, if d.id == "" then uuid else d.id, d.key, d.donor, d.recipient, d.amount, d.memo,
       Or(d.timestamp, now), NormalizeState(d.status), Some(Or(d.statusUpdatedAt, now)),
       d.stellarTxId, d.deleted, d.extra)
  }

  function Put(s: State, tx: Tx): State {
    State(s.store[tx.id := tx], if tx.key == "" then s.index else s.index[tx.key := tx], s.nextRef)
  }

  function CreateIn(s: State, data: Draft, now: int, uuid: string): (State, Outcome<Tx>) {
    if NormalizeState(data.status) !in STATES then (s, Thrown("status"))
    else if data.key != "" && data.key in s.index then (s, Done(s.index[data.key]))
    else
      var tx := NewRecord(data, s.nextRef, now, uuid);
      (Put(s, tx).(nextRef := s.nextRef + 1), Done(tx))
  }

  function LastStamp(tx: Tx): int {
    Or(tx.statusUpdatedAt, tx.timestamp)
  }

  /** Why a change of normalised status is refused. */
  function TransitionError(from: string, to: string): (e: Option<string>)
    ensures e.None? <==> from in STATES && to in STATES && CanTransition(from, to)
  {
    if from !in STATES then Some("current status")
    else if to !in STATES then Some("target status")
    else if !CanTransition(from, to) then Some("transition")
    else None
  }

  /** The other fields after a report: those it gives are set, in turn. */
  function Reported(extra: map<string, string>, d: StellarData): map<string, string> {
    var e1 := if d.ledger != "" then extra["stellarLedger" := d.ledger] else extra;
    var e2 := if d.confirmedAt != "" then e1["confirmedAt" := d.confirmedAt] else e1;
    var e3 := if d.notes.Some? then e2["notes" := d.notes.value] else e2;
    if d.tags.Some? then e3["tags" := d.tags.value] else e3
  }

  function WithStatus(tx: Tx, ref: nat, to: string, now: int, d: StellarData): Tx {
    var stamp := if now > LastStamp(tx) + 1 then now else LastStamp(tx) + 1;
    tx.(ref := ref, status := to, statusUpdatedAt := Some(stamp),
        stellarTxId := if d.transactionId == "" then tx.stellarTxId else d.transactionId,
        extra := Reported(tx.extra, d))
  }

  /** The copy an update stores in place of `tx`, or the reason it throws. */
  function Changed(tx: Tx, ref: nat, c: Change): Outcome<Tx> {
    match c
    case StatusChange(status, now, stellar) =>
      var from, to := NormalizeState(tx.status), NormalizeState(status);
      var error := TransitionError(from, to);
      if error.Some? then Thrown(error.value) else Done(WithStatus(tx, ref, to, now, stellar))
    case FieldChange(extra, stellarTxId) =>
      Done(tx.(ref := ref, extra := tx.extra + extra,
               stellarTxId := if stellarTxId.Some? then stellarTxId.value else tx.stellarTxId))
  }

  function UpdateIn(s: State, id: string, c: Change): (State, Outcome<Tx>) {
    if id !in s.store then (s, Thrown("not found"))
    else
      match Changed(s.store[id], s.nextRef, c)
      case Thrown(m) => (s, Thrown(m))
      case Done(tx) => (State(s.store[id := tx], s.index, s.nextRef + 1), Done(tx))
  }

  /** The catch handler of a failed write of `tx`. */
  function WriteFailed(s: State, tx: Tx, conflict: bool): State {
    if conflict && tx.id in s.store && s.store[tx.id] == tx then
      State(s.store - {tx.id},
            if tx.key != "" && tx.key in s.index && s.index[tx.key] == tx then s.index - {tx.key} else s.index,
            s.nextRef)
    else s
  }

  function Clear(s: State): State { State(map[], map[], s.nextRef) }

  /** Rows read back from the table, in order; each becomes a fresh object. */
  function Load(s: State, rows: seq<Tx>): State
    decreases |rows|
  {
    if rows == [] then s
    else Load(Put(s, rows[0].(ref := s.nextRef)).(nextRef := s.nextRef + 1), rows[1..])
  }

  datatype Op =
    | CreateOp(data: Draft, now: int, uuid: string)
    | UpdateOp(id: string, change: Change)
    | WriteFailedOp(tx: Tx, conflict: bool)
    | ClearOp
    | LoadOp(rows: seq<Tx>)

  function Step(s: State, op: Op): State {
    match op
    case CreateOp(data, now, uuid) => CreateIn(s, data, now, uuid).0
    case UpdateOp(id, change) => UpdateIn(s, id, change).0
    case WriteFailedOp(tx, conflict) => WriteFailed(s, tx, conflict)
    case ClearOp => Clear(s)
    case LoadOp(rows) => Load(s, rows)
  }

  function Run(s: State, ops: seq<Op>): State
    decreases |ops|
  {
    if ops == [] then s else Run(Step(s, ops[0]), ops[1..])
  }

  const EMPTY := State(map[], map[], 0)

  // ----------------------------------------- what a caller of one operation gets

  /** A create with an unknown status throws; one under an indexed key answers with the indexed record;
      any other stores, indexes and answers with the caller's data, each under its own field. */
  lemma CreateMeans(s: State, d: Draft, now: int, uuid: string)
    ensures var (t, r) := CreateIn(s, d, now, uuid);
            && (r.Thrown? <==> NormalizeState(d.status) !in STATES)
            && (r.Thrown? || (d.key != "" && d.key in s.index) ==> t == s)
            && (r.Done? && d.key != "" && d.key in s.index ==> r.value == s.index[d.key])
            && (r.Done? && !(d.key != "" && d.key in s.index) ==>
                  var tx := r.value;
                  && tx.id == (if d.id != "" then d.id else uuid) && tx.key == d.key
                  && tx.donor == d.donor && tx.recipient == d.recipient && tx.amount == d.amount && tx.memo == d.memo
                  && tx.timestamp == (if d.timestamp.Some? then d.timestamp.value else now)
                  && tx.status == NormalizeState(d.status)
                  && tx.statusUpdatedAt == Some(if d.statusUpdatedAt.Some? then d.statusUpdatedAt.value else now)
                  && tx.stellarTxId == d.stellarTxId && tx.deleted == d.deleted && tx.extra == d.extra
                  && tx.ref == s.nextRef && t.nextRef == s.nextRef + 1
                  && t.store == s.store[tx.id := tx]
                  && t.index == if d.key == "" then s.index else s.index[d.key := tx])
  {
  }

  /** The value of a field of the record's remaining data, if it has one. */
  function FieldOf(extra: map<string, string>, name: string): Option<string> {
    if name in extra then Some(extra[name]) else None
  }

  /** Each thing the network reported is stored under its own name, and nothing else changes. */
  lemma ReportedMeans(extra: map<string, string>, d: StellarData)
    ensures var e := Reported(extra, d);
            && FieldOf(e, "stellarLedger")
               == (if d.ledger != "" then Some(d.ledger) else FieldOf(extra, "stellarLedger"))
            && FieldOf(e, "confirmedAt")
               == (if d.confirmedAt != "" then Some(d.confirmedAt) else FieldOf(extra, "confirmedAt"))
            && FieldOf(e, "notes") == (if d.notes.Some? then d.notes else FieldOf(extra, "notes"))
            && FieldOf(e, "tags") == (if d.tags.Some? then d.tags else FieldOf(extra, "tags"))
            && forall name :: name !in ["stellarLedger", "confirmedAt", "notes", "tags"] ==>
                 FieldOf(e, name) == FieldOf(extra, name)
  {
  }

  /** A status change throws exactly for a missing record, an unknown status or an illegal change, and
      then changes nothing. */
  lemma StatusChangeThrowsIff(s: State, id: string, status: string, now: int, d: StellarData)
    ensures var (t, r) := UpdateIn(s, id, StatusChange(status, now, d));
            && (r.Done? <==>
                  && id in s.store
                  && NormalizeState(s.store[id].status) in STATES && NormalizeState(status) in STATES
                  && CanTransition(NormalizeState(s.store[id].status), NormalizeState(status)))
            && (r.Thrown? ==> t == s)
  {
  }

  /** A status change that does not throw stores a copy with the status asked for, a stamp that is the
      clock's or the least after the last one, the transaction id if one was reported, and the
      reported fields; all else stays as it was. */
  lemma StatusChangeMeans(s: State, id: string, status: string, now: int, d: StellarData)
    requires UpdateIn(s, id, StatusChange(status, now, d)).1.Done?
    ensures id in s.store
    ensures var (t, r) := UpdateIn(s, id, StatusChange(status, now, d));
            var (tx, after) := (s.store[id], r.value);
            var last := if tx.statusUpdatedAt.Some? then tx.statusUpdatedAt.value else tx.timestamp;
            && t == State(s.store[id := after], s.index, s.nextRef + 1) && after.ref == s.nextRef
            && after.status == NormalizeState(status)
            && after.statusUpdatedAt == Some(if now > last then now else last + 1)
            && after.stellarTxId == (if d.transactionId != "" then d.transactionId else tx.stellarTxId)
            && after.extra == Reported(tx.extra, d)
            && after == tx.(ref := after.ref, status := after.status, statusUpdatedAt := after.statusUpdatedAt,
                            stellarTxId := after.stellarTxId, extra := after.extra)
  {
  }

  /** The other updates store a copy in which exactly the given fields are replaced. */
  lemma FieldChangeMeans(s: State, id: string, fields: map<string, string>, stellarTxId: Option<string>)
    ensures var (t, r) := UpdateIn(s, id, FieldChange(fields, stellarTxId));
            && (r.Done? <==> id in s.store) && (r.Thrown? ==> t == s)
            && (r.Done? ==>
                  var (tx, after) := (s.store[id], r.value);
                  && t == State(s.store[id := after], s.index, s.nextRef + 1) && after.ref == s.nextRef
                  && after.stellarTxId == (if stellarTxId.Some? then stellarTxId.value else tx.stellarTxId)
                  && after == tx.(ref := after.ref, stellarTxId := after.stellarTxId, extra := after.extra)
                  && (forall name :: FieldOf(after.extra, name)
                        == if name in fields then Some(fields[name]) else FieldOf(tx.extra, name)))
  {
  }

  /** A failed write takes something back exactly when it failed on the key and the store still holds
      the very object written: then the record goes, and its index entry if it is that object. */
  lemma WriteFailedMeans(s: State, tx: Tx, conflict: bool)
    ensures var t := WriteFailed(s, tx, conflict);
            && (t != s <==> conflict && tx.id in s.store && s.store[tx.id] == tx)
            && (t != s ==>
                  && (forall id :: id in t.store <==> id in s.store && id != tx.id)
                  && (forall id :: id in t.store ==> t.store[id] == s.store[id])
                  && (forall key :: key in t.index <==> key in s.index && !(key == tx.key != "" && s.index[key] == tx))
                  && (forall key :: key in t.index ==> t.index[key] == s.index[key]))
            && t.nextRef == s.nextRef
  {
  }

  // ------------------------------------------------------------ the invariant

  ghost predicate WellKeyed(s: State) {
    forall id :: id in s.store ==> s.store[id].id == id
  }

  /** A stored record whose idempotency key the index does not hold for it. */
  predicate Clashes(s: State, id: string) {
    && id in s.store
    && s.store[id].key != ""
    && !(s.store[id].key in s.index && s.index[s.store[id].key].id == id)
  }

  /** Any stored record with key k has the id the index holds for k. */
  ghost predicate Indexed(s: State) {
    && WellKeyed(s)
    && forall id :: !Clashes(s, id)
  }

  /** Hence no two stored records share a key. */
  lemma IndexedKeysAreUnique(s: State, a: string, b: string)
    requires Indexed(s) && a in s.store && b in s.store
    requires s.store[a].key == s.store[b].key != ""
    ensures a == b
  {
    assert !Clashes(s, a) && !Clashes(s, b);
  }

  /** Creating, updating, rolling back and clearing never make a record clash that did not. */
  lemma NoNewClash(s: State, op: Op, id: string)
    requires WellKeyed(s) && !op.LoadOp?
    requires Clashes(Step(s, op), id)
    ensures Clashes(s, id)
  {
  }

  lemma StaysWellKeyed(s: State, op: Op)
    requires WellKeyed(s) && !op.LoadOp?
    ensures WellKeyed(Step(s, op))
  {
  }

  // ----------------------------------------------------------------- reloads

  /** Rows of a table whose primary key is the id. */
  ghost predicate DistinctRows(rows: seq<Tx>) {
    forall i, j :: 0 <= i < j < |rows| ==> rows[i].id != rows[j].id
  }

  predicate HasRow(rows: seq<Tx>, id: string) {
    exists i :: 0 <= i < |rows| && rows[i].id == id
  }

  predicate HasKey(rows: seq<Tx>, key: string) {
    exists i :: 0 <= i < |rows| && rows[i].key == key
  }

  /** What a caller can check before the rows arrive: no two rows carry one key, and no record
      created since the maps were cleared carries the key of a row, unless it is itself reloaded. */
  ghost predicate SafeToLoad(s: State, rows: seq<Tx>) {
    && (forall i, j :: 0 <= i < j < |rows| && rows[i].key != "" ==> rows[i].key != rows[j].key)
    && (forall id :: id in s.store && s.store[id].key != "" && HasKey(rows, s.store[id].key) ==> HasRow(rows, id))
  }

  ghost function LastKeyed(rows: seq<Tx>, key: string): (i: nat)
    requires HasKey(rows, key)
    ensures i < |rows| && rows[i].key == key
    ensures forall j :: i < j < |rows| ==> rows[j].key != key
    decreases |rows|
  {
    var n := |rows| - 1;
    if rows[n].key == key then n else
      assert HasKey(rows[..n], key) by {
        var i :| 0 <= i < |rows| && rows[i].key == key;
        assert rows[..n][i].key == key;
      }
      LastKeyed(rows[..n], key)
  }

  lemma LastKeyedIs(rows: seq<Tx>, key: string, i: nat)
    requires i < |rows| && rows[i].key == key
    requires forall j :: i < j < |rows| ==> rows[j].key != key
    ensures HasKey(rows, key) && LastKeyed(rows, key) == i
  {
    assert HasKey(rows, key);
  }

  /** Loading row by row: the last row is the last one put. */
  lemma {:induction false} LoadLast(s: State, rows: seq<Tx>)
    requires rows != []
    ensures var n := |rows| - 1;
            var t := Load(s, rows[..n]);
            Load(s, rows) == Put(t, rows[n].(ref := t.nextRef)).(nextRef := t.nextRef + 1)
    decreases |rows|
  {
    var n := |rows| - 1;
    if n > 0 {
      var s' := Put(s, rows[0].(ref := s.nextRef)).(nextRef := s.nextRef + 1);
      LoadLast(s', rows[1..]);
      assert rows[1..][..n - 1] == rows[..n][1..];
    }
  }

  /** After a load the store maps a row's id to that row and keeps every other record. */
  lemma {:induction false} LoadedStore(s: State, rows: seq<Tx>, id: string)
    requires DistinctRows(rows)
    ensures var t := Load(s, rows);
            && (!HasRow(rows, id) ==>
                  (id in t.store <==> id in s.store) && (id in s.store ==> t.store[id] == s.store[id]))
            && forall i :: 0 <= i < |rows| && rows[i].id == id ==>
                 id in t.store && t.store[id] == rows[i].(ref := s.nextRef + i)
    ensures Load(s, rows).nextRef == s.nextRef + |rows|
    decreases |rows|
  {
    if rows != [] {
      var n := |rows| - 1;
      LoadLast(s, rows);
      LoadedStore(s, rows[..n], id);
      assert rows[n].id == id ==> HasRow(rows, id);
      assert HasRow(rows[..n], id) ==> HasRow(rows, id);
      forall i | 0 <= i < |rows| && rows[i].id == id
        ensures id in Load(s, rows).store && Load(s, rows).store[id] == rows[i].(ref := s.nextRef + i)
      {
        if i < n { assert rows[..n][i].id == id && rows[i].id != rows[n].id; }
      }
    }
  }

  lemma KeyedBefore(rows: seq<Tx>, key: string)
    requires rows != [] && rows[|rows| - 1].key != key
    ensures HasKey(rows, key) <==> HasKey(rows[..|rows| - 1], key)
    ensures HasKey(rows, key) ==> LastKeyed(rows, key) == LastKeyed(rows[..|rows| - 1], key)
  {
    var n := |rows| - 1;
    if HasKey(rows[..n], key) {
      var i := LastKeyed(rows[..n], key);
      forall j | i < j < |rows| ensures rows[j].key != key {
        if j < n { assert rows[..n][j].key != key; }
      }
      LastKeyedIs(rows, key, i);
    } else {
      forall i | 0 <= i < |rows| ensures rows[i].key != key {
        if i < n { assert rows[..n][i].key != key; }
      }
    }
  }

  /** After a load the index maps a key to the last row that carries it, or to what it held. */
  lemma {:induction false} LoadedIndex(s: State, rows: seq<Tx>, key: string)
    requires key != ""
    ensures var t := Load(s, rows);
            if HasKey(rows, key) then key in t.index && t.index[key].id == rows[LastKeyed(rows, key)].id
            else (key in t.index <==> key in s.index) && (key in s.index ==> t.index[key] == s.index[key])
    decreases |rows|
  {
    if rows != [] {
      var n := |rows| - 1;
      LoadLast(s, rows);
      LoadedIndex(s, rows[..n], key);
      if rows[n].key == key {
        assert HasKey(rows, key);
        LastKeyedIs(rows, key, n);
      } else {
        KeyedBefore(rows, key);
      }
    }
  }

  /** A reload keeps the invariant exactly when it was safe to load. */
  lemma LoadKeepsIndexedIff(s: State, rows: seq<Tx>)
    requires Indexed(s) && DistinctRows(rows)
    ensures Indexed(Load(s, rows)) <==> SafeToLoad(s, rows)
  {
    var t := Load(s, rows);
    LoadedWellKeyed(s, rows);
    if SafeToLoad(s, rows) {
      forall id ensures !Clashes(t, id) { SafeLoadHasNoClash(s, rows, id); }
    }
    if Indexed(t) {
      forall i, j | 0 <= i < j < |rows| && rows[i].key != "" ensures rows[i].key != rows[j].key {
        LoadedStore(s, rows, rows[i].id);
        LoadedStore(s, rows, rows[j].id);
        assert !Clashes(t, rows[i].id) && !Clashes(t, rows[j].id);
      }
      forall id | id in s.store && s.store[id].key != "" && HasKey(rows, s.store[id].key)
        ensures HasRow(rows, id)
      {
        var key := s.store[id].key;
        LoadedStore(s, rows, id);
        LoadedIndex(s, rows, key);
        assert !Clashes(t, id);
        var m := LastKeyed(rows, key);
        assert key in t.index && t.index[key].id == rows[m].id;
      }
    }
  }

  lemma LoadedWellKeyed(s: State, rows: seq<Tx>)
    requires WellKeyed(s) && DistinctRows(rows)
    ensures WellKeyed(Load(s, rows))
  {
    forall id | id in Load(s, rows).store ensures Load(s, rows).store[id].id == id {
      LoadedStore(s, rows, id);
    }
  }

  lemma SafeLoadHasNoClash(s: State, rows: seq<Tx>, id: string)
    requires Indexed(s) && DistinctRows(rows) && SafeToLoad(s, rows)
    ensures !Clashes(Load(s, rows), id)
  {
    var t := Load(s, rows);
    LoadedStore(s, rows, id);
    if id in t.store && t.store[id].key != "" {
      var key := t.store[id].key;
      LoadedIndex(s, rows, key);
      if HasRow(rows, id) {
        var i :| 0 <= i < |rows| && rows[i].id == id;
        assert HasKey(rows, key);
        assert i == LastKeyed(rows, key);
      } else {
        assert !Clashes(s, id);
      }
    }
  }

  // -------------------------------------------------------------------- runs

  /** Every load of the run met its guard at the moment its rows arrived. */
  ghost predicate SafeRun(s: State, ops: seq<Op>)
    decreases |ops|
  {
    ops == []
    || (&& (ops[0].LoadOp? ==> DistinctRows(ops[0].rows) && SafeToLoad(s, ops[0].rows))
        && SafeRun(Step(s, ops[0]), ops[1..]))
  }

  predicate CreatesNothing(op: Op) { op.UpdateOp? || op.WriteFailedOp? || op.ClearOp? }

  lemma {:induction false} EmptyStays(s: State, ops: seq<Op>)
    requires s.store == map[] && forall i :: 0 <= i < |ops| ==> CreatesNothing(ops[i])
    ensures Run(s, ops).store == map[]
    decreases |ops|
  {
    if ops != [] {
      EmptyStays(Step(s, ops[0]), ops[1..]);
    }
  }

  /** A reload during which nothing is created is safe exactly when no two rows carry one key. */
  lemma QuietReloadIsSafe(s: State, between: seq<Op>, rows: seq<Tx>)
    requires forall i :: 0 <= i < |between| ==> CreatesNothing(between[i])
    ensures SafeToLoad(Run(Clear(s), between), rows)
            <==> forall i, j :: 0 <= i < j < |rows| && rows[i].key != "" ==> rows[i].key != rows[j].key
  {
    EmptyStays(Clear(s), between);
  }

  lemma StepKeepsIndexed(s: State, op: Op)
    requires Indexed(s)
    requires op.LoadOp? ==> DistinctRows(op.rows) && SafeToLoad(s, op.rows)
    ensures Indexed(Step(s, op))
  {
    if op.LoadOp? {
      LoadKeepsIndexedIff(s, op.rows);
    } else {
      StaysWellKeyed(s, op);
      forall id ensures !Clashes(Step(s, op), id) {
        if Clashes(Step(s, op), id) { NoNewClash(s, op, id); }
      }
    }
  }

  /** Over every run of creates, updates, rollbacks and guarded reloads, the index holds every
      stored key for its record. */
  lemma {:induction false} RunKeepsIndexed(s: State, ops: seq<Op>)
    requires Indexed(s) && SafeRun(s, ops)
    ensures Indexed(Run(s, ops))
    decreases |ops|
  {
    if ops != [] {
      StepKeepsIndexed(s, ops[0]);
      RunKeepsIndexed(Step(s, ops[0]), ops[1..]);
    }
  }

  lemma EveryRunFromEmpty(ops: seq<Op>)
    requires SafeRun(EMPTY, ops)
    ensures Indexed(Run(EMPTY, ops))
  {
    RunKeepsIndexed(EMPTY, ops);
  }

  /** The guard is needed: a donation created while the table is being read, under a key a row
      already carries, leaves two stored records with one key. */
  lemma RacingReloadDuplicatesKey(row: Tx, data: Draft, uuid: string)
    requires row.key == data.key != "" && data.id == "" && uuid != row.id
    requires NormalizeState(data.status) in STATES
    ensures var s := Run(EMPTY, [ClearOp, CreateOp(data, 0, uuid), LoadOp([row])]);
            && row.id in s.store && uuid in s.store
            && s.store[row.id].key == s.store[uuid].key != ""
            && Clashes(s, uuid)
  {
    var s1 := Step(EMPTY, ClearOp);
    var s2 := Step(s1, CreateOp(data, 0, uuid));
    var s3 := Step(s2, LoadOp([row]));
    var ops := [ClearOp, CreateOp(data, 0, uuid), LoadOp([row])];
    assert ops[1..] == [CreateOp(data, 0, uuid), LoadOp([row])];
    assert ops[1..][1..] == [LoadOp([row])];
    calc {
      Run(EMPTY, ops);
      Run(s1, ops[1..]);
      Run(s2, [LoadOp([row])]);
      { assert [LoadOp([row])][1..] == []; }
      Run(s3, []);
    }
    LoadLast(s2, [row]);
    assert s3 == Put(s2, row.(ref := s2.nextRef)).(nextRef := s2.nextRef + 1);
  }

  /** The conflict error on that donation's own write removes its clash and no other: the rollback
      is what restores the invariant. */
  lemma RollbackHeals(s: State, id: string, other: string)
    requires WellKeyed(s) && Clashes(s, id)
    ensures var t := WriteFailed(s, s.store[id], true);
            && !Clashes(t, id) && id !in t.store
            && (other != id ==> (Clashes(t, other) <==> Clashes(s, other)))
            && t.index == s.index
  {
  }

  // ------------------------------------------------- what the index still names

  /** Every index entry is of a record that is stored. */
  ghost predicate Named(s: State) {
    forall key :: key in s.index ==> s.index[key].id in s.store
  }

  /** The catch handler takes the record back. */
  predicate TakesBack(s: State, tx: Tx, conflict: bool) {
    conflict && tx.id in s.store && s.store[tx.id] == tx
  }

  /** A rollback keeps that exactly when the index holds nothing for the record but the very object
      whose write failed, under its own key. */
  lemma RollbackKeepsNamedIff(s: State, tx: Tx, conflict: bool)
    requires Named(s)
    ensures Named(WriteFailed(s, tx, conflict))
            <==> (TakesBack(s, tx, conflict) ==>
                    forall key :: key in s.index && s.index[key].id == tx.id ==>
                      key == tx.key != "" && s.index[key] == tx)
  {
    var t := WriteFailed(s, tx, conflict);
    if TakesBack(s, tx, conflict) {
      if Named(t) {
        forall key | key in s.index && s.index[key].id == tx.id ensures key == tx.key != "" && s.index[key] == tx {
          assert key !in t.index;
        }
      }
    }
  }

  lemma StepKeepsNamed(s: State, op: Op)
    requires Named(s) && !op.WriteFailedOp?
    ensures Named(Step(s, op))
  {
    if op.LoadOp? { LoadKeepsNamed(s, op.rows); }
  }

  lemma {:induction false} LoadKeepsNamed(s: State, rows: seq<Tx>)
    requires Named(s)
    ensures Named(Load(s, rows))
    decreases |rows|
  {
    if rows != [] {
      LoadKeepsNamed(Put(s, rows[0].(ref := s.nextRef)).(nextRef := s.nextRef + 1), rows[1..]);
    }
  }

  /** Every rollback of the run meets that condition. */
  ghost predicate CleanRollbacks(s: State, ops: seq<Op>)
    decreases |ops|
  {
    ops == []
    || ((ops[0].WriteFailedOp? && TakesBack(s, ops[0].tx, ops[0].conflict) ==>
           forall key :: key in s.index && s.index[key].id == ops[0].tx.id ==>
             key == ops[0].tx.key != "" && s.index[key] == ops[0].tx)
        && CleanRollbacks(Step(s, ops[0]), ops[1..]))
  }

  lemma {:induction false} RunKeepsNamed(s: State, ops: seq<Op>)
    requires Named(s) && CleanRollbacks(s, ops)
    ensures Named(Run(s, ops))
    decreases |ops|
  {
    if ops != [] {
      if ops[0].WriteFailedOp? {
        RollbackKeepsNamedIff(s, ops[0].tx, ops[0].conflict);
      } else {
        StepKeepsNamed(s, ops[0]);
      }
      RunKeepsNamed(Step(s, ops[0]), ops[1..]);
    }
  }

  lemma UpdatedRecord(s: State, id: string, c: Change)
    requires UpdateIn(s, id, c).1.Done?
    ensures id in s.store
    ensures var (t, r) := UpdateIn(s, id, c);
            && r.value.ref == s.nextRef && r.value.id == s.store[id].id && r.value.key == s.store[id].key
            && t == State(s.store[id := r.value], s.index, s.nextRef + 1)
  {
  }

  lemma ConflictOnCopy(s: State, made: Tx, copy: Tx)
    requires made.id in s.store && s.store[made.id] == copy && copy.id == made.id && copy.key == made.key
    requires made.key in s.index && s.index[made.key] == made && copy.ref != made.ref
    ensures var t := WriteFailed(s, copy, true);
            made.id !in t.store && made.key in t.index && t.index[made.key] == made
  {
  }

  /** An updated donation is another object than the one indexed at its creation, so a conflict on the
      update's write removes the record and leaves its key: from then on every create under the key
      answers with a donation that is not stored. */
  lemma ConflictAfterUpdateOrphansKey(s: State, d: Draft, now: int, uuid: string, c: Change, d': Draft, now': int,
                                      uuid': string)
    requires d.key != "" && d.key !in s.index && NormalizeState(d.status) in STATES
    requires d'.key == d.key && NormalizeState(d'.status) in STATES
    ensures var made := CreateIn(s, d, now, uuid);
            made.1.Done? && var updated := UpdateIn(made.0, made.1.value.id, c);
            updated.1.Done? ==>
              var t := WriteFailed(updated.0, updated.1.value, true);
              && made.1.value.id !in t.store && d.key in t.index && t.index[d.key] == made.1.value
              && CreateIn(t, d', now', uuid') == (t, made.1)
  {
    var made := CreateIn(s, d, now, uuid);
    var updated := UpdateIn(made.0, made.1.value.id, c);
    if updated.1.Done? {
      UpdatedRecord(made.0, made.1.value.id, c);
      ConflictOnCopy(updated.0, made.1.value, updated.1.value);
    }
  }

  // ----------------------------------------------------------------- updates

  /** A successful status change stamps the record strictly later than before, even when the
      clock has gone back, moves its state forward, and leaves id, key and timestamp alone. */
  lemma StatusAdvances(s: State, id: string, status: string, now: int, stellar: StellarData)
    requires WellKeyed(s) && UpdateIn(s, id, StatusChange(status, now, stellar)).1.Done?
    ensures id in s.store
    ensures var before, after := s.store[id], UpdateIn(s, id, StatusChange(status, now, stellar)).0.store[id];
            && after.statusUpdatedAt.Some? && after.statusUpdatedAt.value > LastStamp(before)
            && after.statusUpdatedAt.value >= now
            && (NormalizeState(before.status) == after.status
              || Rank(NormalizeState(before.status)) < Rank(after.status))
            && after.id == before.id && after.key == before.key && after.timestamp == before.timestamp
            && forall field :: field !in ["stellarLedger", "confirmedAt", "notes", "tags"] ==>
                 (field in after.extra <==> field in before.extra)
                 && (field in before.extra ==> after.extra[field] == before.extra[field])
  {
    TransitionsMoveForward(NormalizeState(s.store[id].status), NormalizeState(status));
  }

  ghost predicate OnlyUpdates(ops: seq<Op>) {
    forall i :: 0 <= i < |ops| ==> ops[i].UpdateOp?
  }

  lemma UpdateKeepsIdentity(s: State, op: Op, id: string)
    requires WellKeyed(s) && op.UpdateOp?
    ensures var t := Step(s, op);
            && (id in t.store <==> id in s.store)
            && (id in s.store ==>
                  && t.store[id].id == id
                  && t.store[id].key == s.store[id].key
                  && t.store[id].timestamp == s.store[id].timestamp
                  && LastStamp(t.store[id]) >= LastStamp(s.store[id]))
            && t.index == s.index
  {
  }

  /** Over any run of updates no record appears, disappears, or changes id, key or timestamp, and
      its last status stamp never goes back. */
  lemma {:induction false} UpdatesKeepIdentity(s: State, ops: seq<Op>, id: string)
    requires WellKeyed(s) && OnlyUpdates(ops)
    ensures var t := Run(s, ops);
            && (id in t.store <==> id in s.store)
            && (id in s.store ==>
                  && t.store[id].id == id
                  && t.store[id].key == s.store[id].key
                  && t.store[id].timestamp == s.store[id].timestamp
                  && LastStamp(t.store[id]) >= LastStamp(s.store[id]))
            && t.index == s.index
    decreases |ops|
  {
    if ops != [] {
      StaysWellKeyed(s, ops[0]);
      UpdateKeepsIdentity(s, ops[0], id);
      UpdatesKeepIdentity(Step(s, ops[0]), ops[1..], id);
    }
  }

  /** Repeating a create under a stored key returns the record the first one made, until a
      rollback or a reload takes the key away. */
  lemma {:induction false} CreateIsIdempotent(s: State, d: Draft, now: int, uuid: string, between: seq<Op>, d': Draft,
                                              now': int, uuid': string)
    requires WellKeyed(s) && d.key != "" && d'.key == d.key
    requires NormalizeState(d'.status) in STATES
    requires CreateIn(s, d, now, uuid).1.Done?
    requires forall i :: 0 <= i < |between| ==> between[i].CreateOp? || between[i].UpdateOp?
    ensures var t := Run(CreateIn(s, d, now, uuid).0, between);
            CreateIn(t, d', now', uuid') == (t, CreateIn(s, d, now, uuid).1)
  {
    KeyStays(CreateIn(s, d, now, uuid).0, between, d.key);
  }

  lemma {:induction false} KeyStays(s: State, ops: seq<Op>, key: string)
    requires key in s.index
    requires forall i :: 0 <= i < |ops| ==> ops[i].CreateOp? || ops[i].UpdateOp?
    ensures key in Run(s, ops).index && Run(s, ops).index[key] == s.index[key]
    decreases |ops|
  {
    if ops != [] {
      KeyStays(Step(s, ops[0]), ops[1..], key);
    }
  }

  // ------------------------------------------------------------- the module

  /** The module-level maps, changed in place. */
  class TransactionModel {
    var store: map<string, Tx>
    var index: map<string, Tx>
    var nextRef: nat

    function Value(): State
      reads this
    {
      State(store, index, nextRef)
    }

    constructor ()
      ensures Value() == EMPTY
    {
      store, index, nextRef := map[], map[], 0;
    }

    method Create(data: Draft, now: int, uuid: string) returns (r: Outcome<Tx>)
      modifies this
      ensures (Value(), r) == CreateIn(old(Value()), data, now, uuid)
    {
      if NormalizeState(data.status) !in STATES {
        return Thrown("status");
      }
      if data.key != "" && data.key in index {
        return Done(index[data.key]);
      }
      var tx := NewRecord(data, nextRef, now, uuid);
      nextRef := nextRef + 1;
      store := store[tx.id := tx];
      if tx.key != "" {
        index := index[tx.key := tx];
      }
      r := Done(tx);
    }

    /** The checks, and the copy that a legal change makes. */
    method ChangeStatus(tx: Tx, status: string, stellar: StellarData, now: int) returns (r: Outcome<Tx>)
      ensures r == Changed(tx, nextRef, StatusChange(status, now, stellar))
    {
      var error := TransitionError(NormalizeState(tx.status), NormalizeState(status));
      if error.Some? {
        return Thrown(error.value);
      }
      var previous := LastStamp(tx);
      var stamp := if now > previous + 1 then now else previous + 1;
      var extra := tx.extra;
      if stellar.ledger != "" { extra := extra["stellarLedger" := stellar.ledger]; }
      if stellar.confirmedAt != "" { extra := extra["confirmedAt" := stellar.confirmedAt]; }
      if stellar.notes.Some? { extra := extra["notes" := stellar.notes.value]; }
      if stellar.tags.Some? { extra := extra["tags" := stellar.tags.value]; }
      assert extra == Reported(tx.extra, stellar);
      var txId := if stellar.transactionId != "" then stellar.transactionId else tx.stellarTxId;
      r := Done(tx.(ref := nextRef, status := NormalizeState(status), statusUpdatedAt := Some(stamp),
                    stellarTxId := txId, extra := extra));
    }

    method UpdateStatus(id: string, status: string, stellar: StellarData, now: int) returns (r: Outcome<Tx>)
      modifies this
      ensures (Value(), r) == UpdateIn(old(Value()), id, StatusChange(status, now, stellar))
    {
      if id !in store {
        return Thrown("not found");
      }
      r := ChangeStatus(store[id], status, stellar, now);
      if r.Done? {
        nextRef := nextRef + 1;
        store := store[id := r.value];
      }
    }

    /** updateFeeBumpData, updateApprovals, updateMatchedDonationId and updateNftData: a copy with
        some fields replaced. */
    method UpdateFields(id: string, extra: map<string, string>, stellarTxId: Option<string>) returns (r: Outcome<Tx>)
      modifies this
      ensures (Value(), r) == UpdateIn(old(Value()), id, FieldChange(extra, stellarTxId))
    {
      if id !in store {
        return Thrown("not found");
      }
      var updated := store[id].(ref := nextRef);
      nextRef := nextRef + 1;
      updated := updated.(extra := updated.extra + extra);
      if stellarTxId.Some? {
        updated := updated.(stellarTxId := stellarTxId.value);
      }
      store := store[id := updated];
      r := Done(updated);
    }

    method OnWriteError(tx: Tx, conflict: bool)
      modifies this
      ensures Value() == WriteFailed(old(Value()), tx, conflict)
    {
      if conflict && tx.id in store && store[tx.id] == tx {
        store := store - {tx.id};
        if tx.key != "" && tx.key in index && index[tx.key] == tx {
          index := index - {tx.key};
        }
      }
    }

    method ClearMaps()
      modifies this
      ensures Value() == Clear(old(Value()))
    {
      store, index := map[], map[];
    }

    method LoadRows(rows: seq<Tx>)
      modifies this
      ensures Value() == Load(old(Value()), rows)
    {
      var i := 0;
      while i < |rows|
        invariant 0 <= i <= |rows|
        invariant Value() == Load(old(Value()), rows[..i])
      {
        var tx := rows[i].(ref := nextRef);
        LoadLast(old(Value()), rows[..i + 1]);
        assert rows[..i + 1][..i] == rows[..i];
        nextRef := nextRef + 1;
        store := store[tx.id := tx];
        if tx.key != "" {
          index := index[tx.key := tx];
        }
        i := i + 1;
      }
      assert rows[..|rows|] == rows;
    }
  }
}
