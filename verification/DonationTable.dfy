/** The table behind the donation store: what an upsert leaves in it, and so what a reload finds. */
module DonationTable {
  import opened Transactions
  import opened TransactionStore

  /** A row: its idempotency_key column, which is UNIQUE, and the record its data column holds. */
  datatype StoredRow = StoredRow(column: string, data: Tx)

  type Table = map<string, StoredRow>

  predicate ColumnTaken(t: Table, key: string) {
    exists id :: id in t && t[id].column == key
  }

  /** _persist: a known id has its data replaced and keeps its key column; a new one is inserted unless
      the key column is taken, which is the conflict the store rolls back on. */
  function Upsert(t: Table, tx: Tx): (r: (Table, bool))
    ensures !r.1 ==> r.0 == t
  {
    if tx.id in t then (t[tx.id := t[tx.id].(data := tx)], true)
    else if tx.key != "" && ColumnTaken(t, tx.key) then (t, false)
    else (t[tx.id := StoredRow(tx.key, tx)], true)
  }

  ghost predicate UniqueColumns(t: Table) {
    && (forall id :: id in t ==> t[id].data.id == id)
    && (forall a, b :: a in t && b in t && t[a].column == t[b].column != "" ==> a == b)
  }

  lemma UpsertKeepsUnique(t: Table, tx: Tx)
    requires UniqueColumns(t)
    ensures UniqueColumns(Upsert(t, tx).0)
  {
  }

  /** Every record still carries the key its row was inserted under. */
  ghost predicate ColumnsAgree(t: Table) {
    forall id :: id in t ==> t[id].column == t[id].data.key
  }

  /** The upsert does not refresh the key column, so it keeps that exactly when it does not store
      another key under a known id. */
  lemma UpsertKeepsAgreementIff(t: Table, tx: Tx)
    requires ColumnsAgree(t)
    ensures ColumnsAgree(Upsert(t, tx).0) <==> (tx.id in t ==> tx.key == t[tx.id].column)
  {
    var u := Upsert(t, tx).0;
    if tx.id in t {
      assert u[tx.id] == StoredRow(t[tx.id].column, tx);
    }
  }

  ghost predicate SameKeys(t: Table, txs: seq<Tx>)
    decreases |txs|
  {
    txs == [] || ((txs[0].id in t ==> txs[0].key == t[txs[0].id].column) && SameKeys(Upsert(t, txs[0]).0, txs[1..]))
  }

  function Writes(t: Table, txs: seq<Tx>): Table
    decreases |txs|
  {
    if txs == [] then t else Writes(Upsert(t, txs[0]).0, txs[1..])
  }

  lemma {:induction false} WritesKeep(t: Table, txs: seq<Tx>)
    requires UniqueColumns(t) && ColumnsAgree(t) && SameKeys(t, txs)
    ensures UniqueColumns(Writes(t, txs)) && ColumnsAgree(Writes(t, txs))
    decreases |txs|
  {
    if txs != [] {
      UpsertKeepsUnique(t, txs[0]);
      UpsertKeepsAgreementIff(t, txs[0]);
      WritesKeep(Upsert(t, txs[0]).0, txs[1..]);
    }
  }

  /** The rows of a SELECT over the table, in some order. */
  ghost predicate Selected(t: Table, ids: seq<string>, rows: seq<Tx>) {
    && |ids| == |rows|
    && (forall i, j :: 0 <= i < j < |ids| ==> ids[i] != ids[j])
    && (forall i :: 0 <= i < |ids| ==> ids[i] in t && rows[i] == t[ids[i]].data)
  }

  /** After any writes that never change the key of a known id, a reload during which nothing is
      created meets the store's guard, and the index holds every reloaded key. */
  lemma ReloadAfterWritesIsSafe(txs: seq<Tx>, s: State, between: seq<Op>, ids: seq<string>, rows: seq<Tx>)
    requires SameKeys(map[], txs) && Selected(Writes(map[], txs), ids, rows)
    requires forall i :: 0 <= i < |between| ==> CreatesNothing(between[i])
    ensures DistinctRows(rows) && SafeToLoad(Run(Clear(s), between), rows)
  {
    WritesKeep(map[], txs);
    var t := Writes(map[], txs);
    forall i, j | 0 <= i < j < |rows| && rows[i].key != "" ensures rows[i].key != rows[j].key {
      assert t[ids[i]].column == rows[i].key && t[ids[j]].column == rows[j].key;
    }
    forall i, j | 0 <= i < j < |rows| ensures rows[i].id != rows[j].id {
      assert rows[i].id == ids[i] && rows[j].id == ids[j];
    }
    QuietReloadIsSafe(s, between, rows);
  }

  /** Storing a taken key under a known id succeeds, and two rows then carry that key. */
  lemma ReusedIdSharesKey(t: Table, tx: Tx, other: string)
    requires UniqueColumns(t) && ColumnsAgree(t)
    requires tx.id in t && other in t && other != tx.id && tx.key == t[other].data.key != ""
    ensures var (u, ok) := Upsert(t, tx);
            ok && u[tx.id].data.key == u[other].data.key != "" && UniqueColumns(u) && !ColumnsAgree(u)
  {
    UpsertKeepsUnique(t, tx);
    UpsertKeepsAgreementIff(t, tx);
  }

  // ------------------------------------------------------- a write and its handler

  /** One awaited write of `tx` and, if the key column conflicts, the handler that rolls back. */
  function Write(t: Table, s: State, tx: Tx): (Table, State) {
    var (u, ok) := Upsert(t, tx);
    (u, if ok then s else WriteFailed(s, tx, true))
  }

  /** The index answers for a donation that is not stored. */
  predicate Orphaned(s: State, key: string) { key in s.index && s.index[key].id !in s.store }

  /** A donation is created under a fresh key and updated before the write of either has come back;
      the two writes then answer in turn. Its key is orphaned, and answers every later create, exactly
      when the table has no row of its id and a row of another donation holds its key; otherwise
      nothing is rolled back. */
  lemma CreateThenUpdateOrphansIff(t: Table, s: State, d: Draft, now: int, uuid: string, c: Change, d': Draft,
                                   now': int, uuid': string)
    requires d.key != "" && d.key !in s.index && NormalizeState(d.status) in STATES
    requires d'.key == d.key && NormalizeState(d'.status) in STATES
    ensures var made := CreateIn(s, d, now, uuid);
            made.1.Done? && var updated := UpdateIn(made.0, made.1.value.id, c);
            updated.1.Done? ==>
              var first := Write(t, updated.0, made.1.value);
              var second := Write(first.0, first.1, updated.1.value);
              && (Orphaned(second.1, d.key) <==> made.1.value.id !in t && ColumnTaken(t, d.key))
              && (!Orphaned(second.1, d.key) ==> second.1 == updated.0)
              && (Orphaned(second.1, d.key) ==> CreateIn(second.1, d', now', uuid') == (second.1, made.1))
  {
    var made := CreateIn(s, d, now, uuid);
    var updated := UpdateIn(made.0, made.1.value.id, c);
    if updated.1.Done? {
      var tx, tx' := made.1.value, updated.1.value;
      assert tx'.ref != tx.ref && tx'.id == tx.id && tx'.key == tx.key == d.key;
      assert updated.0.index[d.key] == tx && updated.0.store[tx.id] == tx';
      ConflictAfterUpdateOrphansKey(s, d, now, uuid, c, d', now', uuid');
    }
  }
}
