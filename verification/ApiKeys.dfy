/**
 * API keys: a table of rows with a monotone status and rotation links, and the TTL cache in
 * front of it. Each exported operation is one atomic step; times are milliseconds.
 */
module ApiKeys {
  import opened Text

  const DAY: nat := 86_400_000

  datatype Status = Active | Deprecated | Revoked

  /** The columns that are only read back: name, role, scopes, metadata, secrets, addresses. */
  type Data = map<string, string>

  /** The columns updateApiKey may set. */
  const UPDATABLE: set<string> := {"name", "role", "metadata", "signing_required", "allowed_ips", "notification_email"}

  function Allowed(updates: Data): Data { map k | k in updates && k in UPDATABLE :: updates[k] }

  datatype Row = Row(
    hash: string, status: Status, data: Data,
    expiresAt: Option<int>, lastUsedAt: Option<int>,
    deprecatedAt: Option<int>, revokedAt: Option<int>,
    graceDays: int, rotatedTo: Option<nat>,
    monthlyQuota: Option<nat>, quotaUsed: nat, quotaResetAt: Option<int>)

  /** The metadata a successful validation returns. */
  datatype Info = Info(
    id: nat, status: Status, data: Data, expiresAt: Option<int>, graceDays: int,
    monthlyQuota: Option<nat>, quotaUsed: nat, quotaResetAt: Option<int>, lastUsedAt: Option<int>)

  /** A cached null is an entry with no value. */
  datatype Entry = Entry(value: Option<Info>, expiresAt: int)

  type Rows = map<nat, Row>

  /** `ttl` is the configured life of a cache entry: a minute unless set, and never above five. */
  datatype State = State(rows: Rows, cache: map<string, Entry>, nextId: nat, ttl: int)

  function Empty(ttl: int): State { State(map[], map[], 1, ttl) }

  // ---------------------------------------------------------------- the operations

  ghost predicate HasHash(rows: Rows, hash: string, id: nat) {
    id in rows && rows[id].hash == hash
  }

  /** SELECT * FROM api_keys WHERE key_hash = ? */
  ghost function Find(rows: Rows, hash: string): (r: Option<nat>)
    ensures r.Some? ==> HasHash(rows, hash, r.value)
    ensures r.None? ==> forall id :: !HasHash(rows, hash, id)
  {
    if id :| HasHash(rows, hash, id) then Some(id) else None
  }

  /** A number column as a condition sees it: zero counts as absent. */
  function Given(o: Option<int>): Option<int> { if o == Some(0) then None else o }

  predicate Usable(row: Row, now: int) {
    row.status != Revoked && !(Given(row.expiresAt).Some? && row.expiresAt.value < now)
  }

  predicate QuotaDue(row: Row, now: int) {
    && row.monthlyQuota.Some? && row.monthlyQuota.value > 0
    && Given(row.quotaResetAt).Some? && row.quotaResetAt.value <= now
  }

  /** The row after a successful lookup: a due quota is reset and the use is recorded. */
  function Touched(row: Row, now: int, nextReset: int): Row {
    var r := if QuotaDue(row, now) then row.(quotaUsed := 0, quotaResetAt := Some(nextReset)) else row;
    r.(lastUsedAt := Some(now))
  }

  function InfoOf(id: nat, row: Row): Info {
    Info(id, row.status, row.data, Given(row.expiresAt), if row.graceDays == 0 then 30 else row.graceDays,
         row.monthlyQuota, row.quotaUsed, row.quotaResetAt, row.lastUsedAt)
  }

  /** What the table alone answers for a key at an instant. */
  ghost function TableAnswer(rows: Rows, hash: string, now: int, nextReset: int): Option<Info> {
    match Find(rows, hash)
    case None => None
    case Some(id) => if Usable(rows[id], now) then Some(InfoOf(id, Touched(rows[id], now, nextReset))) else None
  }

  predicate CacheHit(s: State, hash: string, now: int) {
    hash in s.cache && now <= s.cache[hash].expiresAt && s.cache[hash].value.Some?
  }

  ghost function Validate(s: State, hash: string, now: int, nextReset: int): (State, Option<Info>) {
    if CacheHit(s, hash, now) then (s, s.cache[hash].value)
    else
      var answer := TableAnswer(s.rows, hash, now, nextReset);
      var cache := s.cache[hash := Entry(answer, now + s.ttl)];
      var rows := if answer.Some?
        then s.rows[answer.value.id := Touched(s.rows[answer.value.id], now, nextReset)] else s.rows;
      (s.(rows := rows, cache := cache), answer)
  }

  datatype Op =
    | ValidateOp(hash: string, nextReset: int)
    | CreateOp(row: Row)
    | UpdateOp(id: nat, updates: Data)
    | DeprecateOp(id: nat)
    | RevokeOp(id: nat)
    | RotateOp(id: nat, newHash: string, newData: Data, grace: int)
    | ExtendOp(id: nat, days: int)
    | SweepOp
    | CleanupOp(retentionDays: int)
    | IncrementQuotaOp(id: nat)
    | FlushCacheOp

  datatype Timed = Timed(op: Op, now: int)

  /** A row as createApiKey inserts it. */
  predicate IsNewRow(row: Row) {
    row.status == Active && row.deprecatedAt.None? && row.revokedAt.None? && row.rotatedTo.None? && row.lastUsedAt.None?
  }

  function NewRow(hash: string, data: Data, expiresAt: Option<int>, grace: int, quota: Option<nat>,
                  resetAt: Option<int>): (row: Row)
    ensures IsNewRow(row)
  {
    Row(hash, Active, data, expiresAt, None, None, None, grace, None, quota, 0, resetAt)
  }

  function Insert(s: State, row: Row): State {
    s.(rows := s.rows[s.nextId := row], nextId := s.nextId + 1)
  }

  function Deadline(row: Row): int
    requires row.deprecatedAt.Some?
  {
    row.deprecatedAt.value + row.graceDays * DAY
  }

  /** The WHERE clause of the sweep. */
  predicate Due(row: Row, now: int) {
    row.status == Deprecated && row.deprecatedAt.Some? && Deadline(row) <= now
  }

  function Revoke(row: Row, now: int): Row { row.(status := Revoked, revokedAt := Some(now)) }

  predicate OldRevoked(row: Row, cutoff: int) {
    row.status == Revoked && row.revokedAt.Some? && row.revokedAt.value < cutoff
  }

  ghost function Step(s: State, t: Timed): State {
    var now := t.now;
    match t.op
    case ValidateOp(hash, nextReset) => Validate(s, hash, now, nextReset).0
    case CreateOp(row) => Insert(s, row)
    case UpdateOp(id, updates) =>
      if id in s.rows && Allowed(updates) != map[]
        then s.(rows := s.rows[id := s.rows[id].(data := s.rows[id].data + Allowed(updates))]) else s
    case DeprecateOp(id) =>
      if id in s.rows && s.rows[id].status == Active then
        s.(rows := s.rows[id := s.rows[id].(status := Deprecated, deprecatedAt := Some(now))],
           cache := s.cache - {s.rows[id].hash})
      else s
    case RevokeOp(id) =>
      if id in s.rows && s.rows[id].status != Revoked then
        s.(rows := s.rows[id := Revoke(s.rows[id], now)], cache := s.cache - {s.rows[id].hash})
      else s
    case RotateOp(id, newHash, newData, grace) =>
      if id in s.rows && s.rows[id].status != Revoked then
        var s' := Insert(s, NewRow(newHash, newData, None, grace, None, None));
        s'.(rows := s'.rows[id := s.rows[id].(status := Deprecated, deprecatedAt := Some(now),
                                              rotatedTo := Some(s.nextId), graceDays := grace)])
      else s
    case ExtendOp(id, days) =>
      if id in s.rows && s.rows[id].status != Revoked then
        var base := if Given(s.rows[id].expiresAt).Some? then s.rows[id].expiresAt.value else now;
        s.(rows := s.rows[id := s.rows[id].(expiresAt := Some(base + days * DAY))],
           cache := s.cache - {s.rows[id].hash})
      else s
    case SweepOp => s.(rows := map id | id in s.rows :: if Due(s.rows[id], now)
      then Revoke(s.rows[id], now) else s.rows[id])
    case CleanupOp(retentionDays) =>
      s.(rows := map id | id in s.rows && !OldRevoked(s.rows[id], now - retentionDays * DAY) :: s.rows[id])
    case IncrementQuotaOp(id) =>
      if id in s.rows then s.(rows := s.rows[id := s.rows[id].(quotaUsed := s.rows[id].quotaUsed + 1)]) else s
    case FlushCacheOp => s.(cache := map[])
  }

  ghost function Run(s: State, ops: seq<Timed>): State
    decreases |ops|
  {
    if ops == [] then s else Step(Run(s, ops[..|ops| - 1]), ops[|ops| - 1])
  }

  /** Hashes are 256-bit digests of fresh random keys: none is drawn twice. */
  ghost predicate FreshKey(s: State, op: Op) {
    && (op.CreateOp? ==> IsNewRow(op.row) && forall id :: id in s.rows ==> s.rows[id].hash != op.row.hash)
    && (op.RotateOp? ==> forall id :: id in s.rows ==> s.rows[id].hash != op.newHash)
  }

  ghost predicate FreshFrom(s: State, ops: seq<Timed>)
    decreases |ops|
  {
    ops == []
    || (FreshFrom(s, ops[..|ops| - 1]) && FreshKey(Run(s, ops[..|ops| - 1]), ops[|ops| - 1].op))
  }

  ghost predicate FreshRun(ttl: int, ops: seq<Timed>) { FreshFrom(Empty(ttl), ops) }

  ghost predicate ClockNeverBack(ops: seq<Timed>) {
    forall i, j :: 0 <= i < j < |ops| ==> ops[i].now <= ops[j].now
  }

  // --------------------------------------------------------------------- the table

  ghost predicate TableOk(s: State) {
    && (forall id :: id in s.rows ==> id < s.nextId)
    && (forall a, b :: a in s.rows && b in s.rows && s.rows[a].hash == s.rows[b].hash ==> a == b)
    && (forall id :: id in s.rows && s.rows[id].rotatedTo.Some? ==> id < s.rows[id].rotatedTo.value < s.nextId)
  }

  // ----------------------------------------- what a caller of one operation gets

  /** The key can be used: known, not revoked, and its expiry, if any, not before now. */
  ghost predicate Valid(s: State, id: nat, hash: string, now: int) {
    && id in s.rows && s.rows[id].hash == hash && s.rows[id].status != Revoked
    && match s.rows[id].expiresAt case None => true case Some(at) => at == 0 || now <= at
  }

  /** The quota is limited and its reset instant has come. */
  predicate ResetDue(row: Row, now: int) {
    && (row.monthlyQuota.Some? && row.monthlyQuota.value != 0)
    && match row.quotaResetAt case None => false case Some(at) => at != 0 && at <= now
  }

  /** Without a live cached value, validating a key answers with metadata exactly when the key can be
      used, and caches its answer, null included, for one TTL. */
  lemma ValidateAnswersIff(s: State, hash: string, now: int, nextReset: int)
    requires !(hash in s.cache && now <= s.cache[hash].expiresAt && s.cache[hash].value.Some?)
    requires TableOk(s)
    ensures var (t, r) := Validate(s, hash, now, nextReset);
            && (r.Some? <==> exists id: nat :: Valid(s, id, hash, now))
            && t.cache == s.cache[hash := Entry(r, now + s.ttl)] && t.nextId == s.nextId && t.ttl == s.ttl
            && (r.None? ==> t.rows == s.rows)
  {
    if Find(s.rows, hash).Some? {
      assert HasHash(s.rows, hash, Find(s.rows, hash).value);
    }
    forall id: nat | Valid(s, id, hash, now) ensures Find(s.rows, hash) == Some(id) {
      assert HasHash(s.rows, hash, id);
    }
  }

  /** What it answers: the columns of the key's row, a due quota reset to zero uses, and now as the
      last use; the row changes in the same way and no other does. */
  lemma ValidateMeans(s: State, hash: string, now: int, nextReset: int, id: nat)
    requires !(hash in s.cache && now <= s.cache[hash].expiresAt && s.cache[hash].value.Some?)
    requires TableOk(s) && Valid(s, id, hash, now)
    ensures var (t, r) := Validate(s, hash, now, nextReset);
            var row := s.rows[id];
            && r.Some?
            && r.value.id == id && r.value.status == row.status && r.value.data == row.data
            && r.value.expiresAt == (if row.expiresAt == Some(0) then None else row.expiresAt)
            && r.value.graceDays == (if row.graceDays == 0 then 30 else row.graceDays)
            && r.value.monthlyQuota == row.monthlyQuota && r.value.lastUsedAt == Some(now)
            && r.value.quotaUsed == (if ResetDue(row, now) then 0 else row.quotaUsed)
            && r.value.quotaResetAt == (if ResetDue(row, now) then Some(nextReset) else row.quotaResetAt)
            && t.rows == s.rows[id := row.(quotaUsed := r.value.quotaUsed, quotaResetAt := r.value.quotaResetAt,
                                           lastUsedAt := Some(now))]
  {
    assert HasHash(s.rows, hash, id);
    assert Find(s.rows, hash) == Some(id);
  }

  /** A live cached value is the answer, and nothing changes. */
  lemma CachedAnswer(s: State, hash: string, now: int, nextReset: int)
    requires hash in s.cache && now <= s.cache[hash].expiresAt && s.cache[hash].value.Some?
    ensures Validate(s, hash, now, nextReset) == (s, s.cache[hash].value)
  {
  }

  /** No row but this one is added, changed or deleted. */
  ghost predicate OnlyRow(s: State, t: State, id: nat) {
    forall k :: k != id ==> (k in t.rows <==> k in s.rows) && (k in s.rows ==> t.rows[k] == s.rows[k])
  }

  /** A new key is active and unused, with what was asked for in its columns. */
  lemma CreateMeans(s: State, hash: string, data: Data, expiresAt: Option<int>, grace: int, quota: Option<nat>,
                    resetAt: Option<int>, now: int)
    requires TableOk(s)
    ensures var row := NewRow(hash, data, expiresAt, grace, quota, resetAt);
            var t := Step(s, Timed(CreateOp(row), now));
            && row.hash == hash && row.status == Active && row.data == data && row.expiresAt == expiresAt
            && row.graceDays == grace && row.monthlyQuota == quota && row.quotaUsed == 0 && row.quotaResetAt == resetAt
            && row.lastUsedAt.None? && row.deprecatedAt.None? && row.revokedAt.None? && row.rotatedTo.None?
            && s.nextId !in s.rows && t == s.(rows := s.rows[s.nextId := row], nextId := s.nextId + 1)
  {
  }

  /** Deprecating changes an active key, revoking one not revoked; both stamp the row, and drop the
      key's cache entry and no other. */
  lemma DeprecateMeans(s: State, id: nat, now: int)
    ensures var t := Step(s, Timed(DeprecateOp(id), now));
            if id in s.rows && s.rows[id].status == Active then
              && id in t.rows && OnlyRow(s, t, id)
              && t.rows[id] == s.rows[id].(status := Deprecated, deprecatedAt := Some(now))
              && t.cache == s.cache - {s.rows[id].hash} && t.nextId == s.nextId && t.ttl == s.ttl
            else t == s
  {
  }

  lemma RevokeMeans(s: State, id: nat, now: int)
    ensures var t := Step(s, Timed(RevokeOp(id), now));
            if id in s.rows && s.rows[id].status != Revoked then
              && id in t.rows && OnlyRow(s, t, id)
              && t.rows[id] == s.rows[id].(status := Revoked, revokedAt := Some(now))
              && t.cache == s.cache - {s.rows[id].hash} && t.nextId == s.nextId && t.ttl == s.ttl
            else t == s
  {
  }

  /** Rotating a key not revoked adds an active one and deprecates and links the old one, whose columns
      otherwise stay; the cache is left alone. */
  lemma RotateMeans(s: State, id: nat, newHash: string, newData: Data, grace: int, now: int)
    requires TableOk(s)
    ensures var t := Step(s, Timed(RotateOp(id, newHash, newData, grace), now));
            if id in s.rows && s.rows[id].status != Revoked then
              && t.nextId == s.nextId + 1 && t.cache == s.cache && t.ttl == s.ttl
              && t.rows.Keys == s.rows.Keys + {s.nextId} && s.nextId !in s.rows
              && (forall k :: k in s.rows && k != id ==> t.rows[k] == s.rows[k])
              && t.rows[id] == s.rows[id].(status := Deprecated, deprecatedAt := Some(now), rotatedTo := Some(s.nextId),
                                           graceDays := grace)
              && t.rows[s.nextId].hash == newHash && t.rows[s.nextId].status == Active
              && t.rows[s.nextId].data == newData && t.rows[s.nextId].graceDays == grace
              && t.rows[s.nextId].expiresAt.None? && t.rows[s.nextId].monthlyQuota.None?
            else t == s
  {
  }

  /** Extending adds whole days to the expiry, or to now if there is none, and drops the cache entry. */
  lemma ExtendMeans(s: State, id: nat, days: int, now: int)
    ensures var t := Step(s, Timed(ExtendOp(id, days), now));
            if id in s.rows && s.rows[id].status != Revoked then
              var from := match s.rows[id].expiresAt case None => now case Some(at) => if at == 0 then now else at;
              && id in t.rows && OnlyRow(s, t, id)
              && t.rows[id] == s.rows[id].(expiresAt := Some(from + days * (24 * 60 * 60 * 1000)))
              && t.cache == s.cache - {s.rows[id].hash} && t.nextId == s.nextId && t.ttl == s.ttl
            else t == s
  {
  }

  /** Of what an update gives, the six columns that may be set are, and everything else stays. */
  lemma UpdateMeans(s: State, id: nat, updates: Data, now: int, column: string)
    ensures var t := Step(s, Timed(UpdateOp(id, updates), now));
            && OnlyRow(s, t, id) && t.cache == s.cache && t.nextId == s.nextId && t.ttl == s.ttl
            && (id in t.rows <==> id in s.rows)
            && (id in s.rows ==>
                  var (was, got) := (s.rows[id], t.rows[id]);
                  && got == was.(data := got.data)
                  && (column in updates && column in ["name", "role", "metadata", "signing_required", "allowed_ips",
                                                      "notification_email"] ==>
                        column in got.data && got.data[column] == updates[column])
                  && (!(column in updates && column in ["name", "role", "metadata", "signing_required", "allowed_ips",
                                                        "notification_email"]) ==>
                        && (column in got.data <==> column in was.data)
                        && (column in was.data ==> got.data[column] == was.data[column])))
  {
  }

  /** The sweep revokes exactly the deprecated keys whose grace period, in days, is over, and the
      cleanup deletes exactly the keys revoked before the retention period; neither touches the cache. */
  lemma SweepMeans(s: State, now: int, id: nat)
    ensures var t := Step(s, Timed(SweepOp, now));
            && t == s.(rows := t.rows) && (id in t.rows <==> id in s.rows)
            && (id in s.rows ==>
                  var row := s.rows[id];
                  if row.status == Deprecated && row.deprecatedAt.Some?
                     && row.deprecatedAt.value + row.graceDays * 86400000 <= now
                  then t.rows[id] == row.(status := Revoked, revokedAt := Some(now)) else t.rows[id] == row)
  {
  }

  lemma CleanupMeans(s: State, retentionDays: int, now: int, id: nat)
    ensures var t := Step(s, Timed(CleanupOp(retentionDays), now));
            && t == s.(rows := t.rows)
            && (id in t.rows <==>
                  id in s.rows
                  && !(s.rows[id].status == Revoked && s.rows[id].revokedAt.Some?
                       && s.rows[id].revokedAt.value < now - retentionDays * (24 * 60 * 60 * 1000)))
            && (id in t.rows ==> t.rows[id] == s.rows[id])
  {
  }

  /** One use is counted on the key's row. */
  lemma IncrementMeans(s: State, id: nat, now: int)
    ensures var t := Step(s, Timed(IncrementQuotaOp(id), now));
            && t == s.(rows := t.rows) && OnlyRow(s, t, id) && (id in t.rows <==> id in s.rows)
            && (id in s.rows ==> t.rows[id] == s.rows[id].(quotaUsed := s.rows[id].quotaUsed + 1))
  {
  }

  // -------------------------------------------------------- what every operation keeps

  /** Rewriting a row in place, short of its hash and its rotation link. */
  lemma RewriteKeepsTable(s: State, id: nat, row: Row, cache: map<string, Entry>)
    requires TableOk(s) && id in s.rows
    requires row.hash == s.rows[id].hash && row.rotatedTo == s.rows[id].rotatedTo
    ensures TableOk(s.(rows := s.rows[id := row], cache := cache))
  {
  }

  lemma InsertKeepsTable(s: State, row: Row)
    requires TableOk(s) && row.rotatedTo.None?
    requires forall id :: id in s.rows ==> s.rows[id].hash != row.hash
    ensures TableOk(Insert(s, row))
  {
  }

  lemma RotateKeepsTable(s: State, t: Timed)
    requires TableOk(s) && FreshKey(s, t.op) && t.op.RotateOp?
    ensures TableOk(Step(s, t))
  {
    if t.op.id in s.rows && s.rows[t.op.id].status != Revoked {
      InsertKeepsTable(s, NewRow(t.op.newHash, t.op.newData, None, t.op.grace, None, None));
    }
  }

  lemma StepKeepsTable(s: State, t: Timed)
    requires TableOk(s) && FreshKey(s, t.op)
    ensures TableOk(Step(s, t))
  {
    match t.op
    case ValidateOp(hash, nextReset) =>
      var answer := TableAnswer(s.rows, hash, t.now, nextReset);
      if !CacheHit(s, hash, t.now) && answer.Some? {
        var id := answer.value.id;
        RewriteKeepsTable(s, id, Touched(s.rows[id], t.now, nextReset), Step(s, t).cache);
      }
    case CreateOp(row) => InsertKeepsTable(s, row);
    case RotateOp(_, _, _, _) => RotateKeepsTable(s, t);
    case SweepOp =>
    case CleanupOp(_) =>
    case FlushCacheOp =>
    case _ =>
      var s' := Step(s, t);
      if s' != s {
        RewriteKeepsTable(s, t.op.id, s'.rows[t.op.id], s'.cache);
      }
  }

  function Rank(status: Status): nat {
    match status
    case Active => 0
    case Deprecated => 1
    case Revoked => 2
  }

  /** From s to t the key's status has not gone back, its hash has not changed, and if it has been
      deleted it has not come back. */
  ghost predicate Forward(s: State, t: State, id: nat) {
    && s.nextId <= t.nextId
    && (id in t.rows ==> id in s.rows && t.rows[id].hash == s.rows[id].hash)
    && (id in s.rows && id in t.rows ==> Rank(s.rows[id].status) <= Rank(t.rows[id].status))
  }

  lemma StatusMovesForward(s: State, t: Timed, id: nat)
    requires TableOk(s) && FreshKey(s, t.op) && id < s.nextId
    ensures Forward(s, Step(s, t), id)
  {
    if id in Step(s, t).rows {
      RowMovesForward(s, t, id);
    }
  }

  lemma RotatedRowMovesForward(s: State, t: Timed, id: nat)
    requires TableOk(s) && id < s.nextId && id in Step(s, t).rows && t.op.RotateOp?
    ensures id in s.rows && Step(s, t).rows[id].hash == s.rows[id].hash
    ensures Rank(s.rows[id].status) <= Rank(Step(s, t).rows[id].status)
  {
  }

  lemma RowMovesForward(s: State, t: Timed, id: nat)
    requires TableOk(s) && id < s.nextId && id in Step(s, t).rows
    ensures id in s.rows && Step(s, t).rows[id].hash == s.rows[id].hash
    ensures Rank(s.rows[id].status) <= Rank(Step(s, t).rows[id].status)
  {
    if t.op.RotateOp? {
      RotatedRowMovesForward(s, t, id);
    }
  }

  lemma {:induction false} FreshPrefix(s: State, ops: seq<Timed>, n: nat)
    requires FreshFrom(s, ops) && n <= |ops|
    ensures FreshFrom(s, ops[..n])
    ensures n < |ops| ==> FreshKey(Run(s, ops[..n]), ops[n].op)
    decreases |ops|
  {
    if n < |ops| {
      var before := ops[..|ops| - 1];
      FreshPrefix(s, before, n);
      assert before[..n] == ops[..n];
    } else {
      assert ops[..n] == ops;
    }
  }

  lemma {:induction false} RunKeepsTable(s: State, ops: seq<Timed>)
    requires TableOk(s) && FreshFrom(s, ops)
    ensures TableOk(Run(s, ops)) && Run(s, ops).nextId >= s.nextId
    decreases |ops|
  {
    if ops != [] {
      var before := ops[..|ops| - 1];
      FreshPrefix(s, ops, |ops| - 1);
      RunKeepsTable(s, before);
      LastStepKeepsTable(s, ops);
      assert Run(s, ops).nextId >= Run(s, before).nextId >= s.nextId;
    }
  }

  lemma LastStepKeepsTable(s: State, ops: seq<Timed>)
    requires ops != [] && TableOk(Run(s, ops[..|ops| - 1])) && FreshFrom(s, ops)
    ensures TableOk(Run(s, ops)) && Run(s, ops).nextId >= Run(s, ops[..|ops| - 1]).nextId
  {
    assert FreshKey(Run(s, ops[..|ops| - 1]), ops[|ops| - 1].op);
    StepKeepsTable(Run(s, ops[..|ops| - 1]), ops[|ops| - 1]);
  }

  lemma LastStepForward(s: State, ops: seq<Timed>, id: nat)
    requires TableOk(s) && FreshFrom(s, ops) && ops != [] && id < Run(s, ops[..|ops| - 1]).nextId
    ensures Forward(Run(s, ops[..|ops| - 1]), Run(s, ops), id)
  {
    FreshPrefix(s, ops, |ops| - 1);
    RunKeepsTable(s, ops[..|ops| - 1]);
    StatusMovesForward(Run(s, ops[..|ops| - 1]), ops[|ops| - 1], id);
  }

  lemma RunSnoc(s: State, ops: seq<Timed>, n: nat)
    requires n < |ops|
    ensures Run(s, ops[..n + 1]) == Step(Run(s, ops[..n]), ops[n])
  {
    assert ops[..n + 1][..n] == ops[..n];
  }

  /** Along every run a status only moves forward, and an id once given out is never given out
      again. */
  lemma {:induction false} RunStatusMovesForward(ttl: int, ops: seq<Timed>, i: nat, id: nat)
    requires FreshRun(ttl, ops) && i <= |ops| && id < Run(Empty(ttl), ops[..i]).nextId
    ensures Forward(Run(Empty(ttl), ops[..i]), Run(Empty(ttl), ops), id)
    decreases |ops|
  {
    var n := |ops|;
    if i == n {
      assert ops[..n] == ops;
    } else {
      FreshPrefix(Empty(ttl), ops, n - 1);
      assert ops[..n - 1][..i] == ops[..i];
      RunStatusMovesForward(ttl, ops[..n - 1], i, id);
      LastStepForward(Empty(ttl), ops, id);
    }
  }

  // ------------------------------------------------------------- the cache is fresh

  /** An entry of the cache was there before the step, or the step is the lookup that made it. */
  lemma CacheOrigin(s: State, t: Timed, hash: string)
    requires hash in Step(s, t).cache
    ensures || (hash in s.cache && Step(s, t).cache[hash] == s.cache[hash])
            || (t.op.ValidateOp? && t.op.hash == hash
                && Step(s, t).cache[hash] == Entry(TableAnswer(s.rows, hash, t.now, t.op.nextReset), t.now + s.ttl))
  {
  }

  /** Operation i of the run was the lookup that gave `info` and set its expiry. */
  ghost predicate MadeBy(ttl: int, ops: seq<Timed>, i: nat, hash: string, info: Info, expiresAt: int) {
    && i < |ops|
    && ops[i].op.ValidateOp? && ops[i].op.hash == hash
    && expiresAt == ops[i].now + ttl
    && TableAnswer(Run(Empty(ttl), ops[..i]).rows, hash, ops[i].now, ops[i].op.nextReset) == Some(info)
  }

  lemma {:induction false} TtlStays(s: State, ops: seq<Timed>)
    ensures Run(s, ops).ttl == s.ttl
    decreases |ops|
  {
    if ops != [] {
      TtlStays(s, ops[..|ops| - 1]);
    }
  }

  lemma {:induction false} CacheIsBacked(ttl: int, ops: seq<Timed>, hash: string) returns (i: nat)
    requires var c := Run(Empty(ttl), ops).cache; hash in c && c[hash].value.Some?
    ensures var e := Run(Empty(ttl), ops).cache[hash]; MadeBy(ttl, ops, i, hash, e.value.value, e.expiresAt)
    decreases |ops|
  {
    var n := |ops| - 1;
    var s := Run(Empty(ttl), ops[..n]);
    TtlStays(Empty(ttl), ops[..n]);
    CacheOrigin(s, ops[n], hash);
    if hash in s.cache && Run(Empty(ttl), ops).cache[hash] == s.cache[hash] {
      i := CacheIsBacked(ttl, ops[..n], hash);
      assert ops[..n][..i] == ops[..i];
    } else {
      i := n;
    }
  }

  /** Over every run of key operations, a non-null answer is what the table itself gave at some
      instant at most one TTL ago. */
  lemma AnswersAreFresh(ttl: int, ops: seq<Timed>, hash: string, now: int, nextReset: int)
    requires ClockNeverBack(ops) && (forall i :: 0 <= i < |ops| ==> ops[i].now <= now)
    requires Validate(Run(Empty(ttl), ops), hash, now, nextReset).1.Some?
    ensures exists i, at, reset ::
              && 0 <= i <= |ops| && (at == now || now - ttl <= at <= now)
              && (i < |ops| ==> at == ops[i].now)
              && Validate(Run(Empty(ttl), ops), hash, now, nextReset).1
                == TableAnswer(Run(Empty(ttl), ops[..i]).rows, hash, at, reset)
  {
    var s := Run(Empty(ttl), ops);
    if CacheHit(s, hash, now) {
      var i := CacheIsBacked(ttl, ops, hash);
      assert TableAnswer(Run(Empty(ttl), ops[..i]).rows, hash, ops[i].now, ops[i].op.nextReset) == s.cache[hash].value;
    } else {
      assert ops[..|ops|] == ops;
      assert TableAnswer(Run(Empty(ttl), ops[..|ops|]).rows, hash, now, nextReset)
             == Validate(s, hash, now, nextReset).1;
    }
  }

  // -------------------------------------------------------------- revoked for good

  /** The key's row is revoked or gone, and the cache answers for it until `until` at most. */
  ghost predicate Dying(s: State, hash: string, until: int) {
    && (forall id :: HasHash(s.rows, hash, id) ==> s.rows[id].status == Revoked)
    && (hash in s.cache && s.cache[hash].value.Some? ==> s.cache[hash].expiresAt <= until)
  }

  /** The operation makes a row with this hash. */
  predicate Draws(op: Op, hash: string) {
    (op.CreateOp? && op.row.hash == hash) || (op.RotateOp? && op.newHash == hash)
  }

  lemma StepKeepsDying(s: State, t: Timed, hash: string, until: int)
    requires TableOk(s) && FreshKey(s, t.op) && Dying(s, hash, until) && !Draws(t.op, hash)
    ensures Dying(Step(s, t), hash, until)
  {
    var s' := Step(s, t);
    forall id: nat | HasHash(s'.rows, hash, id) ensures s'.rows[id].status == Revoked {
      if id < s.nextId {
        StatusMovesForward(s, t, id);
        assert HasHash(s.rows, hash, id);
      } else {
        InsertedHash(s, t, id);
      }
    }
    if hash in s'.cache {
      CacheOrigin(s, t, hash);
    }
  }

  lemma InsertedHash(s: State, t: Timed, id: nat)
    requires TableOk(s) && id in Step(s, t).rows && id >= s.nextId
    ensures Draws(t.op, Step(s, t).rows[id].hash)
  {
  }

  lemma {:induction false} RunKeepsDying(ttl: int, ops: seq<Timed>, i: nat, hash: string, until: int)
    requires FreshRun(ttl, ops) && i <= |ops| && Dying(Run(Empty(ttl), ops[..i]), hash, until)
    requires forall j :: i <= j < |ops| ==> !Draws(ops[j].op, hash)
    ensures Dying(Run(Empty(ttl), ops), hash, until)
    decreases |ops|
  {
    var n := |ops|;
    if i == n {
      assert ops[..n] == ops;
    } else {
      FreshPrefix(Empty(ttl), ops, n - 1);
      assert ops[..n - 1][..i] == ops[..i];
      RunKeepsDying(ttl, ops[..n - 1], i, hash, until);
      LastStepKeepsDying(ttl, ops, hash, until);
    }
  }

  lemma LastStepKeepsDying(ttl: int, ops: seq<Timed>, hash: string, until: int)
    requires FreshRun(ttl, ops) && ops != [] && !Draws(ops[|ops| - 1].op, hash)
    requires Dying(Run(Empty(ttl), ops[..|ops| - 1]), hash, until)
    ensures Dying(Run(Empty(ttl), ops), hash, until)
  {
    var before := ops[..|ops| - 1];
    FreshPrefix(Empty(ttl), ops, |ops| - 1);
    RunKeepsTable(Empty(ttl), before);
    assert FreshKey(Run(Empty(ttl), before), ops[|ops| - 1].op);
    StepKeepsDying(Run(Empty(ttl), before), ops[|ops| - 1], hash, until);
  }

  lemma DyingAnswersNull(s: State, hash: string, until: int, now: int, nextReset: int)
    requires Dying(s, hash, until) && now > until
    ensures Validate(s, hash, now, nextReset).1 == None
  {
  }

  /** Once revokeApiKey has succeeded, every later answer for that key is null. */
  lemma RevokedForGood(ttl: int, ops: seq<Timed>, i: nat, id: nat, hash: string, now: int, nextReset: int)
    requires FreshRun(ttl, ops) && i < |ops| && ops[i].op == RevokeOp(id)
    requires var s := Run(Empty(ttl), ops[..i]); id in s.rows && s.rows[id].status != Revoked && s.rows[id].hash == hash
    requires forall j :: i < j < |ops| ==> !Draws(ops[j].op, hash)
    ensures Validate(Run(Empty(ttl), ops), hash, now, nextReset).1 == None
  {
    RunSnoc(Empty(ttl), ops, i);
    FreshPrefix(Empty(ttl), ops, i);
    RunKeepsTable(Empty(ttl), ops[..i]);
    assert Dying(Run(Empty(ttl), ops[..i + 1]), hash, now - 1);
    RunKeepsDying(ttl, ops, i + 1, hash, now - 1);
    DyingAnswersNull(Run(Empty(ttl), ops), hash, now - 1, now, nextReset);
  }

  /** However a key came to be revoked (the sweep leaves the cache alone), its answers are null
      from one TTL after the revocation on. */
  lemma RevokedWithinTtl(ttl: int, ops: seq<Timed>, i: nat, id: nat, hash: string, now: int, nextReset: int)
    requires FreshRun(ttl, ops) && ClockNeverBack(ops) && 1 <= i <= |ops|
    requires var s := Run(Empty(ttl), ops[..i]); id in s.rows && s.rows[id].status == Revoked && s.rows[id].hash == hash
    requires forall j :: i <= j < |ops| ==> !Draws(ops[j].op, hash)
    requires now > ops[i - 1].now + ttl
    ensures Validate(Run(Empty(ttl), ops), hash, now, nextReset).1 == None
  {
    var until := ops[i - 1].now + ttl;
    RevokedIsDying(ttl, ops, i, id, hash);
    RunKeepsDying(ttl, ops, i, hash, until);
    DyingAnswersNull(Run(Empty(ttl), ops), hash, until, now, nextReset);
  }

  lemma RevokedIsDying(ttl: int, ops: seq<Timed>, i: nat, id: nat, hash: string)
    requires FreshRun(ttl, ops) && ClockNeverBack(ops) && 1 <= i <= |ops|
    requires var s := Run(Empty(ttl), ops[..i]); id in s.rows && s.rows[id].status == Revoked && s.rows[id].hash == hash
    ensures Dying(Run(Empty(ttl), ops[..i]), hash, ops[i - 1].now + ttl)
  {
    var s := Run(Empty(ttl), ops[..i]);
    FreshPrefix(Empty(ttl), ops, i);
    RunKeepsTable(Empty(ttl), ops[..i]);
    if hash in s.cache && s.cache[hash].value.Some? {
      var j := CacheIsBacked(ttl, ops[..i], hash);
      assert ops[..i][j] == ops[j] && ops[j].now <= ops[i - 1].now;
    }
  }

  // ------------------------------------------------------------------ expiry

  /** No two operations of the run make a row with this hash. */
  ghost predicate DrawnOnce(ops: seq<Timed>, hash: string) {
    forall i, j :: 0 <= i < j < |ops| ==> !(Draws(ops[i].op, hash) && Draws(ops[j].op, hash))
  }

  ghost predicate Drawn(ops: seq<Timed>, hash: string) { exists i :: 0 <= i < |ops| && Draws(ops[i].op, hash) }

  /** No row has the hash, and the cache answers for it with nothing. */
  ghost predicate Unknown(s: State, hash: string) {
    (forall id :: !HasHash(s.rows, hash, id)) && !(hash in s.cache && s.cache[hash].value.Some?)
  }

  /** The cache outlives the expiry of the hash's row by one TTL at most. */
  ghost predicate WithinExpiry(s: State, hash: string) {
    hash in s.cache && s.cache[hash].value.Some? ==>
      forall id :: HasHash(s.rows, hash, id) && Given(s.rows[id].expiresAt).Some? ==>
        s.cache[hash].expiresAt <= s.rows[id].expiresAt.value + s.ttl
  }

  lemma StepKeepsUnknown(s: State, t: Timed, hash: string)
    requires TableOk(s) && Unknown(s, hash)
    ensures !Draws(t.op, hash) ==> Unknown(Step(s, t), hash)
    ensures hash in Step(s, t).cache ==> Step(s, t).cache[hash].value.None?
  {
    var s' := Step(s, t);
    if hash in s'.cache { CacheOrigin(s, t, hash); }
    forall id: nat | HasHash(s'.rows, hash, id) ensures Draws(t.op, hash) {
      if id < s.nextId {
        RowMovesForward(s, t, id);
        assert HasHash(s.rows, hash, id);
      } else {
        InsertedHash(s, t, id);
      }
    }
  }

  lemma StepKeepsExpiry(s: State, t: Timed, id: nat)
    requires TableOk(s) && id in Step(s, t).rows && id < s.nextId
    ensures id in s.rows
    ensures Step(s, t).rows[id].expiresAt == s.rows[id].expiresAt
            || (t.op.ExtendOp? && s.rows[id].hash !in Step(s, t).cache)
  {
    RowMovesForward(s, t, id);
  }

  lemma CachedNow(s: State, t: Timed, hash: string, id: nat)
    requires TableOk(s) && t.op.ValidateOp? && t.op.hash == hash && HasHash(s.rows, hash, id)
    requires TableAnswer(s.rows, hash, t.now, t.op.nextReset).Some? && Given(s.rows[id].expiresAt).Some?
    ensures t.now <= s.rows[id].expiresAt.value
  {
    assert HasHash(s.rows, hash, Find(s.rows, hash).value);
  }

  lemma StepKeepsWithin(s: State, t: Timed, hash: string)
    requires TableOk(s) && WithinExpiry(s, hash) && !Draws(t.op, hash)
    ensures WithinExpiry(Step(s, t), hash)
  {
    var s' := Step(s, t);
    if hash in s'.cache && s'.cache[hash].value.Some? {
      CacheOrigin(s, t, hash);
      forall id: nat | HasHash(s'.rows, hash, id) && Given(s'.rows[id].expiresAt).Some?
        ensures s'.cache[hash].expiresAt <= s'.rows[id].expiresAt.value + s'.ttl
      {
        if id >= s.nextId { InsertedHash(s, t, id); }
        RowMovesForward(s, t, id);
        StepKeepsExpiry(s, t, id);
        assert HasHash(s.rows, hash, id);
        if !(hash in s.cache && s'.cache[hash] == s.cache[hash]) {
          CachedNow(s, t, hash, id);
        }
      }
    }
  }

  lemma {:induction false} RunWithinExpiry(ttl: int, ops: seq<Timed>, hash: string)
    requires FreshRun(ttl, ops) && DrawnOnce(ops, hash)
    ensures WithinExpiry(Run(Empty(ttl), ops), hash)
    ensures !Drawn(ops, hash) ==> Unknown(Run(Empty(ttl), ops), hash)
    decreases |ops|
  {
    if ops != [] {
      var n := |ops| - 1;
      var before := ops[..n];
      FreshPrefix(Empty(ttl), ops, n);
      RunKeepsTable(Empty(ttl), before);
      assert forall i :: 0 <= i < n ==> before[i] == ops[i];
      RunWithinExpiry(ttl, before, hash);
      if Drawn(before, hash) {
        var i :| 0 <= i < n && Draws(before[i].op, hash);
        assert !Draws(ops[n].op, hash) && Draws(ops[i].op, hash);
        StepKeepsWithin(Run(Empty(ttl), before), ops[n], hash);
      } else {
        StepKeepsUnknown(Run(Empty(ttl), before), ops[n], hash);
        assert !Drawn(ops, hash) ==> !Draws(ops[n].op, hash);
      }
    }
  }

  /** In every run in which the key's hash is drawn once: past its expiry, and one TTL past it, the key
      is answered null, whatever the cache holds. */
  lemma ExpiredWithinTtl(ttl: int, ops: seq<Timed>, id: nat, hash: string, at: int, now: int, nextReset: int)
    requires FreshRun(ttl, ops) && DrawnOnce(ops, hash)
    requires var s := Run(Empty(ttl), ops); id in s.rows && s.rows[id].hash == hash && s.rows[id].expiresAt == Some(at)
    requires at != 0 && now > at && now > at + ttl
    ensures Validate(Run(Empty(ttl), ops), hash, now, nextReset).1 == None
  {
    var s := Run(Empty(ttl), ops);
    RunKeepsTable(Empty(ttl), ops);
    TtlStays(Empty(ttl), ops);
    RunWithinExpiry(ttl, ops, hash);
    assert HasHash(s.rows, hash, id);
    ValidateNull(s, hash, id, now, nextReset);
  }

  lemma ValidateNull(s: State, hash: string, id: nat, now: int, nextReset: int)
    requires TableOk(s) && WithinExpiry(s, hash) && HasHash(s.rows, hash, id) && Given(s.rows[id].expiresAt).Some?
    requires now > s.rows[id].expiresAt.value && now > s.rows[id].expiresAt.value + s.ttl
    ensures Validate(s, hash, now, nextReset).1 == None
  {
    if !CacheHit(s, hash, now) {
      ValidateAnswersIff(s, hash, now, nextReset);
      forall k: nat ensures !Valid(s, k, hash, now) {
        if HasHash(s.rows, hash, k) { assert k == id; }
      }
    }
  }

  // ----------------------------------------------------------------- rotation

  /** The key, the key it was rotated to, and so on. */
  ghost function Chain(s: State, id: nat): (c: seq<nat>)
    requires TableOk(s)
    ensures c != [] && c[0] == id
    decreases s.nextId - id
  {
    if id in s.rows && s.rows[id].rotatedTo.Some? then [id] + Chain(s, s.rows[id].rotatedTo.value) else [id]
  }

  /** Ids grow along a rotation chain, so it visits no key twice and ends. */
  lemma {:induction false} ChainsAreFinite(s: State, id: nat)
    requires TableOk(s) && id < s.nextId
    ensures var c := Chain(s, id);
            && (forall i, j :: 0 <= i < j < |c| ==> c[i] < c[j])
            && (forall i :: 0 <= i < |c| ==> id <= c[i] < s.nextId)
            && |c| <= s.nextId - id
    decreases s.nextId - id
  {
    if id in s.rows && s.rows[id].rotatedTo.Some? {
      ChainsAreFinite(s, s.rows[id].rotatedTo.value);
    }
  }

  /** The key is deprecated and the sweep is due for it at `at`. */
  ghost predicate Awaits(s: State, id: nat, at: int) {
    id in s.rows && s.rows[id].status == Deprecated && s.rows[id].deprecatedAt.Some? && Deadline(s.rows[id]) == at
  }

  ghost predicate Swept(ops: seq<Timed>, at: int) {
    exists i :: 0 <= i < |ops| && ops[i].op.SweepOp? && ops[i].now >= at
  }

  lemma RotationSetsDeadline(s: State, t: Timed)
    requires TableOk(s) && t.op.RotateOp? && t.op.id in s.rows && s.rows[t.op.id].status != Revoked
    ensures Awaits(Step(s, t), t.op.id, t.now + t.op.grace * DAY)
    ensures Step(s, t).rows[t.op.id].rotatedTo == Some(s.nextId) && s.nextId in Step(s, t).rows
  {
  }

  lemma StepAwaits(s: State, t: Timed, id: nat, at: int)
    requires TableOk(s) && FreshKey(s, t.op) && Awaits(s, id, at)
    requires t.op != RevokeOp(id) && !(t.op.RotateOp? && t.op.id == id)
    ensures if t.op.SweepOp? && t.now >= at then id in Step(s, t).rows && Step(s, t).rows[id].status == Revoked
            else Awaits(Step(s, t), id, at)
  {
  }

  /** Until its key is revoked or rotated by hand, no sweep revokes it before the deadline, and the
      first sweep at or after the deadline does. */
  lemma {:induction false} SweepIsExact(s: State, ops: seq<Timed>, id: nat, at: int)
    requires TableOk(s) && FreshFrom(s, ops) && Awaits(s, id, at)
    requires forall i :: 0 <= i < |ops| ==> ops[i].op != RevokeOp(id) && !(ops[i].op.RotateOp? && ops[i].op.id == id)
    ensures if Swept(ops, at) then id in Run(s, ops).rows ==> Run(s, ops).rows[id].status == Revoked
            else Awaits(Run(s, ops), id, at)
    decreases |ops|
  {
    if ops != [] {
      var n := |ops| - 1;
      FreshPrefix(s, ops, n);
      SweepIsExact(s, ops[..n], id, at);
      SweptSnoc(ops, at);
      if Swept(ops[..n], at) {
        NextIdGrows(s, ops[..n]);
        LastStepForward(s, ops, id);
      } else {
        LastStepAwaits(s, ops, id, at);
      }
    }
  }

  lemma NextIdGrows(s: State, ops: seq<Timed>)
    requires TableOk(s) && FreshFrom(s, ops)
    ensures Run(s, ops).nextId >= s.nextId
  {
    RunKeepsTable(s, ops);
  }

  lemma LastStepAwaits(s: State, ops: seq<Timed>, id: nat, at: int)
    requires TableOk(s) && FreshFrom(s, ops) && ops != [] && Awaits(Run(s, ops[..|ops| - 1]), id, at)
    requires var t := ops[|ops| - 1]; t.op != RevokeOp(id) && !(t.op.RotateOp? && t.op.id == id)
    ensures var t := ops[|ops| - 1];
            if t.op.SweepOp? && t.now >= at then id in Run(s, ops).rows && Run(s, ops).rows[id].status == Revoked
            else Awaits(Run(s, ops), id, at)
  {
    FreshPrefix(s, ops, |ops| - 1);
    RunKeepsTable(s, ops[..|ops| - 1]);
    StepAwaits(Run(s, ops[..|ops| - 1]), ops[|ops| - 1], id, at);
  }

  lemma SweptSnoc(ops: seq<Timed>, at: int)
    requires ops != []
    ensures var n := |ops| - 1;
            Swept(ops, at) <==> Swept(ops[..n], at) || (ops[n].op.SweepOp? && ops[n].now >= at)
  {
    var n := |ops| - 1;
    if Swept(ops[..n], at) {
      var i :| 0 <= i < n && ops[..n][i].op.SweepOp? && ops[..n][i].now >= at;
      assert ops[i].op.SweepOp?;
    }
    if Swept(ops, at) {
      var i :| 0 <= i < |ops| && ops[i].op.SweepOp? && ops[i].now >= at;
      assert i < n ==> ops[..n][i].op.SweepOp? && ops[..n][i].now >= at;
    }
  }
}
