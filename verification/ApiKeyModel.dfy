/** The API-key module: its table and its cache, changed in place. */
module ApiKeyModel {
  import opened Text
  import opened ApiKeys

  datatype Extension = NotFound | KeyRevoked | Extended(oldExpiresAt: Option<int>, newExpiresAt: int)

  class Model {
    var rows: Rows
    var keyCache: map<string, Entry>
    var nextId: nat
    const ttl: int

    ghost function Value(): State
      reads this
    {
      State(rows, keyCache, nextId, ttl)
    }

    constructor (ttl: int)
      ensures Value() == Empty(ttl)
    {
      this.ttl := ttl;
      rows, keyCache, nextId := map[], map[], 1;
    }

    /** The cached value, dropping an entry whose time is up. */
    method GetCachedKey(keyHash: string, now: int) returns (r: Option<Info>)
      modifies this`keyCache
      ensures r == if CacheHit(old(Value()), keyHash, now) then old(keyCache)[keyHash].value else None
      ensures keyCache == if keyHash in old(keyCache) && now > old(keyCache)[keyHash].expiresAt
                          then old(keyCache) - {keyHash} else old(keyCache)
    {
      if keyHash !in keyCache {
        return None;
      }
      var entry := keyCache[keyHash];
      if now > entry.expiresAt {
        keyCache := keyCache - {keyHash};
        return None;
      }
      r := entry.value;
    }

    method SetCachedKey(keyHash: string, value: Option<Info>, now: int)
      modifies this`keyCache
      ensures keyCache == old(keyCache)[keyHash := Entry(value, now + ttl)]
    {
      keyCache := keyCache[keyHash := Entry(value, now + ttl)];
    }

    method InvalidateCachedKey(keyHash: string)
      modifies this`keyCache
      ensures keyCache == old(keyCache) - {keyHash}
    {
      keyCache := keyCache - {keyHash};
    }

    method InvalidateAllCachedKeys(now: int)
      modifies this`keyCache
      ensures Value() == Step(old(Value()), Timed(FlushCacheOp, now))
    {
      keyCache := map[];
    }

    method CreateApiKey(hash: string, data: Data, expiresInDays: Option<int>, grace: int, quota: Option<nat>,
                        nextReset: int, now: int)
      returns (id: nat)
      modifies this
      ensures var expiresAt := if expiresInDays.Some? && expiresInDays.value != 0
              then Some(now + expiresInDays.value * (24 * 60 * 60 * 1000)) else None;
              var resetAt := if quota.Some? && quota.value > 0 then Some(nextReset) else None;
              Value() == Step(old(Value()), Timed(CreateOp(NewRow(hash, data, expiresAt, grace, quota, resetAt)), now))
      ensures id == old(nextId)
    {
      var expiresAt := if Given(expiresInDays).Some?
        then Some(now + expiresInDays.value * DAY) else None;
      var resetAt := if quota.Some? && quota.value > 0 then Some(nextReset) else None;
      id := nextId;
      rows := rows[id := NewRow(hash, data, expiresAt, grace, quota, resetAt)];
      nextId := nextId + 1;
    }

    method ValidateApiKey(keyHash: string, now: int, nextReset: int) returns (r: Option<Info>)
      requires TableOk(Value())
      modifies this
      ensures (Value(), r) == Validate(old(Value()), keyHash, now, nextReset)
    {
      var cached := GetCachedKey(keyHash, now);
      if cached.Some? {
        return cached;
      }
      if id :| id in rows && rows[id].hash == keyHash {
        assert HasHash(rows, keyHash, id);
        assert Find(rows, keyHash) == Some(id);
        var row := rows[id];
        if row.status == Revoked || (Given(row.expiresAt).Some? && row.expiresAt.value < now) {
          SetCachedKey(keyHash, None, now);
          assert keyCache == old(keyCache)[keyHash := Entry(None, now + ttl)];
          return None;
        }
        if && row.monthlyQuota.Some? && row.monthlyQuota.value > 0
           && Given(row.quotaResetAt).Some? && row.quotaResetAt.value <= now {
          row := row.(quotaUsed := 0, quotaResetAt := Some(nextReset));
        }
        row := row.(lastUsedAt := Some(now));
        rows := rows[id := row];
        r := Some(InfoOf(id, row));
        SetCachedKey(keyHash, r, now);
        assert keyCache == old(keyCache)[keyHash := Entry(r, now + ttl)];
      } else {
        assert forall id :: !HasHash(rows, keyHash, id);
        SetCachedKey(keyHash, None, now);
        assert keyCache == old(keyCache)[keyHash := Entry(None, now + ttl)];
        r := None;
      }
    }

    method DeprecateApiKey(id: nat, now: int) returns (changed: bool)
      modifies this
      ensures Value() == Step(old(Value()), Timed(DeprecateOp(id), now))
      ensures changed <==> id in old(rows) && old(rows)[id].status == Active
    {
      changed := id in rows && rows[id].status == Active;
      if changed {
        rows := rows[id := rows[id].(status := Deprecated, deprecatedAt := Some(now))];
        InvalidateCachedKey(rows[id].hash);
      }
    }

    method RevokeApiKey(id: nat, now: int) returns (changed: bool)
      modifies this
      ensures Value() == Step(old(Value()), Timed(RevokeOp(id), now))
      ensures changed <==> id in old(rows) && old(rows)[id].status != Revoked
    {
      changed := id in rows && rows[id].status != Revoked;
      if changed {
        rows := rows[id := rows[id].(status := Revoked, revokedAt := Some(now))];
        InvalidateCachedKey(rows[id].hash);
      }
    }

    /** Only the columns that may be set are; without any of them nothing is. */
    method UpdateApiKey(id: nat, updates: Data, now: int) returns (changed: bool)
      modifies this
      ensures Value() == Step(old(Value()), Timed(UpdateOp(id, updates), now))
      ensures changed <==> id in old(rows) && exists k :: k in updates && k in UPDATABLE
    {
      var fields := Allowed(updates);
      assert fields != map[] <==> exists k :: k in updates && k in UPDATABLE by {
        assert forall k :: k in fields <==> k in updates && k in UPDATABLE;
        if fields != map[] {
          assert fields.Keys != {};
        }
      }
      if fields == map[] {
        return false;
      }
      changed := id in rows;
      if changed {
        rows := rows[id := rows[id].(data := rows[id].data + fields)];
      }
    }

    /** The new key's id and the instant from which the sweep revokes the old key. */
    method RotateApiKey(id: nat, newHash: string, newData: Data, grace: int, now: int) returns (r: Option<(nat, int)>)
      requires TableOk(Value())
      modifies this
      ensures Value() == Step(old(Value()), Timed(RotateOp(id, newHash, newData, grace), now))
      ensures r.Some? <==> id in old(rows) && old(rows)[id].status != Revoked
      ensures r.Some? ==> r.value.0 in rows && r.value.0 !in old(rows) && Awaits(Value(), id, r.value.1)
    {
      if id !in rows || rows[id].status == Revoked {
        return None;
      }
      var newId := CreateApiKey(newHash, newData, None, grace, None, 0, now);
      rows := rows[id := rows[id].(status := Deprecated, deprecatedAt := Some(now),
                                   rotatedTo := Some(newId), graceDays := grace)];
      r := Some((newId, now + grace * DAY));
    }

    /** Not found, revoked (thrown), or the old and the new expiry. */
    method ExtendApiKey(id: nat, days: int, now: int) returns (r: Extension)
      modifies this
      ensures Value() == Step(old(Value()), Timed(ExtendOp(id, days), now))
      ensures r.NotFound? <==> id !in old(rows)
      ensures r.KeyRevoked? <==> id in old(rows) && old(rows)[id].status == Revoked
      ensures r.Extended? ==>
                r.oldExpiresAt == Given(old(rows)[id].expiresAt) && rows[id].expiresAt == Some(r.newExpiresAt)
      ensures r.Extended? ==>
                r.newExpiresAt
                == (if r.oldExpiresAt.Some? then r.oldExpiresAt.value else now) + days * (24 * 60 * 60 * 1000)
    {
      if id !in rows {
        return NotFound;
      }
      if rows[id].status == Revoked {
        return KeyRevoked;
      }
      var oldExpiresAt := Given(rows[id].expiresAt);
      var base := if oldExpiresAt.Some? then oldExpiresAt.value else now;
      rows := rows[id := rows[id].(expiresAt := Some(base + days * DAY))];
      InvalidateCachedKey(rows[id].hash);
      r := Extended(oldExpiresAt, base + days * DAY);
    }

    /** The committed count and what is left of the quota; None when it throws for a missing key. */
    method IncrementQuota(id: nat, now: int) returns (r: Option<(nat, Option<int>)>)
      modifies this`rows
      ensures Value() == Step(old(Value()), Timed(IncrementQuotaOp(id), now))
      ensures r.Some? <==> id in old(rows)
      ensures r.Some? ==> r.value.0 == old(rows)[id].quotaUsed + 1 == rows[id].quotaUsed
      ensures r.Some? ==> r.value.1 == if rows[id].monthlyQuota.None?
              then None else Some(rows[id].monthlyQuota.value - r.value.0)
    {
      if id !in rows {
        return None;
      }
      rows := rows[id := rows[id].(quotaUsed := rows[id].quotaUsed + 1)];
      var row := rows[id];
      r := Some((row.quotaUsed, if row.monthlyQuota.Some? then Some(row.monthlyQuota.value - row.quotaUsed) else None));
    }

    method RevokeExpiredDeprecatedKeys(now: int)
      modifies this`rows
      ensures Value() == Step(old(Value()), Timed(SweepOp, now))
    {
      rows := map id | id in rows ::
        if && rows[id].status == Deprecated && rows[id].deprecatedAt.Some?
           && rows[id].deprecatedAt.value + rows[id].graceDays * DAY <= now
        then rows[id].(status := Revoked, revokedAt := Some(now)) else rows[id];
    }

    method CleanupOldKeys(retentionDays: int, now: int)
      modifies this`rows
      ensures Value() == Step(old(Value()), Timed(CleanupOp(retentionDays), now))
    {
      var cutoff := now - retentionDays * DAY;
      rows := map id | id in rows
        && !(rows[id].status == Revoked && rows[id].revokedAt.Some? && rows[id].revokedAt.value < cutoff) :: rows[id];
    }
  }
}
