/** The in-memory idempotency storage (builtin/idempotency/idempotency.go). */
module IdempotencyStorage {
  import opened Optional

  type Key = string
  type Response = seq<int>
  type Entries = map<Key, Entry>

  /** Only a stored entry carries data. */
  datatype Entry = InFlight(expiresAt: int) | Stored(data: Response, expiresAt: int)

  function Cached(entries: Entries, key: Key, now: int): Option<Response> {
    if key in entries && entries[key].Stored? && entries[key].expiresAt >= now then Some(entries[key].data) else None
  }

  predicate Free(entries: Entries, key: Key, now: int) {
    key !in entries || entries[key].expiresAt < now
  }

  function Unlocked(entries: Entries, key: Key): Entries {
    if key in entries && entries[key].InFlight? then entries - {key} else entries
  }

  class MemoryStorage {
    var entries: Entries

    constructor ()
      ensures entries == map[]
    {
      entries := map[];
    }

    method Get(key: Key, now: int) returns (r: Option<Response>)
      ensures r == Cached(entries, key, now)
    {
      if key !in entries { return None; }
      var entry := entries[key];
      if entry.InFlight? || entry.expiresAt < now { return None; }
      r := Some(entry.data);
    }

    method Set(key: Key, data: Response, now: int, ttl: int)
      modifies this
      ensures entries == old(entries)[key := Stored(data, now + ttl)]
    {
      entries := entries[key := Stored(data, now + ttl)];
    }

    method Lock(key: Key, now: int, ttl: int) returns (ok: bool)
      modifies this
      ensures ok == Free(old(entries), key, now)
      ensures entries == if ok then old(entries)[key := InFlight(now + ttl)] else old(entries)
    {
      if key in entries && entries[key].expiresAt >= now { return false; }
      entries := entries[key := InFlight(now + ttl)];
      ok := true;
    }

    method Unlock(key: Key)
      modifies this
      ensures entries == Unlocked(old(entries), key)
    {
      if key in entries && entries[key].InFlight? { entries := entries - {key}; }
    }
  }

  /** A stored response is what Get returns, and what keeps Lock out, exactly until it expires; giving
      back a lock does not remove it, and no other key notices. */
  lemma {:induction false} StoredUntilExpiry(entries: Entries, key: Key, data: Response, now: int, ttl: int, later: int, other: Key)
    ensures var stored := entries[key := Stored(data, now + ttl)];
      && Cached(stored, key, later) == (if later <= now + ttl then Some(data) else None)
      && (Free(stored, key, later) <==> later > now + ttl)
      && Unlocked(stored, key) == stored
      && (other != key ==> Cached(stored, other, later) == Cached(entries, other, later) && Free(stored, other, later) == Free(entries, other, later))
  {
  }
}
