/** The verification cache and circuit breaker of `proxy/internal/auth/cache.go` as an object:
    one method per critical section, and `Lookup` as their sequence. `AuthRuns` lets any number
    of lookups and sweeps interleave between those sections. */
module AuthCaching {
  import opened Options

  /** Clock readings, in nanoseconds. */
  type Time = int

  /** The keyed hash of an API key; never empty. */
  type Digest = string

  const SECOND: int := 1_000_000_000
  const FAIL_THRESHOLD: nat := 3
  const COOLDOWN: int := 30 * SECOND
  const MAX_STALE: int := 300 * SECOND
  const MAX_ENTRIES: nat := 10000

  /** A reply of the verification service; `details` stands for everything but its verdict. */
  datatype AuthVerifyResult = AuthVerifyResult(valid: bool, details: string)

  datatype CacheEntry = CacheEntry(result: AuthVerifyResult, expiresAt: Time, lastUsedAt: Time)

  type Entries = map<Digest, CacheEntry>

  // ---------------------------------------------------------------------
  // What each critical section does
  // ---------------------------------------------------------------------

  predicate Fresh(e: CacheEntry, now: Time) {
    now < e.expiresAt
  }

  predicate Expired(e: CacheEntry, now: Time) {
    now > e.expiresAt
  }

  function Find(m: Entries, d: Digest): Option<CacheEntry> {
    if d in m then Some(m[d]) else None
  }

  function Touched(m: Entries, d: Digest, now: Time, used: Time): Entries {
    if d in m && Fresh(m[d], now) then m[d := m[d].(lastUsedAt := used)] else m
  }

  function Purged(m: Entries, now: Time): Entries {
    map d | d in m && !Expired(m[d], now) :: m[d]
  }

  predicate OpenAt(fails: nat, openUntil: Time, now: Time) {
    fails >= FAIL_THRESHOLD && now < openUntil
  }

  /** What a lookup answers when it may only use the entry it saw. */
  function StaleAnswer(found: Option<CacheEntry>, now: Time): Option<AuthVerifyResult> {
    if found.Some? && found.value.result.valid && now - found.value.expiresAt < MAX_STALE
    then Some(found.value.result) else None
  }

  function MadeRoom(m: Entries, max: nat, now: Time): Entries {
    if |m| >= max then Purged(m, now) else m
  }

  /** `d` was used no later than any other entry. */
  ghost predicate Oldest(m: Entries, d: Digest) {
    d in m && forall k :: k in m ==> m[d].lastUsedAt <= m[k].lastUsedAt
  }

  ghost predicate MayEvict(m: Entries, max: nat, now: Time, victim: Digest) {
    |MadeRoom(m, max, now)| >= max > 0 ==> Oldest(MadeRoom(m, max, now), victim)
  }

  /** The map after a store that evicts `victim` if purging did not make room. */
  function Stored(m: Entries, max: nat, now: Time, victim: Digest, d: Digest, e: CacheEntry): Entries {
    var kept := MadeRoom(m, max, now);
    (if |kept| >= max then kept - {victim} else kept)[d := e]
  }

  // ---------------------------------------------------------------------
  // The cache object
  // ---------------------------------------------------------------------

  /** The clock readings of one lookup, in program order. */
  datatype Readings = Readings(check: Time, touch: Time, breaker: Time, failure: Time, stale: Time, purge: Time,
      store: Time)

  /** What the critical sections share. */
  datatype Shared = Saw(entries: Entries, fails: nat, openUntil: Time, ttl: int, max: nat)

  /** The answer and effect of a lookup that nothing interrupts. `reply` is what the service
      would answer, `None` for any failure of the call. */
  ghost predicate Outcome(c: Shared, d: Digest, reply: Option<AuthVerifyResult>, at: Readings, victim: Digest,
                          c': Shared, answer: Option<AuthVerifyResult>) {
    var found := Find(c.entries, d);
    var live := found.Some? && Fresh(found.value, at.check);
    var open := OpenAt(c.fails, c.openUntil, at.breaker);
    && c'.ttl == c.ttl && c'.max == c.max
    && answer == (if live then Some(found.value.result)
                  else if open || reply.None? then StaleAnswer(found, at.stale)
                  else reply)
    && c'.fails == (if live || open then c.fails else if reply.None? then c.fails + 1 else 0)
    && c'.openUntil == (if live || open then c.openUntil
                        else if reply.None? then
                          if c.fails + 1 >= FAIL_THRESHOLD then at.failure + COOLDOWN else c.openUntil
                        else if c.fails > 0 then 0 else c.openUntil)
    && (if !live && !open && reply.Some? && reply.value.valid then
          && MayEvict(c.entries, c.max, at.purge, victim)
          && c'.entries == Stored(c.entries, c.max, at.purge, victim, d,
              CacheEntry(reply.value, at.store + c.ttl, at.store))
        else c'.entries == Touched(c.entries, d, at.check, at.touch))
  }

  class AuthCache {
    const ttl: int
    const maxEntries: nat
    var entries: Entries
    var consecutiveFail: nat
    var openUntil: Time

    ghost predicate Valid()
      reads this
    {
      && 0 < maxEntries
      && |entries| <= maxEntries
      && forall d :: d in entries ==> d != "" && entries[d].result.valid
    }

    constructor (ttl: int)
      ensures Valid() && entries == map[] && consecutiveFail == 0
      ensures this.ttl == ttl && maxEntries == 10000
    {
      this.ttl, maxEntries := ttl, MAX_ENTRIES;
      entries, consecutiveFail, openUntil := map[], 0, 0;
    }

    /** One pass of the eviction loop, and the first pass of a store at capacity. */
    method DeleteExpired(now: Time)
      requires Valid()
      modifies this`entries
      ensures Valid() && entries == Purged(old(entries), now)
      ensures forall d :: d in entries <==> d in old(entries) && now <= old(entries)[d].expiresAt
    {
      var todo := entries.Keys;
      assert entries == map d | d in old(entries) && (d in todo || !Expired(old(entries)[d], now)) :: old(entries)[d];
      while todo != {}
        invariant todo <= old(entries).Keys
        invariant entries == map d | d in old(entries)
            && (d in todo || !Expired(old(entries)[d], now)) :: old(entries)[d]
      {
        var d :| d in todo;
        if Expired(entries[d], now) {
          entries := entries - {d};
        }
        todo := todo - {d};
      }
      SubmapSize(old(entries), entries);
    }

    /** The least recently used key, "" when there is none. */
    method LeastRecentlyUsed() returns (oldestKey: Digest)
      ensures entries == map[] ==> oldestKey == ""
      ensures entries != map[] ==> Oldest(entries, oldestKey)
    {
      oldestKey := "";
      var oldestTime: Time := 0;
      var first := true;
      var todo := entries.Keys;
      while todo != {}
        invariant todo <= entries.Keys
        invariant first ==> todo == entries.Keys && oldestKey == ""
        invariant !first ==> oldestKey in entries && oldestTime == entries[oldestKey].lastUsedAt
        invariant !first ==> forall k :: k in entries && k !in todo ==> oldestTime <= entries[k].lastUsedAt
      {
        var d :| d in todo;
        if first || entries[d].lastUsedAt < oldestTime {
          oldestKey, oldestTime, first := d, entries[d].lastUsedAt, false;
        }
        todo := todo - {d};
      }
    }

    method Check(digest: Digest, now: Time, used: Time) returns (found: Option<CacheEntry>, live: bool)
      requires Valid()
      modifies this`entries
      ensures Valid() && entries == Touched(old(entries), digest, now, used)
      ensures found == Find(old(entries), digest)
      ensures live <==> digest in old(entries) && now < old(entries)[digest].expiresAt
      ensures entries == if live then
                           old(entries)[digest := CacheEntry(found.value.result, found.value.expiresAt, used)]
                         else old(entries)
    {
      found := Find(entries, digest);
      live := found.Some? && Fresh(found.value, now);
      if live {
        entries := entries[digest := found.value.(lastUsedAt := used)];
      }
      assert entries.Keys == old(entries).Keys;
      SubmapSize(old(entries), entries);
    }

    method CircuitOpen(now: Time) returns (open: bool)
      ensures open <==> OpenAt(consecutiveFail, openUntil, now)
    {
      open := consecutiveFail >= FAIL_THRESHOLD && now < openUntil;
    }

    method RecordFailure(now: Time)
      modifies this`consecutiveFail, this`openUntil
      ensures consecutiveFail == old(consecutiveFail) + 1
      ensures openUntil == if consecutiveFail >= FAIL_THRESHOLD then now + COOLDOWN else old(openUntil)
    {
      consecutiveFail := consecutiveFail + 1;
      if consecutiveFail >= FAIL_THRESHOLD {
        openUntil := now + COOLDOWN;
      }
    }

    method RecordSuccess()
      modifies this`consecutiveFail, this`openUntil
      ensures consecutiveFail == 0 && openUntil == (if old(consecutiveFail) > 0 then 0 else old(openUntil))
      ensures forall now :: !OpenAt(consecutiveFail, openUntil, now)
    {
      if consecutiveFail > 0 {
        consecutiveFail, openUntil := 0, 0;
      }
    }

    method Store(digest: Digest, result: AuthVerifyResult, purge: Time, now: Time) returns (ghost victim: Digest)
      requires Valid() && digest != "" && result.valid
      modifies this`entries
      ensures Valid() && digest in entries
      ensures MayEvict(old(entries), maxEntries, purge, victim)
      ensures entries == Stored(old(entries), maxEntries, purge, victim, digest, CacheEntry(result, now + ttl, now))
    {
      if |entries| >= maxEntries {
        DeleteExpired(purge);
      }
      victim := "";
      ghost var kept := entries;
      if |entries| >= maxEntries {
        var oldestKey := LeastRecentlyUsed();
        victim := oldestKey;
        if oldestKey != "" {
          entries := entries - {oldestKey};
          SizeWithout(kept, oldestKey);
        }
      }
      SizeWith(entries, digest, CacheEntry(result, now + ttl, now));
      entries := entries[digest := CacheEntry(result, now + ttl, now)];
    }

    /** The critical sections of a lookup in sequence. */
    method Lookup(digest: Digest, reply: Option<AuthVerifyResult>, at: Readings)
      returns (answer: Option<AuthVerifyResult>, ghost victim: Digest)
      requires Valid() && digest != ""
      modifies this
      ensures Valid()
      ensures Outcome(Saw(old(entries), old(consecutiveFail), old(openUntil), ttl, maxEntries), digest, reply,
                      at, victim,
                      Saw(entries, consecutiveFail, openUntil, ttl, maxEntries), answer)
    {
      victim := "";
      var found, live := Check(digest, at.check, at.touch);
      if live {
        return Some(found.value.result), victim;
      }
      var open := CircuitOpen(at.breaker);
      if open {
        return StaleAnswer(found, at.stale), victim;
      }
      if reply.None? {
        RecordFailure(at.failure);
        return StaleAnswer(found, at.stale), victim;
      }
      RecordSuccess();
      if reply.value.valid {
        victim := Store(digest, reply.value, at.purge, at.store);
      }
      answer := reply;
    }
  }

  lemma SubmapSize(m: Entries, n: Entries)
    requires n.Keys <= m.Keys
    ensures |n| <= |m|
  {
    assert m.Keys == n.Keys + (m.Keys - n.Keys);
    assert |m| == |m.Keys| && |n| == |n.Keys|;
  }

  lemma SizeWithout(m: Entries, d: Digest)
    requires d in m
    ensures |m - {d}| == |m| - 1
  {
  }

  lemma SizeWith(m: Entries, d: Digest, e: CacheEntry)
    ensures |m[d := e]| <= |m| + 1
  {
  }

  /** Which entries a store removes: expired ones, and at most one live one. A live one goes
      only when no expired one is left and the map is still full, and it is then least
      recently used. */
  lemma StoreEvicts(m: Entries, max: nat, now: Time, victim: Digest, d: Digest, e: CacheEntry, gone: Digest)
    requires 0 < max && MayEvict(m, max, now, victim)
    requires gone in m && gone != d && gone !in Stored(m, max, now, victim, d, e)
    ensures |m| >= max
    ensures !Expired(m[gone], now) ==>
              && gone == victim && |Purged(m, now)| >= max
              && forall k :: k in m && !Expired(m[k], now) ==> m[gone].lastUsedAt <= m[k].lastUsedAt
  {
    if !Expired(m[gone], now) && |m| >= max {
      assert gone in Purged(m, now);
      forall k | k in m && !Expired(m[k], now) ensures m[gone].lastUsedAt <= m[k].lastUsedAt {
        assert k in Purged(m, now);
      }
    }
  }

  /** A store never pushes the map beyond its capacity and leaves all other entries as they were. */
  lemma StoreKeepsRest(m: Entries, max: nat, now: Time, victim: Digest, d: Digest, e: CacheEntry)
    requires 0 < max && |m| <= max && MayEvict(m, max, now, victim)
    ensures var t := Stored(m, max, now, victim, d, e);
            && |t| <= max && d in t && t[d] == e
            && forall k :: k in t && k != d ==> k in m && t[k] == m[k]
  {
    var kept := MadeRoom(m, max, now);
    SubmapSize(m, kept);
    if |kept| >= max {
      SizeWithout(kept, victim);
      SizeWith(kept - {victim}, d, e);
    } else {
      SizeWith(kept, d, e);
    }
  }
}
