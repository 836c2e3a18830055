/** The per-key ingest limiter of `processing/internal/middleware/ingest_ratelimit.go`.

    Unlike the proxy's limiter it evicts a bucket when the map is full, sweeps by the time a
    bucket was last used, and reads the clock before it takes its lock. */
module IngestLimiter {
  import opened SlidingWindow

  /** `max` requests per `window`; a sweep drops buckets not seen for `ttl`. */
  datatype Config = Config(max: int, window: int, ttl: int, maxBuckets: nat)

  const MINUTE: int := 60_000_000_000

  datatype Bucket = Bucket(timestamps: seq<Time>, lastSeen: Time)

  type Buckets = map<Key, Bucket>

  // ---------------------------------------------------------------------
  // What a request and a sweep do to the buckets
  // ---------------------------------------------------------------------

  function TimestampsOf(m: Buckets, key: Key): seq<Time> {
    if key in m then m[key].timestamps else []
  }

  predicate Over(c: Config, m: Buckets, key: Key, now: Time) {
    |Recent(TimestampsOf(m, key), now - c.window)| >= c.max
  }

  predicate MustEvict(c: Config, m: Buckets, key: Key) {
    key !in m && |m| >= c.maxBuckets
  }

  ghost predicate Oldest(m: Buckets, key: Key) {
    key in m && forall k :: k in m ==> m[key].lastSeen <= m[k].lastSeen
  }

  function AfterRequest(c: Config, m: Buckets, key: Key, now: Time, victim: Key): Buckets {
    var valid := Recent(TimestampsOf(m, key), now - c.window);
    var stamps := valid + (if Over(c, m, key, now) then [] else [now]);
    (if MustEvict(c, m, key) then m - {victim} else m)[key := Bucket(stamps, now)]
  }

  function AfterSweep(c: Config, m: Buckets, now: Time): Buckets {
    map key | key in m && m[key].lastSeen >= now - c.ttl :: m[key]
  }

  // ---------------------------------------------------------------------
  // The limiter object
  // ---------------------------------------------------------------------

  /** A bucket as the map holds it. */
  datatype Cell = Cell(timestamps: Slice, lastSeen: Time)

  class PerKeyIngestRateLimit {
    const c: Config
    var buckets: map<Key, Cell>

    /** No two buckets share an array. */
    ghost predicate Valid()
      reads this
    {
      && "" !in buckets
      && (forall k :: k in buckets ==> buckets[k].timestamps.len <= buckets[k].timestamps.data.Length)
      && (forall k, j :: k in buckets && j in buckets && buckets[k].timestamps.data == buckets[j].timestamps.data ==>
            k == j)
    }

    ghost function View(): Buckets
      requires Valid()
      reads this, set k | k in buckets :: buckets[k].timestamps.data
    {
      map k | k in buckets :: Bucket(Contents(buckets[k].timestamps), buckets[k].lastSeen)
    }

    constructor (max: int, window: int)
      ensures Valid() && View() == map[] && c == Config(max, window, 5 * MINUTE, 50000)
    {
      c := Config(max, window, 5 * MINUTE, 50000);
      buckets := map[];
    }

    /** The bucket seen longest ago, "" when there is none. */
    method LeastRecentlySeen() returns (evictKey: Key)
      requires Valid()
      ensures buckets != map[] ==> Oldest(View(), evictKey)
      ensures buckets == map[] ==> evictKey == ""
    {
      evictKey := "";
      var evictTime: Time := 0;
      var first := true;
      var todo := buckets.Keys;
      while todo != {}
        invariant todo <= buckets.Keys
        invariant first ==> todo == buckets.Keys && evictKey == ""
        invariant !first ==> evictKey in buckets && evictTime == buckets[evictKey].lastSeen
        invariant !first ==> forall k :: k in buckets && k !in todo ==> evictTime <= buckets[k].lastSeen
      {
        var k :| k in todo;
        if first || buckets[k].lastSeen < evictTime {
          evictKey, evictTime, first := k, buckets[k].lastSeen, false;
        }
        todo := todo - {k};
      }
    }

    /** One tick of the sweep goroutine. */
    method Sweep(now: Time)
      requires Valid()
      modifies this`buckets
      ensures Valid() && View() == AfterSweep(c, old(View()), now)
    {
      var cutoff := now - c.ttl;
      var todo := buckets.Keys;
      ghost var all := buckets;
      while todo != {}
        invariant todo <= buckets.Keys <= all.Keys
        invariant forall k :: k in buckets ==> buckets[k] == all[k]
        invariant forall k :: k in all ==> (k in buckets <==> k in todo || all[k].lastSeen >= cutoff)
      {
        var k :| k in todo;
        if buckets[k].lastSeen < cutoff {
          buckets := buckets - {k};
        }
        todo := todo - {k};
      }
    }

    /** At capacity the bucket seen longest ago makes way for a new key. */
    method MakeRoom(key: Key) returns (ghost victim: Key)
      requires Valid() && key !in buckets
      modifies this`buckets
      ensures Valid() && key !in buckets && buckets.Keys <= old(buckets).Keys
      ensures View() == (if MustEvict(c, old(View()), key) then old(View()) - {victim} else old(View()))
      ensures MustEvict(c, old(View()), key) && old(View()) != map[] ==> Oldest(old(View()), victim)
      ensures forall k :: k in buckets ==> buckets[k] == old(buckets)[k]
    {
      victim := "";
      SameSize(View(), buckets);
      if |buckets| >= c.maxBuckets {
        var evictKey := LeastRecentlySeen();
        victim := evictKey;
        if evictKey != "" {
          buckets := buckets - {evictKey};
        }
      }
    }

    /** The section under the lock; the key is not empty, and `now` was read before the lock. */
    method Admit(key: Key, now: Time) returns (over: bool, ghost victim: Key)
      requires Valid() && key != ""
      modifies this`buckets, if key in buckets then {buckets[key].timestamps.data} else {}
      ensures Valid()
      ensures MustEvict(c, old(View()), key) && old(View()) != map[] ==> Oldest(old(View()), victim)
      ensures over == Over(c, old(View()), key, now)
      ensures View() == AfterRequest(c, old(View()), key, now, victim)
    {
      hide Recent, Oldest, AfterRequest, Over, MustEvict, TimestampsOf;
      victim := "";
      ghost var m := View();
      var b: Slice;
      if key in buckets {
        b := buckets[key].timestamps;
      } else {
        victim := MakeRoom(key);
        var none := new Time[0];
        b := Slice(none, 0);
      }
      RequestInTwoParts(c, m, key, now, victim);
      over := Record(key, b, now);
    }

    /** Compacts the bucket's slice and appends to it unless the window is full. */
    method Record(key: Key, b: Slice, now: Time) returns (over: bool)
      requires Valid() && key != "" && b.len <= b.data.Length
      requires key in buckets ==> b == buckets[key].timestamps
      requires key !in buckets ==> b.len == 0
      requires forall k :: k in buckets && k != key ==> buckets[k].timestamps.data != b.data
      modifies this`buckets, b.data
      ensures Valid() && over == Over(c, old(View()), key, now)
      ensures var stamps := Recent(TimestampsOf(old(View()), key), now - c.window) + (if over then [] else [now]);
              View() == old(View())[key := Bucket(stamps, now)]
    {
      hide Recent;
      ghost var m := View();
      assert Contents(b) == TimestampsOf(m, key);
      var kept := Compact(b.data, b.len, now - c.window);
      var valid := Slice(b.data, kept);
      over := kept >= c.max;
      assert Contents(valid) + [] == Contents(valid);
      if !over {
        valid := Append(valid, now);
      }
      Put(m, key, Cell(valid, now));
    }

    /** Stores a bucket that shares its array with no other. */
    method Put(ghost m: Buckets, key: Key, b: Cell)
      requires Valid() && key != "" && b.timestamps.len <= b.timestamps.data.Length
      requires forall k :: k in buckets && k != key ==> buckets[k].timestamps.data != b.timestamps.data
      requires m.Keys == buckets.Keys
      requires forall k :: k in buckets && k != key ==>
                 Bucket(Contents(buckets[k].timestamps), buckets[k].lastSeen) == m[k]
      modifies this`buckets
      ensures Valid() && View() == m[key := Bucket(Contents(b.timestamps), b.lastSeen)]
    {
      buckets := buckets[key := b];
      assert View().Keys == m[key := Bucket(Contents(b.timestamps), b.lastSeen)].Keys;
    }
  }

  /** What the decision is, counted timestamp by timestamp. */
  lemma OverExactly(c: Config, m: Buckets, key: Key, now: Time)
    ensures var ts := if key in m then m[key].timestamps else [];
            Over(c, m, key, now) <==> |set i | 0 <= i < |ts| && ts[i] > now - c.window| >= c.max
  {
    hide Recent;
    RecentCount(TimestampsOf(m, key), now - c.window);
  }

  /** A request stamps the bucket of its key; only the victim of an eviction goes, and no other
      bucket changes. */
  lemma RequestBuckets(c: Config, m: Buckets, key: Key, now: Time, victim: Key)
    ensures var n := AfterRequest(c, m, key, now, victim);
            && n.Keys == (if key !in m && |m| >= c.maxBuckets then m.Keys - {victim} else m.Keys) + {key}
            && (forall k :: k in n && k != key ==> n[k] == m[k])
            && n[key].lastSeen == now
  {
    hide Recent, Over;
  }

  /** It prunes that bucket and, unless the window is full, enters the request. */
  lemma RequestStamps(c: Config, m: Buckets, key: Key, now: Time, victim: Key, t: Time)
    ensures t in AfterRequest(c, m, key, now, victim)[key].timestamps
            <==> || (key in m && t in m[key].timestamps && t > now - c.window)
                 || (t == now && !Over(c, m, key, now))
  {
    hide Recent, Over, MustEvict;
    var kept := Recent(TimestampsOf(m, key), now - c.window);
    RecentMembers(TimestampsOf(m, key), now - c.window);
    assert t in kept <==> key in m && t in m[key].timestamps && t > now - c.window;
    assert t in kept + [now] <==> t in kept || t == now;
    assert t in kept + [] <==> t in kept;
  }

  lemma SameSize<A, B>(m: map<Key, A>, n: map<Key, B>)
    requires m.Keys == n.Keys
    ensures |m| == |n|
  {
  }

  /** Eviction does not touch the bucket the request is for. */
  lemma RequestInTwoParts(c: Config, m: Buckets, key: Key, now: Time, victim: Key)
    ensures key in m ==> !MustEvict(c, m, key)
    ensures var room := if MustEvict(c, m, key) then m - {victim} else m;
            && TimestampsOf(room, key) == TimestampsOf(m, key) && Over(c, room, key, now) == Over(c, m, key, now)
            && AfterRequest(c, m, key, now, victim)
               == var stamps := Recent(TimestampsOf(room, key), now - c.window);
                  room[key := Bucket(stamps + (if Over(c, room, key, now) then [] else [now]), now)]
  {
  }

  // ---------------------------------------------------------------------
  // Every run
  // ---------------------------------------------------------------------

  datatype Op = Request(key: Key, now: Time, victim: Key) | Sweep(now: Time)

  /** The limiter, the log of what it accepted, and how often it had to evict. */
  datatype State = State(buckets: Buckets, log: seq<Accepted>, evictions: nat)

  function Do(c: Config, s: State, op: Op): State {
    match op
    case Request(key, now, victim) =>
      State(AfterRequest(c, s.buckets, key, now, victim),
            if Over(c, s.buckets, key, now) then s.log else s.log + [Accepted(key, now)],
            if MustEvict(c, s.buckets, key) then s.evictions + 1 else s.evictions)
    case Sweep(now) => s.(buckets := AfterSweep(c, s.buckets, now))
  }

  function Run(c: Config, ops: seq<Op>): State {
    if ops == [] then State(map[], [], 0) else Do(c, Run(c, ops[..|ops| - 1]), ops[|ops| - 1])
  }

  /** The clock readings follow the order of the lock. */
  predicate Ordered(ops: seq<Op>, now: Time) {
    ops == [] || (ops[|ops| - 1].now <= now && Ordered(ops[..|ops| - 1], ops[|ops| - 1].now))
  }

  function ListsOf(m: Buckets): Lists {
    map key | key in m :: m[key].timestamps
  }

  ghost predicate Stamped(m: Buckets) {
    forall key, t :: key in m && t in m[key].timestamps ==> t <= m[key].lastSeen
  }

  ghost predicate Inv(c: Config, s: State, now: Time) {
    && Represents(ListsOf(s.buckets), s.log, now - c.window)
    && AllMetered(s.log, c.max, c.window)
    && Stamped(s.buckets)
    && (forall key :: key in s.buckets ==> s.buckets[key].lastSeen <= now)
  }

  lemma DecisionAgrees(c: Config, s: State, key: Key, now: Time)
    requires Represents(ListsOf(s.buckets), s.log, now - c.window)
    ensures |Recent(TimestampsOf(s.buckets, key), now - c.window)| == |Recent(TimesOf(s.log, key), now - c.window)|
  {
  }

  lemma RequestKept(c: Config, s: State, op: Op)
    requires op.Request? && Inv(c, s, op.now) && !MustEvict(c, s.buckets, op.key)
    ensures Inv(c, Do(c, s, op), op.now)
  {
    hide Represents, AllMetered, Recent, TimesOf;
    var key, now := op.key, op.now;
    var cutoff := now - c.window;
    var lists := ListsOf(s.buckets);
    assert ListOf(lists, key) == TimestampsOf(s.buckets, key);
    DecisionAgrees(c, s, key, now);
    RecentMembers(ListOf(lists, key), cutoff);
    var t := Do(c, s, op);
    if Over(c, s.buckets, key, now) {
      RepresentsPruned(lists, s.log, key, cutoff);
      assert Recent(ListOf(lists, key), cutoff) + [] == Recent(ListOf(lists, key), cutoff);
      assert ListsOf(t.buckets) == lists[key := Recent(ListOf(lists, key), cutoff)];
    } else {
      RepresentsAccepted(lists, s.log, key, now, cutoff);
      AllMeteredAppend(s.log, key, now, c.max, c.window);
      assert ListsOf(t.buckets) == lists[key := Recent(ListOf(lists, key), cutoff) + [now]];
    }
  }

  /** A bucket that a sweep drops has nothing left in the window. */
  lemma DroppedIsEmpty(c: Config, b: Bucket, now: Time)
    requires c.window <= c.ttl + 1 && b.lastSeen < now - c.ttl
    requires forall t :: t in b.timestamps ==> t <= b.lastSeen
    ensures Recent(b.timestamps, now - c.window) == []
  {
    forall i | 0 <= i < |b.timestamps| ensures b.timestamps[i] <= now - c.window {
      assert b.timestamps[i] in b.timestamps;
    }
    NoneRecent(b.timestamps, now - c.window);
  }

  lemma {:induction false} NoneRecent(ts: seq<Time>, cutoff: Time)
    requires forall i :: 0 <= i < |ts| ==> ts[i] <= cutoff
    ensures Recent(ts, cutoff) == []
  {
    if ts == [] {
    } else {
      NoneRecent(ts[..|ts| - 1], cutoff);
    }
  }

  lemma SweepKept(c: Config, s: State, now: Time)
    requires c.window <= c.ttl + 1 && Inv(c, s, now)
    ensures Inv(c, Do(c, s, Sweep(now)), now)
  {
    hide Represents, AllMetered, Recent;
    var m, n := ListsOf(s.buckets), ListsOf(AfterSweep(c, s.buckets, now));
    forall key ensures Recent(ListOf(n, key), now - c.window) == Recent(ListOf(m, key), now - c.window) {
      if key in m && key !in n {
        DroppedIsEmpty(c, s.buckets[key], now);
        EmptyRecent(now - c.window);
      }
    }
    RepresentsSwept(m, n, s.log, now - c.window);
  }

  lemma EmptyRecent(cutoff: Time)
    ensures Recent([], cutoff) == []
  {
  }

  lemma {:induction false} EvictionsGrow(c: Config, ops: seq<Op>)
    requires ops != []
    ensures Run(c, ops[..|ops| - 1]).evictions <= Run(c, ops).evictions
  {
  }

  lemma {:induction false} InvAlongRun(c: Config, ops: seq<Op>, now: Time)
    requires c.window <= c.ttl + 1 && Ordered(ops, now) && Run(c, ops).evictions == 0
    ensures Inv(c, Run(c, ops), now)
    decreases |ops|
  {
    hide Represents, AllMetered, AfterRequest, AfterSweep;
    if ops == [] {
      EmptyInv(c, now);
    } else {
      var op := ops[|ops| - 1];
      var before := Run(c, ops[..|ops| - 1]);
      EvictionsGrow(c, ops);
      InvAlongRun(c, ops[..|ops| - 1], op.now);
      if op.Request? { RequestKept(c, before, op); } else { SweepKept(c, before, op.now); }
      var after := Do(c, before, op);
      RepresentsLater(ListsOf(after.buckets), after.log, op.now - c.window, now - c.window);
    }
  }

  lemma EmptyInv(c: Config, now: Time)
    ensures Inv(c, State(map[], [], 0), now)
  {
  }

  /** While no bucket is evicted and the window is no longer than the sweep's TTL, the limiter
      decides as one that keeps the full log: it accepts a request exactly when fewer than `max`
      accepted requests of its key lie in the window that ends now. */
  lemma DecidesLikeFullLog(c: Config, ops: seq<Op>, key: Key, now: Time, victim: Key)
    requires c.window <= c.ttl + 1 && Ordered(ops, now) && Run(c, ops).evictions == 0
    ensures var s, t := Run(c, ops), Run(c, ops + [Request(key, now, victim)]);
            t.log == if |Inside(s.log, key, now - c.window)| < c.max then s.log + [Accepted(key, now)] else s.log
  {
    hide Recent, TimesOf, Run, Represents, AllMetered, AfterRequest, Inside;
    RunAppend(c, ops, Request(key, now, victim));
    InvAlongRun(c, ops, now);
    DecisionAgrees(c, Run(c, ops), key, now);
    WindowCount(Run(c, ops).log, key, now - c.window);
  }

  lemma RunAppend(c: Config, ops: seq<Op>, op: Op)
    ensures Run(c, ops + [op]) == Do(c, Run(c, ops), op)
  {
    assert (ops + [op])[..|ops|] == ops;
  }

  /** The requests of a run, in order. */
  function RequestsOf(ops: seq<Op>): seq<Accepted> {
    if ops == [] then []
    else
      var n := |ops| - 1;
      RequestsOf(ops[..n]) + (if ops[n].Request? then [Accepted(ops[n].key, ops[n].now)] else [])
  }

  lemma RequestsAppend(ops: seq<Op>, op: Op)
    ensures RequestsOf(ops + [op])
            == if op.Request? then RequestsOf(ops) + [Accepted(op.key, op.now)] else RequestsOf(ops)
  {
    assert (ops + [op])[..|ops|] == ops;
    assert RequestsOf(ops) + [] == RequestsOf(ops);
  }

  ghost function KeysOf(ops: seq<Op>): set<Key> {
    set i | 0 <= i < |ops| && ops[i].Request? :: ops[i].key
  }

  lemma KeysGrow(ops: seq<Op>)
    requires ops != []
    ensures var n := |ops| - 1;
            KeysOf(ops) == KeysOf(ops[..n]) + (if ops[n].Request? then {ops[n].key} else {})
  {
    var n := |ops| - 1;
    forall k | k in KeysOf(ops[..n]) ensures k in KeysOf(ops) {
      var i :| 0 <= i < n && ops[..n][i].Request? && ops[..n][i].key == k;
      assert ops[i].Request? && ops[i].key == k;
    }
    forall k | k in KeysOf(ops) ensures k in KeysOf(ops[..n]) || (ops[n].Request? && k == ops[n].key) {
      var i :| 0 <= i < |ops| && ops[i].Request? && ops[i].key == k;
      if i < n { assert ops[..n][i] == ops[i]; }
    }
  }

  /** Eviction takes more than `maxBuckets` keys. */
  lemma {:induction false} FewKeysStay(c: Config, ops: seq<Op>)
    requires |KeysOf(ops)| <= c.maxBuckets
    ensures Run(c, ops).evictions == 0 && Run(c, ops).buckets.Keys <= KeysOf(ops)
    decreases |ops|
  {
    if ops == [] {
    } else {
      hide KeysOf, AfterSweep;
      var n := |ops| - 1;
      var m := Run(c, ops[..n]).buckets;
      KeysGrow(ops);
      SubsetSize(KeysOf(ops[..n]), KeysOf(ops));
      FewKeysStay(c, ops[..n]);
      if ops[n].Request? {
        if ops[n].key !in m { SubsetSize(m.Keys + {ops[n].key}, KeysOf(ops)); }
        assert |m.Keys| == |m|;
        hide Over, Recent;
      } else {
        SweptKeys(c, m, ops[n].now);
      }
    }
  }

  /** A sweep keeps exactly the buckets seen within the TTL. */
  lemma SweptKeys(c: Config, m: Buckets, now: Time)
    ensures var n := AfterSweep(c, m, now);
            && (forall k :: k in n <==> k in m && now - m[k].lastSeen <= c.ttl)
            && forall k :: k in n ==> n[k] == m[k]
  {
  }

  lemma NextLikeFullLog(c: Config, ops: seq<Op>, op: Op)
    requires c.window <= c.ttl + 1 && Ordered(ops, op.now) && Run(c, ops).evictions == 0
    requires Run(c, ops).log == FullLog(RequestsOf(ops), c.max, c.window)
    ensures Run(c, ops + [op]).log == FullLog(RequestsOf(ops + [op]), c.max, c.window)
  {
    hide Run, FullLog, Inside, RequestsOf, Ordered;
    RequestsAppend(ops, op);
    if op.Request? {
      DecidesLikeFullLog(c, ops, op.key, op.now, op.victim);
      FullLogAppend(RequestsOf(ops), Accepted(op.key, op.now), c.max, c.window);
    } else {
      RunAppend(c, ops, op);
    }
  }

  /** As long as at most `maxBuckets` keys were seen, and with the window no longer than the TTL,
      it accepts exactly what a limiter accepts that forgets nothing. */
  lemma {:induction false} AcceptsLikeFullLog(c: Config, ops: seq<Op>, now: Time)
    requires c.window <= c.ttl + 1 && Ordered(ops, now)
    requires |KeysOf(ops)| <= c.maxBuckets
    ensures Run(c, ops).log == FullLog(RequestsOf(ops), c.max, c.window)
    decreases |ops|
  {
    if ops == [] {
    } else {
      hide FullLog, Inside, RequestsOf, Run, KeysOf;
      var n := |ops| - 1;
      KeysGrow(ops);
      SubsetSize(KeysOf(ops[..n]), KeysOf(ops));
      FewKeysStay(c, ops[..n]);
      AcceptsLikeFullLog(c, ops[..n], ops[n].now);
      assert ops[..n] + [ops[n]] == ops;
      NextLikeFullLog(c, ops[..n], ops[n]);
    }
  }

  lemma WindowBound(c: Config, ops: seq<Op>, now: Time, key: Key, from: Time)
    requires 0 <= c.max && c.window <= c.ttl + 1 && Ordered(ops, now) && Run(c, ops).evictions == 0
    ensures |Between(TimesOf(Run(c, ops).log, key), from, from + c.window)| <= c.max
  {
    hide Run;
    InvAlongRun(c, ops, now);
    MeteredBound(TimesOf(Run(c, ops).log, key), c.max, c.window, from);
  }
}
