/** What the window bound of `processing/internal/middleware/ingest_ratelimit.go` rests on.

    Without one of its three hypotheses - clock readings in the order of the lock, no eviction,
    a window no longer than the sweep's TTL - a window can hold one request too many, for every
    limit and every capacity. */
module IngestOverflow {
  import opened SlidingWindow
  import opened IngestLimiter

  // ---------------------------------------------------------------------
  // Runs, one operation at a time
  // ---------------------------------------------------------------------

  /** How many requests of a key a run accepted in the window that starts behind `from`. */
  function Load(c: Config, ops: seq<Op>, key: Key, from: Time): nat {
    |Between(TimesOf(Run(c, ops).log, key), from, from + c.window)|
  }

  lemma RunOf(c: Config, ops: seq<Op>, op: Op)
    ensures Run(c, ops + [op]) == Do(c, Run(c, ops), op)
  {
    assert (ops + [op])[..|ops|] == ops;
  }

  lemma OrderedAppend(ops: seq<Op>, op: Op, now: Time)
    requires Ordered(ops, op.now) && op.now <= now
    ensures Ordered(ops + [op], now)
  {
    assert (ops + [op])[..|ops|] == ops;
  }

  /** Every evicted bucket was one seen longest ago. */
  ghost predicate VictimsOldest(c: Config, ops: seq<Op>) {
    ops == [] || (
      var before, op := ops[..|ops| - 1], ops[|ops| - 1];
      && VictimsOldest(c, before)
      && (op.Request? && MustEvict(c, Run(c, before).buckets, op.key) ==> Oldest(Run(c, before).buckets, op.victim)))
  }

  lemma VictimsAppend(c: Config, ops: seq<Op>, op: Op)
    requires VictimsOldest(c, ops)
    requires op.Request? && MustEvict(c, Run(c, ops).buckets, op.key) ==> Oldest(Run(c, ops).buckets, op.victim)
    ensures VictimsOldest(c, ops + [op])
  {
    assert (ops + [op])[..|ops|] == ops;
  }

  /** An accepted request, spelled out. */
  lemma AcceptedNext(c: Config, ops: seq<Op>, op: Op, valid: seq<Time>, room: Buckets)
    requires op.Request? && |valid| < c.max
    requires var m := Run(c, ops).buckets;
             && valid == Recent(TimestampsOf(m, op.key), op.now - c.window)
             && room == (if MustEvict(c, m, op.key) then m - {op.victim} else m)
    ensures var s := Run(c, ops);
            Run(c, ops + [op]) == State(room[op.key := Bucket(valid + [op.now], op.now)],
                                        s.log + [Accepted(op.key, op.now)],
                                        s.evictions + if MustEvict(c, s.buckets, op.key) then 1 else 0)
  {
    RunOf(c, ops, op);
    hide Run, Recent;
  }

  // ---------------------------------------------------------------------
  // A burst that fills the window of a key at time 0
  // ---------------------------------------------------------------------

  function Zeros(n: nat): (ts: seq<Time>)
    ensures |ts| == n
  {
    if n == 0 then [] else Zeros(n - 1) + [0]
  }

  function Burst(key: Key, n: nat): seq<Op> {
    if n == 0 then [] else Burst(key, n - 1) + [Request(key, 0, "")]
  }

  function BurstLog(key: Key, n: nat): seq<Accepted> {
    if n == 0 then [] else BurstLog(key, n - 1) + [Accepted(key, 0)]
  }

  lemma {:induction false} RecentZeros(n: nat, cutoff: Time)
    ensures Recent(Zeros(n), cutoff) == if cutoff < 0 then Zeros(n) else []
  {
    if n == 0 {
    } else {
      RecentZeros(n - 1, cutoff);
      RecentAppend(Zeros(n - 1), 0, cutoff);
    }
  }

  lemma BetweenAppend(ts: seq<Time>, t: Time, from: Time, to: Time)
    ensures Between(ts + [t], from, to) == Between(ts, from, to) + (if from < t <= to then [t] else [])
  {
    assert (ts + [t])[..|ts|] == ts;
  }

  lemma {:induction false} BetweenZeros(n: nat, to: Time)
    requires 0 <= to
    ensures Between(Zeros(n), -1, to) == Zeros(n)
  {
    if n == 0 {
    } else {
      BetweenZeros(n - 1, to);
      BetweenAppend(Zeros(n - 1), 0, -1, to);
    }
  }

  lemma {:induction false} TimesOfBurst(key: Key, n: nat)
    ensures TimesOf(BurstLog(key, n), key) == Zeros(n)
  {
    if n == 0 {
    } else {
      TimesOfBurst(key, n - 1);
      TimesOfAppend(BurstLog(key, n - 1), Accepted(key, 0), key);
    }
  }

  lemma {:induction false} BurstOrdered(key: Key, n: nat)
    ensures Ordered(Burst(key, n), 0)
  {
    if n == 0 {
    } else {
      BurstOrdered(key, n - 1);
      OrderedAppend(Burst(key, n - 1), Request(key, 0, ""), 0);
    }
  }

  lemma {:induction false} OrderedLater(ops: seq<Op>, now: Time, later: Time)
    requires Ordered(ops, now) && now <= later
    ensures Ordered(ops, later)
  {
  }

  /** All requests of a burst up to the limit are accepted. */
  lemma {:induction false} BurstRun(c: Config, key: Key, n: nat)
    requires 0 < n <= c.max && 0 < c.maxBuckets && 0 < c.window
    ensures Run(c, Burst(key, n)) == State(map[key := Bucket(Zeros(n), 0)], BurstLog(key, n), 0)
    ensures VictimsOldest(c, Burst(key, n))
  {
    hide Run, Recent, VictimsOldest;
    var op := Request(key, 0, "");
    if n == 1 {
      NothingYet(c);
      RecentZeros(0, 0 - c.window);
      AcceptedNext(c, Burst(key, 0), op, Zeros(0), map[]);
      VictimsAppend(c, Burst(key, 0), op);
    } else {
      BurstRun(c, key, n - 1);
      RecentZeros(n - 1, 0 - c.window);
      var m: Buckets := map[key := Bucket(Zeros(n - 1), 0)];
      AcceptedNext(c, Burst(key, n - 1), op, Zeros(n - 1), m);
      VictimsAppend(c, Burst(key, n - 1), op);
      assert m[key := Bucket(Zeros(n), 0)] == map[key := Bucket(Zeros(n), 0)];
    }
  }

  lemma NothingYet(c: Config)
    ensures Run(c, []) == State(map[], [], 0) && VictimsOldest(c, [])
  {
  }

  // ---------------------------------------------------------------------
  // A window longer than the TTL
  // ---------------------------------------------------------------------

  /** A burst, a sweep that drops its bucket, and one more request. */
  function SweptBurst(c: Config): seq<Op>
    requires 0 < c.max
  {
    Burst("k", c.max) + [Sweep(c.ttl + 1)] + [Request("k", c.ttl + 1, "")]
  }

  /** A sweep forgets requests that still count, whatever the limit. */
  lemma LongWindowOverflows(c: Config)
    requires 0 < c.max && 0 < c.maxBuckets && 0 <= c.ttl && c.window > c.ttl + 1
    ensures var ops := SweptBurst(c);
            && Ordered(ops, c.ttl + 1) && Run(c, ops).evictions == 0
            && Load(c, ops, "k", -1) == c.max + 1
  {
    hide Run, Recent, Between, TimesOf, Ordered;
    var burst, sweep, last := Burst("k", c.max), Sweep(c.ttl + 1), Request("k", c.ttl + 1, "");
    BurstRun(c, "k", c.max);
    BurstOrdered("k", c.max);
    OrderedLater(burst, 0, c.ttl + 1);
    OrderedAppend(burst, sweep, c.ttl + 1);
    OrderedAppend(burst + [sweep], last, c.ttl + 1);
    RunOf(c, burst, sweep);
    SweepDrops(c, Zeros(c.max));
    RecentZeros(0, last.now - c.window);
    AcceptedNext(c, burst + [sweep], last, [], map[]);
    CountZeros("k", c.max, c.ttl + 1, c.window);
  }

  lemma SweepDrops(c: Config, ts: seq<Time>)
    ensures AfterSweep(c, map["k" := Bucket(ts, 0)], c.ttl + 1) == map[]
  {
  }

  /** A burst and one more request within the window. */
  lemma CountZeros(key: Key, n: nat, t: Time, window: int)
    requires 0 <= t < window
    ensures |Between(TimesOf(BurstLog(key, n) + [Accepted(key, t)], key), -1, -1 + window)| == n + 1
  {
    hide Between, TimesOf;
    TimesOfBurst(key, n);
    TimesOfAppend(BurstLog(key, n), Accepted(key, t), key);
    BetweenZeros(n, -1 + window);
    BetweenAppend(Zeros(n), t, -1, -1 + window);
  }

  /** In every ordered run without eviction no window holds more than `max` requests of a key. */
  ghost predicate Bounded(c: Config) {
    forall ops, now, key, from :: Ordered(ops, now) && Run(c, ops).evictions == 0 ==>
      Load(c, ops, key, from) <= c.max
  }

  /** The bound holds in all such runs if and only if the window is at most one tick longer than
      the TTL. */
  lemma BoundedExactly(c: Config)
    requires 0 < c.max && 0 < c.maxBuckets && 0 <= c.ttl
    ensures Bounded(c) <==> c.window <= c.ttl + 1
  {
    hide Run, Between, TimesOf, Ordered;
    if c.window <= c.ttl + 1 {
      forall ops, now, key, from | Ordered(ops, now) && Run(c, ops).evictions == 0
        ensures Load(c, ops, key, from) <= c.max
      {
        WindowBound(c, ops, now, key, from);
      }
    } else {
      LongWindowOverflows(c);
      assert Load(c, SweptBurst(c), "k", -1) > c.max;
    }
  }

  // ---------------------------------------------------------------------
  // Clock readings out of order
  // ---------------------------------------------------------------------

  /** A burst, a request a window later, and one that read the clock with the burst but got the
      lock last. */
  function LateBurst(c: Config): seq<Op>
    requires 0 < c.max
  {
    Burst("k", c.max) + [Request("k", c.window, "")] + [Request("k", 0, "")]
  }

  /** The limiter has already pruned what the early reading still has to count. */
  lemma LateLockOverflows(c: Config)
    requires 2 <= c.max && 0 < c.maxBuckets && 0 < c.window
    ensures var ops := LateBurst(c);
            && Run(c, ops).evictions == 0
            && Load(c, ops, "k", -1) == c.max + 1
  {
    hide Run, Recent, Between, TimesOf;
    var burst, next, last := Burst("k", c.max), Request("k", c.window, ""), Request("k", 0, "");
    BurstRun(c, "k", c.max);
    RecentZeros(c.max, 0);
    var m: Buckets := map["k" := Bucket(Zeros(c.max), 0)];
    AcceptedNext(c, burst, next, [], m);
    var n := m["k" := Bucket([c.window], c.window)];
    assert [] + [c.window] == [c.window];
    RecentZeros(0, 0 - c.window);
    RecentAppend([], c.window, 0 - c.window);
    assert Recent([c.window], 0 - c.window) == [c.window];
    AcceptedNext(c, burst + [next], last, [c.window], n);
    CountLate(c.max, c.window);
  }

  lemma CountLate(n: nat, window: int)
    requires 0 < window
    ensures |Between(TimesOf(BurstLog("k", n) + [Accepted("k", window)] + [Accepted("k", 0)], "k"), -1, -1 + window)|
            == n + 1
  {
    hide Between, TimesOf;
    TimesOfBurst("k", n);
    TimesOfAppend(BurstLog("k", n), Accepted("k", window), "k");
    TimesOfAppend(BurstLog("k", n) + [Accepted("k", window)], Accepted("k", 0), "k");
    BetweenZeros(n, -1 + window);
    BetweenAppend(Zeros(n), window, -1, -1 + window);
    BetweenAppend(Zeros(n) + [window], 0, -1, -1 + window);
  }

  // ---------------------------------------------------------------------
  // Eviction
  // ---------------------------------------------------------------------

  /** Different names for any number of keys. */
  function Name(i: nat): (name: Key)
    ensures |name| == i + 1
  {
    if i == 0 then "k" else Name(i - 1) + "k"
  }

  /** The buckets after a burst of key 0 and one request of each of the next `i` keys. */
  function Filled(c: Config, i: nat): Buckets
    requires 0 < c.max
  {
    if i == 0 then map[Name(0) := Bucket(Zeros(c.max), 0)] else Filled(c, i - 1)[Name(i) := Bucket([1], 1)]
  }

  function FilledOps(c: Config, i: nat): seq<Op>
    requires 0 < c.max
  {
    if i == 0 then Burst(Name(0), c.max) else FilledOps(c, i - 1) + [Request(Name(i), 1, Name(0))]
  }

  function FilledLog(c: Config, i: nat): seq<Accepted>
    requires 0 < c.max
  {
    if i == 0 then BurstLog(Name(0), c.max) else FilledLog(c, i - 1) + [Accepted(Name(i), 1)]
  }

  lemma {:induction false} FilledFacts(c: Config, i: nat)
    requires 0 < c.max
    ensures |Filled(c, i)| == i + 1 && Name(0) in Filled(c, i) && Filled(c, i)[Name(0)].lastSeen == 0
    ensures forall key :: key in Filled(c, i) ==> 1 <= |key| <= i + 1
    ensures forall key :: key in Filled(c, i) && key != Name(0) ==> Filled(c, i)[key].lastSeen == 1
  {
    hide Name;
    if i == 0 {
    } else {
      FilledFacts(c, i - 1);
      NewKeySize(Filled(c, i - 1), Name(i), Bucket([1], 1));
    }
  }

  lemma NewKeySize(m: Buckets, key: Key, b: Bucket)
    requires key !in m
    ensures |m[key := b]| == |m| + 1
  {
  }

  lemma {:induction false} FilledTimes(c: Config, i: nat)
    requires 0 < c.max
    ensures TimesOf(FilledLog(c, i), Name(0)) == Zeros(c.max)
  {
    hide TimesOf, Name;
    if i == 0 {
      TimesOfBurst(Name(0), c.max);
    } else {
      FilledTimes(c, i - 1);
      TimesOfAppend(FilledLog(c, i - 1), Accepted(Name(i), 1), Name(0));
      assert Zeros(c.max) + [] == Zeros(c.max);
    }
  }

  /** Below capacity nothing is evicted. */
  lemma {:induction false} FilledRun(c: Config, i: nat)
    requires 0 < c.max && i < c.maxBuckets && 0 < c.window
    ensures Run(c, FilledOps(c, i)) == State(Filled(c, i), FilledLog(c, i), 0)
    ensures Ordered(FilledOps(c, i), 1) && VictimsOldest(c, FilledOps(c, i))
  {
    hide Run, Recent, Ordered, VictimsOldest, Name;
    if i == 0 {
      BurstRun(c, Name(0), c.max);
      BurstOrdered(Name(0), c.max);
      OrderedLater(Burst(Name(0), c.max), 0, 1);
    } else {
      var op := Request(Name(i), 1, Name(0));
      FilledRun(c, i - 1);
      FilledFacts(c, i - 1);
      RecentZeros(0, 1 - c.window);
      AcceptedNext(c, FilledOps(c, i - 1), op, [], Filled(c, i - 1));
      assert [] + [1 as Time] == [1];
      OrderedAppend(FilledOps(c, i - 1), op, 1);
      VictimsAppend(c, FilledOps(c, i - 1), op);
    }
  }

  /** A full map, one key more, and key 0 again. */
  function EvictingOps(c: Config): seq<Op>
    requires 0 < c.max && 0 < c.maxBuckets
  {
    FilledOps(c, c.maxBuckets) + [Request(Name(0), 1, Name(c.maxBuckets))]
  }

  /** Key 0, seen longest ago, makes way for the last new key. */
  lemma EvictsFirst(c: Config)
    requires 0 < c.max && 0 < c.maxBuckets && 0 < c.window
    ensures var ops, s := FilledOps(c, c.maxBuckets), Run(c, FilledOps(c, c.maxBuckets));
            && s.log == FilledLog(c, c.maxBuckets) && s.evictions == 1 && |s.buckets| == c.maxBuckets
            && Name(0) !in s.buckets && Name(c.maxBuckets) in s.buckets
            && (forall key :: key in s.buckets ==> s.buckets[key].lastSeen == 1)
            && Ordered(ops, 1) && VictimsOldest(c, ops)
  {
    hide Run, Recent, Ordered, VictimsOldest, Name, TimesOf, Filled, FilledLog;
    var n := c.maxBuckets;
    var m, op := Filled(c, n - 1), Request(Name(n), 1, Name(0));
    FilledRun(c, n - 1);
    FilledFacts(c, n - 1);
    OldestFirst(c, n - 1);
    RecentZeros(0, 1 - c.window);
    AcceptedNext(c, FilledOps(c, n - 1), op, [], m - {Name(0)});
    assert FilledLog(c, n) == FilledLog(c, n - 1) + [Accepted(Name(n), 1)] by { LogStep(c, n); }
    OrderedAppend(FilledOps(c, n - 1), op, 1);
    VictimsAppend(c, FilledOps(c, n - 1), op);
    WithoutSize(m, Name(0));
    NewKeySize(m - {Name(0)}, Name(n), Bucket([] + [1], 1));
  }

  lemma LogStep(c: Config, n: nat)
    requires 0 < c.max && 0 < n
    ensures FilledLog(c, n) == FilledLog(c, n - 1) + [Accepted(Name(n), 1)]
  {
  }

  lemma OldestFirst(c: Config, i: nat)
    requires 0 < c.max
    ensures Oldest(Filled(c, i), Name(0))
  {
    FilledFacts(c, i);
  }

  lemma WithoutSize(m: Buckets, key: Key)
    requires key in m
    ensures |m - {key}| == |m| - 1
  {
    assert m == (m - {key})[key := m[key]];
    NewKeySize(m - {key}, key, m[key]);
  }

  /** At capacity an ordered run that evicts only buckets seen longest ago lets a key exceed its
      limit, for every limit and every capacity. */
  lemma EvictionOverflows(c: Config)
    requires 0 < c.max && 0 < c.maxBuckets && 2 <= c.window
    ensures var ops := EvictingOps(c);
            && Ordered(ops, 1) && VictimsOldest(c, ops) && Run(c, ops).evictions == 2
            && Load(c, ops, Name(0), -1) == c.max + 1
  {
    hide Run, Recent, Ordered, VictimsOldest, Name, TimesOf, Between;
    var n := c.maxBuckets;
    var ops, op := FilledOps(c, n), Request(Name(0), 1, Name(n));
    EvictsFirst(c);
    RecentZeros(0, 1 - c.window);
    AcceptedNext(c, ops, op, [], Run(c, ops).buckets - {Name(n)});
    OrderedAppend(ops, op, 1);
    VictimsAppend(c, ops, op);
    FilledTimes(c, n);
    TimesOfAppend(FilledLog(c, n), Accepted(Name(0), 1), Name(0));
    BetweenZeros(c.max, -1 + c.window);
    BetweenAppend(Zeros(c.max), 1, -1, -1 + c.window);
  }
}
