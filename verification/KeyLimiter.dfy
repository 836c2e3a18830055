/** The per-key request limiter of `proxy/internal/handler/proxy.go`.

    Each key owns a slice of timestamps that a request compacts in place and appends to; a
    periodic sweep drops keys whose timestamps have all left the window. */
module KeyLimiter {
  import opened SlidingWindow

  datatype Config = Config(limit: int, window: int, maxEntries: nat)

  // ---------------------------------------------------------------------
  // What a request and a sweep do to the lists
  // ---------------------------------------------------------------------

  predicate HasRoom(c: Config, m: Lists, key: Key) {
    key in m || |m| < c.maxEntries
  }

  predicate Allows(c: Config, m: Lists, key: Key, now: Time) {
    c.limit <= 0 || (HasRoom(c, m, key) && |Recent(ListOf(m, key), now - c.window)| < c.limit)
  }

  function AfterRequest(c: Config, m: Lists, key: Key, now: Time): Lists {
    if c.limit <= 0 || !HasRoom(c, m, key) then m
    else m[key := Recent(ListOf(m, key), now - c.window) + (if Allows(c, m, key, now) then [now] else [])]
  }

  function AfterSweep(c: Config, m: Lists, now: Time): Lists {
    map key | key in m && Recent(m[key], now - c.window) != [] :: m[key]
  }

  // ---------------------------------------------------------------------
  // The limiter object
  // ---------------------------------------------------------------------

  class KeyRateLimiter {
    const c: Config
    var requests: map<Key, Slice>

    /** No two keys share an array. */
    ghost predicate Valid()
      reads this
    {
      && (forall k :: k in requests ==> requests[k].len <= requests[k].data.Length)
      && (forall k, j :: k in requests && j in requests && requests[k].data == requests[j].data ==> k == j)
    }

    ghost function View(): Lists
      requires Valid()
      reads this, set k | k in requests :: requests[k].data
    {
      map k | k in requests :: Contents(requests[k])
    }

    constructor (limit: int, window: int)
      ensures Valid() && View() == map[] && c == Config(limit, window, 10000)
    {
      c := Config(limit, window, 10000);
      requests := map[];
    }

    method Allow(key: Key, now: Time) returns (allowed: bool)
      requires Valid()
      modifies this`requests, if key in requests then {requests[key].data} else {}
      ensures Valid()
      ensures allowed == Allows(c, old(View()), key, now)
      ensures View() == AfterRequest(c, old(View()), key, now)
    {
      hide Recent;
      ghost var m := View();
      assert |m| == |requests| by {
        assert m.Keys == requests.Keys;
        assert |m.Keys| == |m| && |requests.Keys| == |requests|;
      }
      if c.limit <= 0 {
        return true;
      }
      if key !in requests && |requests| >= c.maxEntries {
        return false;
      }
      var ts: Slice;
      if key in requests {
        ts := requests[key];
      } else {
        var none := new Time[0];
        ts := Slice(none, 0);
      }
      assert Contents(ts) == ListOf(m, key) && HasRoom(c, m, key);
      var kept := Compact(ts.data, ts.len, now - c.window);
      var valid := Slice(ts.data, kept);
      if kept >= c.limit {
        assert Contents(valid) + [] == Contents(valid);
        Put(m, key, valid);
        return false;
      }
      var longer := Append(valid, now);
      Put(m, key, longer);
      return true;
    }

    /** Stores a slice that shares its array with no other key. */
    method Put(ghost m: Lists, key: Key, s: Slice)
      requires Valid() && s.len <= s.data.Length
      requires forall k :: k in requests && k != key ==> requests[k].data != s.data
      requires m.Keys == requests.Keys && forall k :: k in requests && k != key ==> Contents(requests[k]) == m[k]
      modifies this`requests
      ensures Valid() && View() == m[key := Contents(s)]
    {
      requests := requests[key := s];
      assert View().Keys == m[key := Contents(s)].Keys;
    }

    /** One tick of the cleanup goroutine. */
    method Sweep(now: Time)
      requires Valid()
      modifies this`requests
      ensures Valid() && View() == (if c.limit <= 0 then old(View()) else AfterSweep(c, old(View()), now))
    {
      hide Recent;
      if c.limit <= 0 { return; }
      var cutoff := now - c.window;
      var todo := requests.Keys;
      ghost var m, all := View(), requests;
      while todo != {}
        invariant todo <= requests.Keys <= all.Keys
        invariant forall k :: k in requests ==> requests[k] == all[k]
        invariant forall k :: k in all ==> (k in requests <==> k in todo || Recent(m[k], cutoff) != [])
      {
        var key :| key in todo;
        var allExpired := AllExpired(requests[key], cutoff);
        assert Contents(all[key]) == m[key];
        if allExpired {
          requests := requests - {key};
        }
        todo := todo - {key};
      }
    }
  }

  /** What the decision is, counted timestamp by timestamp. */
  lemma AllowsExactly(c: Config, m: Lists, key: Key, now: Time)
    ensures var ts := if key in m then m[key] else [];
            Allows(c, m, key, now)
            <==> || c.limit <= 0
                 || (&& (key in m || |m| < c.maxEntries)
                     && |set i | 0 <= i < |ts| && ts[i] > now - c.window| < c.limit)
  {
    hide Recent;
    RecentCount(ListOf(m, key), now - c.window);
  }

  /** With room for its key a request prunes that key's list and, if it is accepted, enters it
      there; nothing else changes. */
  lemma RequestLists(c: Config, m: Lists, key: Key, now: Time)
    requires 0 < c.limit && (key in m || |m| < c.maxEntries)
    ensures var n := AfterRequest(c, m, key, now);
            && n.Keys == m.Keys + {key} && (forall k :: k in m && k != key ==> n[k] == m[k])
            && forall t :: t in n[key] <==>
                 || (key in m && t in m[key] && t > now - c.window)
                 || (t == now && Allows(c, m, key, now))
  {
    hide Recent, Allows;
    RecentMembers(ListOf(m, key), now - c.window);
  }

  /** A sweep keeps exactly the keys that have a timestamp in the window. */
  lemma SweepLists(c: Config, m: Lists, now: Time)
    ensures var n := AfterSweep(c, m, now);
            && (forall k :: k in n <==> k in m && exists t :: t in m[k] && t > now - c.window)
            && forall k :: k in n ==> n[k] == m[k]
  {
    hide Recent;
    forall k | k in m ensures Recent(m[k], now - c.window) != [] <==> exists t :: t in m[k] && t > now - c.window {
      RecentSome(m[k], now - c.window);
    }
  }

  method AllExpired(s: Slice, cutoff: Time) returns (allExpired: bool)
    requires s.len <= s.data.Length
    ensures allExpired <==> Recent(Contents(s), cutoff) == []
  {
    for i := 0 to s.len
      invariant Recent(s.data[..i], cutoff) == []
    {
      assert s.data[..i + 1] == s.data[..i] + [s.data[i]];
      RecentAppend(s.data[..i], s.data[i], cutoff);
      if s.data[i] > cutoff {
        RecentPrefix(s.data[..s.len], i + 1, cutoff);
        assert s.data[..s.len][..i + 1] == s.data[..i + 1];
        return false;
      }
    }
    return true;
  }

  lemma {:induction false} RecentPrefix(ts: seq<Time>, k: nat, cutoff: Time)
    requires k <= |ts|
    ensures |Recent(ts[..k], cutoff)| <= |Recent(ts, cutoff)|
    decreases |ts|
  {
    if k == |ts| {
      assert ts[..k] == ts;
    } else {
      RecentPrefix(ts[..|ts| - 1], k, cutoff);
      assert ts[..|ts| - 1][..k] == ts[..k];
    }
  }

  // ---------------------------------------------------------------------
  // Every run
  // ---------------------------------------------------------------------

  datatype Op = Request(key: Key, now: Time) | Sweep(now: Time)

  /** The limiter beside the log of what it accepted. */
  datatype State = State(lists: Lists, log: seq<Accepted>)

  function Do(c: Config, s: State, op: Op): State {
    match op
    case Request(key, now) =>
      State(AfterRequest(c, s.lists, key, now),
            if Allows(c, s.lists, key, now) then s.log + [Accepted(key, now)] else s.log)
    case Sweep(now) => s.(lists := AfterSweep(c, s.lists, now))
  }

  function Run(c: Config, ops: seq<Op>): State {
    if ops == [] then State(map[], []) else Do(c, Run(c, ops[..|ops| - 1]), ops[|ops| - 1])
  }

  lemma RunAppend(c: Config, ops: seq<Op>, op: Op)
    ensures Run(c, ops + [op]) == Do(c, Run(c, ops), op)
  {
    assert (ops + [op])[..|ops|] == ops;
  }

  /** The clock never goes back, and has not passed `now`. The limiter reads it under its lock. */
  predicate Ordered(ops: seq<Op>, now: Time) {
    ops == [] || (ops[|ops| - 1].now <= now && Ordered(ops[..|ops| - 1], ops[|ops| - 1].now))
  }

  ghost predicate Inv(c: Config, s: State, now: Time) {
    Represents(s.lists, s.log, now - c.window) && AllMetered(s.log, c.limit, c.window)
  }

  lemma DecisionAgrees(c: Config, s: State, key: Key, now: Time)
    requires Represents(s.lists, s.log, now - c.window)
    ensures |Recent(ListOf(s.lists, key), now - c.window)| == |Recent(TimesOf(s.log, key), now - c.window)|
  {
  }

  lemma RequestKept(c: Config, s: State, key: Key, now: Time)
    requires 0 < c.limit && Inv(c, s, now)
    ensures Inv(c, Do(c, s, Request(key, now)), now)
  {
    hide Represents, AllMetered, Recent, TimesOf;
    DecisionAgrees(c, s, key, now);
    var cutoff := now - c.window;
    if Allows(c, s.lists, key, now) {
      RepresentsAccepted(s.lists, s.log, key, now, cutoff);
      AllMeteredAppend(s.log, key, now, c.limit, c.window);
    } else if HasRoom(c, s.lists, key) {
      RepresentsPruned(s.lists, s.log, key, cutoff);
      assert Recent(ListOf(s.lists, key), cutoff) + [] == Recent(ListOf(s.lists, key), cutoff);
    }
  }

  lemma SweepKept(c: Config, s: State, now: Time)
    requires Inv(c, s, now)
    ensures Inv(c, Do(c, s, Sweep(now)), now)
  {
  }

  lemma {:induction false} InvAlongRun(c: Config, ops: seq<Op>, now: Time)
    requires 0 < c.limit && Ordered(ops, now)
    ensures Inv(c, Run(c, ops), now)
    decreases |ops|
  {
    hide Do, Represents;
    if ops == [] {
      EmptyInv(c, now);
    } else {
      var op := ops[|ops| - 1];
      var before := Run(c, ops[..|ops| - 1]);
      InvAlongRun(c, ops[..|ops| - 1], op.now);
      if op.Request? { RequestKept(c, before, op.key, op.now); } else { SweepKept(c, before, op.now); }
      var after := Do(c, before, op);
      RepresentsLater(after.lists, after.log, op.now - c.window, now - c.window);
    }
  }

  lemma EmptyInv(c: Config, now: Time)
    ensures Inv(c, State(map[], []), now)
  {
  }

  /** The limiter decides as one that keeps the full log, capacity aside: it accepts a request
      exactly when its key has a list or there is room for one, and fewer than `limit` accepted
      requests of the key lie in the window that ends now. */
  lemma DecidesLikeFullLog(c: Config, ops: seq<Op>, key: Key, now: Time)
    requires 0 < c.limit && Ordered(ops, now)
    ensures var s, t := Run(c, ops), Run(c, ops + [Request(key, now)]);
            t.log == if && (key in s.lists || |s.lists| < c.maxEntries)
                        && |Inside(s.log, key, now - c.window)| < c.limit
                     then s.log + [Accepted(key, now)] else s.log
    ensures Allows(c, Run(c, ops).lists, key, now) <==> |Run(c, ops + [Request(key, now)]).log| > |Run(c, ops).log|
  {
    hide Recent, TimesOf, Run, Represents, AllMetered, AfterRequest, Inside;
    RunAppend(c, ops, Request(key, now));
    InvAlongRun(c, ops, now);
    DecisionAgrees(c, Run(c, ops), key, now);
    WindowCount(Run(c, ops).log, key, now - c.window);
  }

  /** The requests of a run, in order. */
  function RequestsOf(ops: seq<Op>): seq<Accepted> {
    if ops == [] then []
    else
      var n := |ops| - 1;
      RequestsOf(ops[..n]) + (if ops[n].Request? then [Accepted(ops[n].key, ops[n].now)] else [])
  }

  lemma RequestsAppend(ops: seq<Op>, op: Op)
    ensures RequestsOf(ops + [op])
            == if op.Request? then RequestsOf(ops) + [Accepted(op.key, op.now)] else RequestsOf(ops)
  {
    assert (ops + [op])[..|ops|] == ops;
    assert RequestsOf(ops) + [] == RequestsOf(ops);
  }

  ghost function KeysOf(ops: seq<Op>): set<Key> {
    set i | 0 <= i < |ops| && ops[i].Request? :: ops[i].key
  }

  lemma {:induction false} KeysHeld(c: Config, ops: seq<Op>)
    ensures Run(c, ops).lists.Keys <= KeysOf(ops)
  {
    if ops == [] {
    } else {
      KeysHeld(c, ops[..|ops| - 1]);
      KeysGrow(ops);
    }
  }

  lemma KeysGrow(ops: seq<Op>)
    requires ops != []
    ensures var n := |ops| - 1;
            KeysOf(ops) == KeysOf(ops[..n]) + (if ops[n].Request? then {ops[n].key} else {})
  {
    var n := |ops| - 1;
    forall k | k in KeysOf(ops[..n]) ensures k in KeysOf(ops) {
      var i :| 0 <= i < n && ops[..n][i].Request? && ops[..n][i].key == k;
      assert ops[i].Request? && ops[i].key == k;
    }
    forall k | k in KeysOf(ops) ensures k in KeysOf(ops[..n]) || (ops[n].Request? && k == ops[n].key) {
      var i :| 0 <= i < |ops| && ops[i].Request? && ops[i].key == k;
      if i < n { assert ops[..n][i] == ops[i]; }
    }
  }

  lemma HasRoomStill(c: Config, ops: seq<Op>, key: Key)
    requires |KeysOf(ops) + {key}| <= c.maxEntries
    ensures key in Run(c, ops).lists || |Run(c, ops).lists| < c.maxEntries
  {
    hide Run, KeysOf;
    KeysHeld(c, ops);
    var m := Run(c, ops).lists;
    if key !in m { SubsetSize(m.Keys + {key}, KeysOf(ops) + {key}); }
    assert |m.Keys| == |m|;
  }

  lemma NextLikeFullLog(c: Config, ops: seq<Op>, op: Op)
    requires 0 < c.limit && Ordered(ops, op.now)
    requires op.Request? ==> |KeysOf(ops) + {op.key}| <= c.maxEntries
    requires Run(c, ops).log == FullLog(RequestsOf(ops), c.limit, c.window)
    ensures Run(c, ops + [op]).log == FullLog(RequestsOf(ops + [op]), c.limit, c.window)
  {
    hide Run, FullLog, KeysOf, Inside, RequestsOf, Ordered;
    RequestsAppend(ops, op);
    if op.Request? {
      HasRoomStill(c, ops, op.key);
      DecidesLikeFullLog(c, ops, op.key, op.now);
      FullLogAppend(RequestsOf(ops), Accepted(op.key, op.now), c.limit, c.window);
    } else {
      RunAppend(c, ops, op);
    }
  }

  /** As long as at most `maxEntries` keys were seen it accepts exactly what a limiter accepts that
      forgets nothing. */
  lemma {:induction false} AcceptsLikeFullLog(c: Config, ops: seq<Op>, now: Time)
    requires 0 < c.limit && Ordered(ops, now)
    requires |KeysOf(ops)| <= c.maxEntries
    ensures Run(c, ops).log == FullLog(RequestsOf(ops), c.limit, c.window)
    decreases |ops|
  {
    if ops == [] {
    } else {
      hide FullLog, KeysOf, Inside, RequestsOf, Run;
      var n := |ops| - 1;
      KeysGrow(ops);
      SubsetSize(KeysOf(ops[..n]), KeysOf(ops));
      AcceptsLikeFullLog(c, ops[..n], ops[n].now);
      assert ops[..n] + [ops[n]] == ops;
      NextLikeFullLog(c, ops[..n], ops[n]);
    }
  }

  /** In every run no window of length `window` holds more than `limit` accepted requests of a key. */
  lemma WindowBound(c: Config, ops: seq<Op>, now: Time, key: Key, from: Time)
    requires 0 < c.limit && Ordered(ops, now)
    ensures |Between(TimesOf(Run(c, ops).log, key), from, from + c.window)| <= c.limit
  {
    hide Run;
    InvAlongRun(c, ops, now);
    MeteredBound(TimesOf(Run(c, ops).log, key), c.limit, c.window, from);
  }

  lemma {:induction false} RunBounded(c: Config, ops: seq<Op>)
    ensures |Run(c, ops).lists| <= c.maxEntries
    decreases |ops|
  {
    if ops == [] {
    } else {
      var m := Run(c, ops[..|ops| - 1]).lists;
      var n := Run(c, ops).lists;
      RunBounded(c, ops[..|ops| - 1]);
      assert |m| == |m.Keys| && |n| == |n.Keys|;
      if ops[|ops| - 1].Sweep? {
        assert m.Keys == n.Keys + (m.Keys - n.Keys);
      } else {
        assert n.Keys == m.Keys || n.Keys == m.Keys + {ops[|ops| - 1].key};
      }
    }
  }

  /** A sweep never turns a refusal into an acceptance for a key it keeps or forgets: the
      decision on every key that has room is the same before and after. */
  lemma SweepKeepsDecisions(c: Config, m: Lists, at: Time, key: Key, now: Time)
    requires 0 < c.limit && at <= now && key in m
    requires HasRoom(c, AfterSweep(c, m, at), key)
    ensures Allows(c, AfterSweep(c, m, at), key, now) == Allows(c, m, key, now)
  {
    RecentTwice(m[key], at - c.window, now - c.window);
  }
}
